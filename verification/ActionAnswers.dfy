/** What an accepted answer holds, place by place: the handler's values under the caller's keys. */
module ActionAnswers {
  import opened Wrappers
  import opened Collections
  import opened TypeRefs
  import opened Action
  import opened ActionTheorems

  // ----- Scalars

  /** Which built-in scalars each kind of value may answer; any other name takes every value. */
  lemma BuiltInScalars(name: string, value: Value)
    requires name in {"String", "Int", "Float", "Boolean", "ID"}
    ensures match value {
      case Str(_) => IsScalar(name, value) <==> name in {"String", "ID"}
      case Integer(_) => IsScalar(name, value) <==> name in {"Int", "Float", "ID"}
      case Float(_) => IsScalar(name, value) <==> name in {"Float", "ID"}
      case Boolean(_) => IsScalar(name, value) <==> name == "Boolean"
      case _ => !IsScalar(name, value)
    }
  {
  }

  // ----- The order of the keys

  /** Some selected field answers to `a` before any answers to `b`. */
  ghost predicate ComesFirst(selection: seq<Selection>, n: nat, a: string, b: string)
    requires n <= |selection|
  {
    exists p | 0 <= p < n :: AnswersTo(selection[p], a) && forall q | 0 <= q <= p :: !AnswersTo(selection[q], b)
  }

  lemma {:induction false} FirstKeysAreSelected(selection: seq<Selection>, n: nat, key: string)
    requires n <= |selection|
    ensures key in FirstKeys(selection, n) <==> exists k | 0 <= k < n :: AnswersTo(selection[k], key)
  {
    if n > 0 {
      FirstKeysAreSelected(selection, n - 1, key);
      var last := selection[n - 1];
      assert AnswersTo(last, key) <==> last.Field? && ResponseKey(last) == key;
      if key in FirstKeys(selection, n - 1) {
        var k :| 0 <= k < n - 1 && AnswersTo(selection[k], key);
      }
    }
  }

  /** The keys of an answer are those of the selected fields, each once, in the order they are first selected. */
  lemma {:induction false} FirstKeysInOrder(selection: seq<Selection>, n: nat)
    requires n <= |selection|
    ensures var keys := FirstKeys(selection, n);
      && (forall key :: key in keys <==> exists k | 0 <= k < n :: AnswersTo(selection[k], key))
      && (forall i, j | 0 <= i < j < |keys| :: ComesFirst(selection, n, keys[i], keys[j]))
  {
    forall key ensures key in FirstKeys(selection, n) <==> exists k | 0 <= k < n :: AnswersTo(selection[k], key) {
      FirstKeysAreSelected(selection, n, key);
    }
    forall i, j | 0 <= i < j < |FirstKeys(selection, n)|
      ensures ComesFirst(selection, n, FirstKeys(selection, n)[i], FirstKeys(selection, n)[j])
    {
      EarlierKeyComesFirst(selection, n, i, j);
    }
  }

  lemma {:induction false} EarlierKeyComesFirst(selection: seq<Selection>, n: nat, i: nat, j: nat)
    requires n <= |selection| && i < j < |FirstKeys(selection, n)|
    ensures ComesFirst(selection, n, FirstKeys(selection, n)[i], FirstKeys(selection, n)[j])
  {
    var before, a, b := FirstKeys(selection, n - 1), FirstKeys(selection, n)[i], FirstKeys(selection, n)[j];
    var p: nat;
    if j < |before| {
      EarlierKeyComesFirst(selection, n - 1, i, j);
      p :| p < n - 1 && AnswersTo(selection[p], a) && forall q | 0 <= q <= p :: !AnswersTo(selection[q], b);
    } else {
      FirstKeysAreSelected(selection, n - 1, a);
      FirstKeysAreSelected(selection, n - 1, b);
      p :| p < n - 1 && AnswersTo(selection[p], a);
    }
    assert AnswersTo(selection[p], a) && forall q | 0 <= q <= p :: !AnswersTo(selection[q], b);
  }

  // ----- What an answer holds

  /**
   * `answer` is what a value of the type answers along the selection: nothing for null, an item for each item,
   * a scalar as it is, and an object's selected fields under their keys.
   */
  ghost predicate Answers(types: seq<ObjectType>, ty: TypeRef, value: Value, selection: seq<Selection>, answer: Value)
    decreases value, 1
  {
    if value.Null? then answer.Null?
    else match ty
      case ListOf(inner, _) =>
        && value.Arr? && answer.Arr? && |answer.items| == |value.items|
        && forall i | 0 <= i < |value.items| :: Answers(types, inner, value.items[i], selection, answer.items[i])
      case Named(name, _) =>
        match FindObject(types, name)
        case None => answer == value
        case Some(obj) =>
          && value.Obj? && answer.Obj? && Keys(answer.members) == FirstKeys(selection, |selection|)
          && forall key | LastField(selection, |selection|, key).Some? ::
               var field := LastField(selection, |selection|, key).value;
               var held := Get(answer.members, key);
               held.Some? && FieldAnswers(types, obj, value, field, held.value)
  }

  /** A declared field answers the member of its name, null when there is none; any other passes its member on. */
  ghost predicate FieldAnswers(types: seq<ObjectType>, obj: ObjectType, value: Value, field: Selection, answer: Value)
    requires value.Obj? && field.Field?
    decreases value, 0
  {
    if field.name == "__typename" then answer == Str(obj.name)
    else match (FindField(obj.fields, field.name), IndexOf(value.members, field.name))
      case (_, None) => answer == Null
      case (None, Some(i)) => answer == value.members[i].value
      case (Some(def), Some(i)) =>
        Answers(types, ParseType(def.typeText), value.members[i].value, field.selection, answer)
  }

  lemma {:induction false} ShapeAnswers(types: seq<ObjectType>, ty: TypeRef, value: Value, selection: seq<Selection>)
    requires Shape(types, ty, value, selection).Ok?
    ensures Answers(types, ty, value, selection, Shape(types, ty, value, selection).value)
    decreases value, 2
  {
    if !value.Null? {
      var answer := Shape(types, ty, value, selection).value;
      match ty
      case ListOf(inner, _) =>
        ShapedItems(types, inner, value, selection);
        hide ShapeItems;
        forall i | 0 <= i < |value.items|
          ensures Answers(types, inner, value.items[i], selection, answer.items[i])
        {
          ShapeAnswers(types, inner, value.items[i], selection);
        }
      case Named(name, _) =>
        if FindObject(types, name).Some? {
          ShapeAnswersObject(types, FindObject(types, name).value, ty, value, selection);
        }
    }
  }

  lemma {:induction false} ShapeAnswersObject(types: seq<ObjectType>, obj: ObjectType, ty: TypeRef, value: Value,
    selection: seq<Selection>)
    requires ty.Named? && FindObject(types, ty.name) == Some(obj) && value.Obj?
    requires Shape(types, ty, value, selection).Ok?
    ensures Answers(types, ty, value, selection, Shape(types, ty, value, selection).value)
    decreases value, 1
  {
    var answer := Shape(types, ty, value, selection).value;
    ShapedMembers(types, obj, value, selection, |selection|, "");
    hide ShapeFields, FirstKeys;
    forall key | LastField(selection, |selection|, key).Some?
      ensures Get(answer.members, key).Some?
      ensures FieldAnswers(types, obj, value, LastField(selection, |selection|, key).value,
        Get(answer.members, key).value)
    {
      ShapedMembers(types, obj, value, selection, |selection|, key);
      ShapeAnswersField(types, obj, value, LastField(selection, |selection|, key).value);
    }
  }

  lemma {:induction false} ShapeAnswersField(types: seq<ObjectType>, obj: ObjectType, value: Value, field: Selection)
    requires value.Obj? && field.Field? && FieldShape(types, obj, value, field).Ok?
    ensures FieldAnswers(types, obj, value, field, FieldShape(types, obj, value, field).value)
    decreases value, 0
  {
    if field.name != "__typename" && FindField(obj.fields, field.name).Some? {
      match IndexOf(value.members, field.name)
      case None =>
      case Some(i) =>
        var ty, v := ParseType(FindField(obj.fields, field.name).value.typeText), value.members[i].value;
        if !v.Null? {
          ShapeAnswers(types, ty, v, field.selection);
        }
    }
  }

  // ----- There is one answer

  lemma {:induction false} SameMembers(a: seq<Member>, b: seq<Member>)
    requires Keys(a) == Keys(b) && Distinct(Keys(a))
    requires forall key | key in Keys(a) :: Get(a, key) == Get(b, key)
    ensures a == b
  {
    forall i | 0 <= i < |a| ensures a[i] == b[i] {
      var key := Keys(a)[i];
      assert Keys(b)[i] == key;
      MemberIsGot(a, i);
      MemberIsGot(b, i);
    }
  }

  lemma MemberIsGot(members: seq<Member>, i: nat)
    requires i < |members| && Distinct(Keys(members))
    ensures Get(members, members[i].name) == Some(members[i].value)
  {
    var keys := Keys(members);
    forall j | 0 <= j < i ensures members[j].name != members[i].name {
      assert keys[j] != keys[i];
    }
    IndexIsFirst(members, members[i].name, i);
  }

  lemma {:induction false} OneAnswer(types: seq<ObjectType>, ty: TypeRef, value: Value, selection: seq<Selection>,
    a: Value, b: Value)
    requires Answers(types, ty, value, selection, a) && Answers(types, ty, value, selection, b)
    ensures a == b
    decreases value, 2
  {
    if !value.Null? {
      match ty
      case ListOf(inner, _) =>
        forall i | 0 <= i < |value.items| ensures a.items[i] == b.items[i] {
          OneAnswer(types, inner, value.items[i], selection, a.items[i], b.items[i]);
        }
      case Named(name, _) =>
        if FindObject(types, name).Some? {
          OneObject(types, FindObject(types, name).value, ty, value, selection, a, b);
        }
    }
  }

  lemma {:induction false} OneObject(types: seq<ObjectType>, obj: ObjectType, ty: TypeRef, value: Value,
    selection: seq<Selection>, a: Value, b: Value)
    requires ty.Named? && FindObject(types, ty.name) == Some(obj) && value.Obj?
    requires Answers(types, ty, value, selection, a) && Answers(types, ty, value, selection, b)
    ensures a == b
    decreases value, 1
  {
    hide FieldAnswers;
    var keys := FirstKeys(selection, |selection|);
    assert Keys(a.members) == keys == Keys(b.members);
    FirstKeysAreDistinct(selection, |selection|);
    forall key | key in Keys(a.members) ensures Get(a.members, key) == Get(b.members, key) {
      FirstKeysAreSelected(selection, |selection|, key);
      var field := LastField(selection, |selection|, key).value;
      OneFieldAnswer(types, obj, value, field, Get(a.members, key).value, Get(b.members, key).value);
    }
    SameMembers(a.members, b.members);
  }

  lemma {:induction false} OneFieldAnswer(types: seq<ObjectType>, obj: ObjectType, value: Value, field: Selection,
    a: Value, b: Value)
    requires value.Obj? && field.Field?
    requires FieldAnswers(types, obj, value, field, a) && FieldAnswers(types, obj, value, field, b)
    ensures a == b
    decreases value, 0
  {
    if field.name != "__typename" {
      match (FindField(obj.fields, field.name), IndexOf(value.members, field.name))
      case (Some(def), Some(i)) =>
        OneAnswer(types, ParseType(def.typeText), value.members[i].value, field.selection, a, b);
      case _ =>
    }
  }

  lemma {:induction false} FirstKeysAreDistinct(selection: seq<Selection>, n: nat)
    requires n <= |selection|
    ensures Distinct(FirstKeys(selection, n))
  {
    if n > 0 {
      FirstKeysAreDistinct(selection, n - 1);
    }
  }

  /** The verdict and the answer of every response, without the loops: it conforms, and it holds just its answer. */
  lemma AcceptedIffAnswered(types: seq<ObjectType>, ty: TypeRef, value: Value, selection: seq<Selection>,
    answer: Value)
    ensures Shape(types, ty, value, selection) == Ok(answer) <==>
      Conforms(types, Place(ty, value, selection)) && Answers(types, ty, value, selection, answer)
  {
    hide Shape, Answers, Conforms;
    ShapesIffConforms(types, Place(ty, value, selection));
    if Shape(types, ty, value, selection).Ok? {
      ShapeAnswers(types, ty, value, selection);
      if Answers(types, ty, value, selection, answer) {
        OneAnswer(types, ty, value, selection, answer, Shape(types, ty, value, selection).value);
      }
    }
  }
}
