/** When a response is accepted, and what the shaped answer holds. */
module ActionTheorems {
  import opened Wrappers
  import opened Collections
  import opened TypeRefs
  import opened Action

  // ----- Conformance, one place at a time

  /** A value met at some depth, with the type it is declared to have and what the caller selects of it. */
  datatype Place = Place(ty: TypeRef, value: Value, selection: seq<Selection>)

  function FieldPlace(obj: ObjectType, value: Value, field: Selection): Option<Place>
    requires value.Obj?
  {
    if field.Fragment? || field.name == "__typename" then None
    else match FindField(obj.fields, field.name)
      case None => None
      case Some(def) =>
        match IndexOf(value.members, field.name)
        case None => None
        case Some(i) => Some(Place(ParseType(def.typeText), value.members[i].value, field.selection))
  }

  /** One step down: into an item of a list, or along a selected field. */
  function Below(types: seq<ObjectType>, place: Place, step: nat): Option<Place> {
    match place.ty
    case ListOf(inner, _) =>
      if place.value.Arr? && step < |place.value.items|
      then Some(Place(inner, place.value.items[step], place.selection))
      else None
    case Named(name, _) =>
      if place.value.Obj? && FindObject(types, name).Some? && step < |place.selection|
      then FieldPlace(FindObject(types, name).value, place.value, place.selection[step])
      else None
  }

  function At(types: seq<ObjectType>, place: Place, path: seq<nat>): Option<Place>
    decreases |path|
  {
    if path == [] then Some(place)
    else match Below(types, place, path[0])
      case None => None
      case Some(next) => At(types, next, path[1..])
  }

  /** A selected field that must have a value is there. */
  predicate IsThereIfRequired(obj: ObjectType, value: Value, field: Selection)
    requires value.Obj?
  {
    field.Field? && field.name != "__typename" && FindField(obj.fields, field.name).Some?
    && ParseType(FindField(obj.fields, field.name).value.typeText).nonNull
    ==> IndexOf(value.members, field.name).Some?
  }

  /** What one place alone must satisfy. */
  predicate FitsHere(types: seq<ObjectType>, place: Place) {
    if place.value.Null? then !place.ty.nonNull
    else match place.ty
      case ListOf(_, _) => place.value.Arr?
      case Named(name, _) =>
        match FindObject(types, name)
        case None => IsScalar(name, place.value)
        case Some(obj) =>
          && place.value.Obj?
          && forall k | 0 <= k < |place.selection| :: IsThereIfRequired(obj, place.value, place.selection[k])
  }

  /** Every place that items and selected fields lead to fits. */
  ghost predicate Conforms(types: seq<ObjectType>, place: Place) {
    forall path :: At(types, place, path).Some? ==> FitsHere(types, At(types, place, path).value)
  }

  lemma ConformsStepwise(types: seq<ObjectType>, place: Place)
    ensures Conforms(types, place) <==>
      && FitsHere(types, place)
      && forall step: nat | Below(types, place, step).Some? :: Conforms(types, Below(types, place, step).value)
  {
    hide FitsHere, Below;
    if Conforms(types, place) {
      assert At(types, place, []) == Some(place);
      forall step: nat | Below(types, place, step).Some?
        ensures Conforms(types, Below(types, place, step).value)
      {
        var next := Below(types, place, step).value;
        forall path | At(types, next, path).Some? ensures FitsHere(types, At(types, next, path).value) {
          assert ([step] + path)[1..] == path;
          assert At(types, place, [step] + path) == At(types, next, path);
        }
      }
    }
    if FitsHere(types, place)
      && forall step: nat | Below(types, place, step).Some? :: Conforms(types, Below(types, place, step).value)
    {
      forall path | At(types, place, path).Some? ensures FitsHere(types, At(types, place, path).value) {
        if path != [] {
          assert Below(types, place, path[0]).Some?;
          assert At(types, place, path) == At(types, Below(types, place, path[0]).value, path[1..]);
        }
      }
    }
  }

  function ShapePlace(types: seq<ObjectType>, place: Place): Result<Value, ShapeError> {
    Shape(types, place.ty, place.value, place.selection)
  }

  lemma {:induction false} ItemsShapeIff(types: seq<ObjectType>, inner: TypeRef, list: Value, n: nat,
    selection: seq<Selection>)
    requires list.Arr? && n <= |list.items|
    ensures ShapeItems(types, inner, list, n, selection).Ok?
      <==> forall k | 0 <= k < n :: Shape(types, inner, list.items[k], selection).Ok?
  {
    hide Shape;
    if n > 0 {
      ItemsShapeIff(types, inner, list, n - 1, selection);
    }
  }

  lemma {:induction false} FieldsShapeIff(types: seq<ObjectType>, obj: ObjectType, value: Value,
    selection: seq<Selection>, n: nat)
    requires value.Obj? && n <= |selection|
    ensures ShapeFields(types, obj, value, selection, n).Ok?
      <==> forall k | 0 <= k < n && selection[k].Field? :: FieldShape(types, obj, value, selection[k]).Ok?
  {
    hide FieldShape;
    if n > 0 {
      FieldsShapeIff(types, obj, value, selection, n - 1);
    }
  }

  lemma FieldShapesIff(types: seq<ObjectType>, obj: ObjectType, value: Value, field: Selection)
    requires value.Obj? && field.Field?
    ensures FieldShape(types, obj, value, field).Ok? <==>
      && IsThereIfRequired(obj, value, field)
      && (FieldPlace(obj, value, field).Some? ==> ShapePlace(types, FieldPlace(obj, value, field).value).Ok?)
  {
  }

  lemma ShapesStepwise(types: seq<ObjectType>, place: Place)
    ensures ShapePlace(types, place).Ok? <==>
      && FitsHere(types, place)
      && forall step: nat | Below(types, place, step).Some? :: ShapePlace(types, Below(types, place, step).value).Ok?
  {
    if place.value.Null? {
    } else {
      match place.ty
      case ListOf(inner, _) =>
        if place.value.Arr? {
          ItemsShapeIff(types, inner, place.value, |place.value.items|, place.selection);
          hide ShapeItems;
          forall k: nat | k < |place.value.items|
            ensures Shape(types, inner, place.value.items[k], place.selection)
              == ShapePlace(types, Below(types, place, k).value)
          {}
        }
      case Named(name, _) =>
        if place.value.Obj? && FindObject(types, name).Some? {
          ObjectShapesStepwise(types, FindObject(types, name).value, place);
        }
    }
  }

  lemma ObjectShapesStepwise(types: seq<ObjectType>, obj: ObjectType, place: Place)
    requires place.value.Obj? && place.ty.Named? && FindObject(types, place.ty.name) == Some(obj)
    ensures ShapePlace(types, place).Ok? <==>
      && FitsHere(types, place)
      && forall step: nat | Below(types, place, step).Some? :: ShapePlace(types, Below(types, place, step).value).Ok?
  {
    var value, selection := place.value, place.selection;
    FieldsShapeIff(types, obj, value, selection, |selection|);
    forall k | 0 <= k < |selection| && selection[k].Field?
      ensures FieldShape(types, obj, value, selection[k]).Ok? <==>
        && IsThereIfRequired(obj, value, selection[k])
        && (FieldPlace(obj, value, selection[k]).Some? ==>
            ShapePlace(types, FieldPlace(obj, value, selection[k]).value).Ok?)
    {
      FieldShapesIff(types, obj, value, selection[k]);
    }
    assert forall k | 0 <= k < |selection| && selection[k].Fragment? ::
      IsThereIfRequired(obj, value, selection[k]) && FieldPlace(obj, value, selection[k]).None?;
    assert forall k: nat | k < |selection| :: Below(types, place, k) == FieldPlace(obj, value, selection[k]);
    hide ShapeFields, FieldShape, FieldPlace, IsThereIfRequired;
  }

  lemma BelowIsSmaller(types: seq<ObjectType>, place: Place, step: nat)
    requires Below(types, place, step).Some?
    ensures Below(types, place, step).value.value < place.value
  {
  }

  /** The response is accepted exactly when it conforms to the declared type along everything selected. */
  lemma {:induction false} ShapesIffConforms(types: seq<ObjectType>, place: Place)
    ensures Shape(types, place.ty, place.value, place.selection).Ok? <==> Conforms(types, place)
    decreases place.value
  {
    ConformsStepwise(types, place);
    ShapesStepwise(types, place);
    hide Shape, Below, FitsHere, Conforms;
    forall step: nat | Below(types, place, step).Some?
      ensures var next := Below(types, place, step).value;
        ShapePlace(types, next).Ok? <==> Conforms(types, next)
    {
      BelowIsSmaller(types, place, step);
      ShapesIffConforms(types, Below(types, place, step).value);
    }
  }

  // ----- The members of a shaped object

  function Keys(members: seq<Member>): (r: seq<string>)
    ensures |r| == |members|
  {
    seq(|members|, i requires 0 <= i < |members| => members[i].name)
  }

  /** The response keys of the first `n` selected fields, each where it comes first. */
  function FirstKeys(selection: seq<Selection>, n: nat): seq<string>
    requires n <= |selection|
  {
    if n == 0 then []
    else
      var before := FirstKeys(selection, n - 1);
      if selection[n - 1].Fragment? || ResponseKey(selection[n - 1]) in before then before
      else before + [ResponseKey(selection[n - 1])]
  }

  /** A field answers under its alias, or under its name when it has none. */
  predicate AnswersTo(field: Selection, key: string) {
    field.Field? && (field.alias == Some(key) || (field.alias.None? && field.name == key))
  }

  /** The last of the first `n` selected fields that answers to a key. */
  function LastField(selection: seq<Selection>, n: nat, key: string): (r: Option<Selection>)
    requires n <= |selection|
    ensures r.Some? ==> r.value in selection && AnswersTo(r.value, key)
    ensures r.Some? ==> exists k | 0 <= k < n ::
      selection[k] == r.value && forall j | k < j < n :: !AnswersTo(selection[j], key)
    ensures r.None? ==> forall j | 0 <= j < n :: !AnswersTo(selection[j], key)
  {
    if n == 0 then None
    else if selection[n - 1].Field? && ResponseKey(selection[n - 1]) == key then Some(selection[n - 1])
    else LastField(selection, n - 1, key)
  }

  lemma InsertKeys(members: seq<Member>, name: string, value: Value)
    ensures Keys(Insert(members, name, value))
      == if name in Keys(members) then Keys(members) else Keys(members) + [name]
  {
    match IndexOf(members, name)
    case Some(i) => assert Keys(members)[i] == name;
    case None =>
      forall i | 0 <= i < |members| ensures Keys(members)[i] != name {
        assert members[i] in members;
      }
  }

  lemma IndexIsFirst(members: seq<Member>, name: string, i: nat)
    requires i < |members| && members[i].name == name && forall j | 0 <= j < i :: members[j].name != name
    ensures IndexOf(members, name) == Some(i)
  {
    assert members[i] in members;
  }

  lemma InsertGets(members: seq<Member>, name: string, value: Value, key: string)
    ensures Get(Insert(members, name, value), key) == if key == name then Some(value) else Get(members, key)
  {
    var after := Insert(members, name, value);
    match IndexOf(members, name)
    case Some(i) =>
      match IndexOf(members, key) {
        case Some(j) => IndexIsFirst(after, key, j);
        case None =>
          forall m | m in after ensures m.name != key {
            var k :| 0 <= k < |after| && after[k] == m;
            assert members[k] in members;
          }
      }
    case None =>
      match IndexOf(members, key) {
        case Some(j) => IndexIsFirst(after, key, j);
        case None =>
          if key == name {
            forall j | 0 <= j < |members| ensures after[j].name != key {
              assert members[j] in members;
            }
            IndexIsFirst(after, key, |members|);
          }
      }
  }

  /** Keys in the order of first selection; under each, what the last field of that key gives. */
  lemma {:induction false} ShapedMembers(types: seq<ObjectType>, obj: ObjectType, value: Value,
    selection: seq<Selection>, n: nat, key: string)
    requires value.Obj? && n <= |selection| && ShapeFields(types, obj, value, selection, n).Ok?
    ensures var members := ShapeFields(types, obj, value, selection, n).value;
      && Keys(members) == FirstKeys(selection, n)
      && match LastField(selection, n, key) {
           case None => Get(members, key) == None
           case Some(field) =>
             && FieldShape(types, obj, value, field).Ok?
             && Get(members, key) == Some(FieldShape(types, obj, value, field).value)
         }
  {
    hide FieldShape, Insert;
    if n > 0 {
      var members := ShapeFields(types, obj, value, selection, n - 1).value;
      ShapedMembers(types, obj, value, selection, n - 1, key);
      if selection[n - 1].Field? {
        var shaped := FieldShape(types, obj, value, selection[n - 1]).value;
        InsertKeys(members, ResponseKey(selection[n - 1]), shaped);
        InsertGets(members, ResponseKey(selection[n - 1]), shaped, key);
      }
    }
  }

  function ResponseKeys(selection: seq<Selection>): seq<string> {
    if selection == [] then []
    else
      var init, last := selection[..|selection| - 1], selection[|selection| - 1];
      ResponseKeys(init) + (if last.Field? then [ResponseKey(last)] else [])
  }

  lemma {:induction false} DistinctKeysStand(selection: seq<Selection>, n: nat)
    requires n <= |selection| && Distinct(ResponseKeys(selection[..n]))
    ensures FirstKeys(selection, n) == ResponseKeys(selection[..n])
  {
    if n > 0 {
      assert selection[..n][..n - 1] == selection[..n - 1];
      var before := ResponseKeys(selection[..n - 1]);
      if selection[n - 1].Field? {
        DistinctConcat(before, [ResponseKey(selection[n - 1])]);
        assert ResponseKey(selection[n - 1]) in ToSet([ResponseKey(selection[n - 1])]);
      } else {
        assert ResponseKeys(selection[..n]) == before + [] == before;
      }
      DistinctKeysStand(selection, n - 1);
    }
  }

  /** With distinct response keys a shaped object has exactly them, in the order selected. */
  lemma ShapedObjectHasSelectedKeys(types: seq<ObjectType>, ty: TypeRef, value: Value, selection: seq<Selection>)
    requires Shape(types, ty, value, selection).Ok? && value.Obj? && ty.Named? && FindObject(types, ty.name).Some?
    ensures Shape(types, ty, value, selection).value.Obj?
    ensures Keys(Shape(types, ty, value, selection).value.members) == FirstKeys(selection, |selection|)
    ensures Distinct(ResponseKeys(selection)) ==>
      Keys(Shape(types, ty, value, selection).value.members) == ResponseKeys(selection)
  {
    ShapedMembers(types, FindObject(types, ty.name).value, value, selection, |selection|, "");
    assert selection[..|selection|] == selection;
    if Distinct(ResponseKeys(selection)) {
      DistinctKeysStand(selection, |selection|);
    }
    hide ShapeFields, FirstKeys, ResponseKeys;
  }

  // ----- No null where none is declared

  /** What the declared types alone promise of an answer. */
  ghost predicate WellShaped(types: seq<ObjectType>, ty: TypeRef, answer: Value, selection: seq<Selection>)
    decreases answer, 1
  {
    if answer.Null? then !ty.nonNull
    else match ty
      case ListOf(inner, _) =>
        answer.Arr? && forall i | 0 <= i < |answer.items| :: WellShaped(types, inner, answer.items[i], selection)
      case Named(name, _) =>
        match FindObject(types, name)
        case None => IsScalar(name, answer)
        case Some(obj) => answer.Obj? && forall key :: MemberIsWellShaped(types, obj, answer, selection, key)
  }

  ghost predicate MemberIsWellShaped(types: seq<ObjectType>, obj: ObjectType, answer: Value, selection: seq<Selection>,
    key: string)
    requires answer.Obj?
    decreases answer, 0
  {
    match (LastField(selection, |selection|, key), IndexOf(answer.members, key))
    case (None, None) => true
    case (Some(field), Some(i)) =>
      if field.name == "__typename" then answer.members[i].value == Str(obj.name)
      else FindField(obj.fields, field.name).Some? ==>
        WellShaped(types, ParseType(FindField(obj.fields, field.name).value.typeText), answer.members[i].value,
          field.selection)
    case _ => false
  }

  lemma {:induction false} ShapedItem(types: seq<ObjectType>, inner: TypeRef, list: Value, n: nat,
    selection: seq<Selection>, k: nat)
    requires list.Arr? && k < n <= |list.items| && ShapeItems(types, inner, list, n, selection).Ok?
    ensures |ShapeItems(types, inner, list, n, selection).value| == n
    ensures Shape(types, inner, list.items[k], selection)
      == Ok(ShapeItems(types, inner, list, n, selection).value[k])
  {
    hide Shape;
    if n > 1 {
      ShapedItem(types, inner, list, n - 1, selection, if k < n - 1 then k else 0);
    }
  }

  lemma ShapedItems(types: seq<ObjectType>, inner: TypeRef, list: Value, selection: seq<Selection>)
    requires list.Arr? && ShapeItems(types, inner, list, |list.items|, selection).Ok?
    ensures var items := ShapeItems(types, inner, list, |list.items|, selection).value;
      |items| == |list.items|
      && forall k | 0 <= k < |items| :: Shape(types, inner, list.items[k], selection) == Ok(items[k])
  {
    hide ShapeItems, Shape;
    if list.items == [] {
      NoItems(types, inner, list, selection);
    } else {
      ShapedItem(types, inner, list, |list.items|, selection, 0);
    }
    forall k: nat | k < |list.items|
      ensures Shape(types, inner, list.items[k], selection)
        == Ok(ShapeItems(types, inner, list, |list.items|, selection).value[k])
    {
      ShapedItem(types, inner, list, |list.items|, selection, k);
    }
  }

  lemma NoItems(types: seq<ObjectType>, inner: TypeRef, list: Value, selection: seq<Selection>)
    requires list.Arr?
    ensures ShapeItems(types, inner, list, 0, selection) == Ok([])
  {
  }

  /** No accepted answer has a null where the declared type has none, at any depth. */
  lemma {:induction false} ShapeIsWellShaped(types: seq<ObjectType>, ty: TypeRef, value: Value,
    selection: seq<Selection>)
    requires Shape(types, ty, value, selection).Ok?
    ensures WellShaped(types, ty, Shape(types, ty, value, selection).value, selection)
    ensures Shape(types, ty, value, selection).value.Null? <==> value.Null?
    decreases value, 1
  {
    if !value.Null? {
      match ty
      case ListOf(inner, _) => ItemsAreWellShaped(types, ty, value, selection);
      case Named(name, _) =>
        match FindObject(types, name) {
          case None =>
          case Some(obj) =>
            var answer := Shape(types, ty, value, selection).value;
            hide ShapeFields;
            forall key ensures MemberIsWellShaped(types, obj, answer, selection, key) {
              ShapedMembers(types, obj, value, selection, |selection|, key);
              FieldIsWellShaped(types, obj, value, selection, answer, key);
            }
        }
    }
  }

  lemma {:induction false} ItemsAreWellShaped(types: seq<ObjectType>, ty: TypeRef, value: Value,
    selection: seq<Selection>)
    requires ty.ListOf? && value.Arr? && Shape(types, ty, value, selection).Ok?
    ensures WellShaped(types, ty, Shape(types, ty, value, selection).value, selection)
    decreases value, 0
  {
    var answer := Shape(types, ty, value, selection).value;
    ShapedItems(types, ty.inner, value, selection);
    forall i | 0 <= i < |answer.items| ensures WellShaped(types, ty.inner, answer.items[i], selection) {
      ShapeIsWellShaped(types, ty.inner, value.items[i], selection);
    }
  }

  lemma {:induction false} FieldIsWellShaped(types: seq<ObjectType>, obj: ObjectType, value: Value,
    selection: seq<Selection>, answer: Value, key: string)
    requires value.Obj? && answer.Obj?
    requires match LastField(selection, |selection|, key) {
      case None => Get(answer.members, key) == None
      case Some(field) =>
        && FieldShape(types, obj, value, field).Ok?
        && Get(answer.members, key) == Some(FieldShape(types, obj, value, field).value)
    }
    ensures MemberIsWellShaped(types, obj, answer, selection, key)
    decreases value, 0
  {
    match LastField(selection, |selection|, key)
    case None =>
    case Some(field) =>
      if field.name != "__typename" && FindField(obj.fields, field.name).Some? {
        var ty := ParseType(FindField(obj.fields, field.name).value.typeText);
        match IndexOf(value.members, field.name) {
          case None =>
          case Some(i) =>
            var v := value.members[i].value;
            if !v.Null? {
              ShapeIsWellShaped(types, ty, v, field.selection);
            }
        }
      }
  }

  // ----- Only what is selected matters

  /** Two values that look alike along everything selected. */
  ghost predicate Alike(types: seq<ObjectType>, ty: TypeRef, v: Value, w: Value, selection: seq<Selection>)
    decreases v, 1
  {
    if v == w then true
    else if v.Null? || w.Null? then false
    else match ty
      case ListOf(inner, _) =>
        && v.Arr? && w.Arr? && |v.items| == |w.items|
        && forall i | 0 <= i < |v.items| :: Alike(types, inner, v.items[i], w.items[i], selection)
      case Named(name, _) =>
        match FindObject(types, name)
        case None => false
        case Some(obj) =>
          && v.Obj? && w.Obj?
          && forall k | 0 <= k < |selection| && selection[k].Field? :: AlikeAt(types, obj, v, w, selection[k])
  }

  ghost predicate AlikeAt(types: seq<ObjectType>, obj: ObjectType, v: Value, w: Value, field: Selection)
    requires v.Obj? && w.Obj? && field.Field?
    decreases v, 0
  {
    if field.name == "__typename" then true
    else match FindField(obj.fields, field.name)
      case None => Get(v.members, field.name) == Get(w.members, field.name)
      case Some(def) =>
        match (IndexOf(v.members, field.name), IndexOf(w.members, field.name))
        case (None, None) => true
        case (Some(i), Some(j)) =>
          Alike(types, ParseType(def.typeText), v.members[i].value, w.members[j].value, field.selection)
        case _ => false
  }

  /** Values alike along the selection shape alike, verdict and answer. */
  lemma {:induction false} OnlySelectedMatters(types: seq<ObjectType>, ty: TypeRef, v: Value, w: Value,
    selection: seq<Selection>)
    requires Alike(types, ty, v, w, selection)
    ensures Shape(types, ty, v, selection) == Shape(types, ty, w, selection)
    decreases v, 2
  {
    if v != w {
      match ty
      case ListOf(inner, _) => AlikeItems(types, inner, v, w, |v.items|, selection);
      case Named(name, _) => AlikeFields(types, FindObject(types, name).value, v, w, selection, |selection|);
    }
  }

  lemma {:induction false} AlikeItems(types: seq<ObjectType>, inner: TypeRef, v: Value, w: Value, n: nat,
    selection: seq<Selection>)
    requires v.Arr? && w.Arr? && n <= |v.items| == |w.items|
    requires forall i | 0 <= i < |v.items| :: Alike(types, inner, v.items[i], w.items[i], selection)
    ensures ShapeItems(types, inner, v, n, selection) == ShapeItems(types, inner, w, n, selection)
    decreases v, 1, n
  {
    hide Shape, Alike;
    if n > 0 {
      AlikeItems(types, inner, v, w, n - 1, selection);
      OnlySelectedMatters(types, inner, v.items[n - 1], w.items[n - 1], selection);
    }
  }

  lemma {:induction false} AlikeFields(types: seq<ObjectType>, obj: ObjectType, v: Value, w: Value,
    selection: seq<Selection>, n: nat)
    requires v.Obj? && w.Obj? && n <= |selection|
    requires forall k | 0 <= k < |selection| && selection[k].Field? :: AlikeAt(types, obj, v, w, selection[k])
    ensures ShapeFields(types, obj, v, selection, n) == ShapeFields(types, obj, w, selection, n)
    decreases v, 1, n
  {
    hide FieldShape, AlikeAt;
    if n > 0 {
      AlikeFields(types, obj, v, w, selection, n - 1);
      if selection[n - 1].Field? {
        AlikeField(types, obj, v, w, selection[n - 1]);
      }
    }
  }

  lemma {:induction false} AlikeField(types: seq<ObjectType>, obj: ObjectType, v: Value, w: Value, field: Selection)
    requires v.Obj? && w.Obj? && field.Field? && AlikeAt(types, obj, v, w, field)
    ensures FieldShape(types, obj, v, field) == FieldShape(types, obj, w, field)
    decreases v, 0
  {
    if field.name != "__typename" && FindField(obj.fields, field.name).Some? {
      match (IndexOf(v.members, field.name), IndexOf(w.members, field.name))
      case (Some(i), Some(j)) =>
        var ty := ParseType(FindField(obj.fields, field.name).value.typeText);
        OnlySelectedMatters(types, ty, v.members[i].value, w.members[j].value, field.selection);
      case _ =>
    }
  }

  /** A member nobody selects is invisible. */
  lemma UnselectedIsInvisible(types: seq<ObjectType>, ty: TypeRef, members: seq<Member>, extra: Member,
    selection: seq<Selection>)
    requires ty.Named? && FindObject(types, ty.name).Some?
    requires forall k | 0 <= k < |selection| && selection[k].Field? :: selection[k].name != extra.name
    ensures Shape(types, ty, Obj(members + [extra]), selection) == Shape(types, ty, Obj(members), selection)
  {
    var v, w := Obj(members + [extra]), Obj(members);
    forall k | 0 <= k < |selection| && selection[k].Field?
      ensures AlikeAt(types, FindObject(types, ty.name).value, v, w, selection[k])
    {
      var name := selection[k].name;
      match IndexOf(members, name)
      case Some(i) => IndexIsFirst(v.members, name, i);
      case None => assert forall m | m in v.members :: m.name != name;
    }
    OnlySelectedMatters(types, ty, v, w, selection);
  }

  // ----- Shaping an answer again

  /** A selection that renames nothing and asks for nothing twice, at any depth. */
  predicate IsPlain(selection: seq<Selection>)
    decreases selection
  {
    && Distinct(ResponseKeys(selection))
    && forall k | 0 <= k < |selection| && selection[k].Field? ::
         ResponseKey(selection[k]) == selection[k].name && IsPlain(selection[k].selection)
  }

  lemma {:induction false} KeyIsListed(selection: seq<Selection>, n: nat, k: nat)
    requires k < n <= |selection| && selection[k].Field?
    ensures ResponseKey(selection[k]) in ResponseKeys(selection[..n])
  {
    assert selection[..n][..n - 1] == selection[..n - 1];
    if k < n - 1 {
      KeyIsListed(selection, n - 1, k);
    }
  }

  lemma {:induction false} OnlyFieldIsLast(selection: seq<Selection>, n: nat, k: nat)
    requires k < n <= |selection| && selection[k].Field? && Distinct(ResponseKeys(selection[..n]))
    ensures LastField(selection, n, ResponseKey(selection[k])) == Some(selection[k])
  {
    assert selection[..n][..n - 1] == selection[..n - 1];
    var before := ResponseKeys(selection[..n - 1]);
    if k < n - 1 {
      KeyIsListed(selection, n - 1, k);
      if selection[n - 1].Field? {
        var key := ResponseKey(selection[n - 1]);
        DistinctConcat(before, [key]);
        assert key in ToSet([key]) && ResponseKey(selection[k]) in ToSet(before);
      } else {
        assert ResponseKeys(selection[..n]) == before + [] == before;
      }
      OnlyFieldIsLast(selection, n - 1, k);
    }
  }

  /** For a plain selection an accepted answer is a fixed point: shaping it again changes nothing. */
  lemma {:induction false} ShapingAgainChangesNothing(types: seq<ObjectType>, ty: TypeRef, value: Value,
    selection: seq<Selection>)
    requires IsPlain(selection) && Shape(types, ty, value, selection).Ok?
    ensures Shape(types, ty, Shape(types, ty, value, selection).value, selection)
      == Shape(types, ty, value, selection)
    decreases value, 2
  {
    if !value.Null? {
      ShapeIsWellShaped(types, ty, value, selection);
      match ty
      case ListOf(inner, _) => ItemsAgain(types, ty, value, selection);
      case Named(name, _) =>
        if FindObject(types, name).Some? {
          FieldsAgain(types, FindObject(types, name).value, ty, value, selection);
        }
    }
  }

  lemma {:induction false} ItemsAgain(types: seq<ObjectType>, ty: TypeRef, value: Value, selection: seq<Selection>)
    requires ty.ListOf? && value.Arr? && IsPlain(selection) && Shape(types, ty, value, selection).Ok?
    ensures Shape(types, ty, Shape(types, ty, value, selection).value, selection) == Shape(types, ty, value, selection)
    decreases value, 1
  {
    var answer := Shape(types, ty, value, selection).value;
    ShapedItems(types, ty.inner, value, selection);
    forall i | 0 <= i < |answer.items|
      ensures Shape(types, ty.inner, answer.items[i], selection) == Ok(answer.items[i])
    {
      ShapingAgainChangesNothing(types, ty.inner, value.items[i], selection);
    }
    ItemsStay(types, ty.inner, answer, |answer.items|, selection);
    assert answer.items[..|answer.items|] == answer.items;
    hide ShapeItems;
  }

  lemma {:induction false} ItemsStay(types: seq<ObjectType>, inner: TypeRef, list: Value, n: nat,
    selection: seq<Selection>)
    requires list.Arr? && n <= |list.items|
    requires forall i | 0 <= i < |list.items| :: Shape(types, inner, list.items[i], selection) == Ok(list.items[i])
    ensures ShapeItems(types, inner, list, n, selection) == Ok(list.items[..n])
  {
    hide Shape;
    if n > 0 {
      ItemsStay(types, inner, list, n - 1, selection);
      assert list.items[..n] == list.items[..n - 1] + [list.items[n - 1]];
    }
  }

  lemma {:induction false} FieldsAgain(types: seq<ObjectType>, obj: ObjectType, ty: TypeRef, value: Value,
    selection: seq<Selection>)
    requires ty.Named? && FindObject(types, ty.name) == Some(obj) && value.Obj?
    requires IsPlain(selection) && Shape(types, ty, value, selection).Ok?
    ensures Shape(types, ty, Shape(types, ty, value, selection).value, selection) == Shape(types, ty, value, selection)
    decreases value, 1
  {
    var answer := Shape(types, ty, value, selection).value;
    hide ShapeFields;
    assert selection[..|selection|] == selection;
    forall k: nat | k < |selection| && selection[k].Field?
      ensures FieldShape(types, obj, value, selection[k]).Ok?
      ensures FieldShape(types, obj, answer, selection[k]) == FieldShape(types, obj, value, selection[k])
    {
      var field := selection[k];
      ShapedMembers(types, obj, value, selection, |selection|, field.name);
      OnlyFieldIsLast(selection, |selection|, k);
      FieldAgain(types, obj, value, answer, field);
    }
    FieldsStay(types, obj, value, answer, selection, |selection|);
  }

  lemma {:induction false} FieldAgain(types: seq<ObjectType>, obj: ObjectType, value: Value, answer: Value,
    field: Selection)
    requires value.Obj? && answer.Obj? && field.Field? && IsPlain(field.selection)
    requires FieldShape(types, obj, value, field).Ok?
    requires Get(answer.members, field.name) == Some(FieldShape(types, obj, value, field).value)
    ensures FieldShape(types, obj, answer, field) == FieldShape(types, obj, value, field)
    decreases value, 0
  {
    if field.name != "__typename" && FindField(obj.fields, field.name).Some? {
      var ty := ParseType(FindField(obj.fields, field.name).value.typeText);
      match IndexOf(value.members, field.name)
      case None =>
      case Some(i) =>
        var v := value.members[i].value;
        if !v.Null? {
          ShapeIsWellShaped(types, ty, v, field.selection);
          ShapingAgainChangesNothing(types, ty, v, field.selection);
        }
    }
  }

  lemma {:induction false} FieldsStay(types: seq<ObjectType>, obj: ObjectType, v: Value, w: Value,
    selection: seq<Selection>, n: nat)
    requires v.Obj? && w.Obj? && n <= |selection|
    requires forall k | 0 <= k < |selection| && selection[k].Field? ::
      FieldShape(types, obj, w, selection[k]) == FieldShape(types, obj, v, selection[k])
    ensures ShapeFields(types, obj, w, selection, n) == ShapeFields(types, obj, v, selection, n)
  {
    hide FieldShape;
    if n > 0 {
      FieldsStay(types, obj, v, w, selection, n - 1);
    }
  }
}
