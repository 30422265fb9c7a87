/** Shaping an action's response: the answer a handler gave, against a declared type and the caller's selection. */
module Action {
  import opened Wrappers
  import opened TypeRefs

  // ----- Values, types and selections

  /** A response value; integers are the numbers that fit 64 bits, every other number is a float. */
  datatype Value =
    | Null
    | Boolean(flag: bool)
    | Integer(i: int)
    | Float(r: real)
    | Str(text: string)
    | Arr(items: seq<Value>)
    | Obj(members: seq<Member>)

  /** Members keep their order of insertion. */
  datatype Member = Member(name: string, value: Value)

  datatype FieldDef = FieldDef(name: string, typeText: string)

  datatype ObjectType = ObjectType(name: string, fields: seq<FieldDef>)

  datatype Selection =
    | Field(name: string, alias: Option<string>, selection: seq<Selection>)
    | Fragment

  datatype ShapeError =
    | GotNull
    | ExpectingArray
    | GotArray(expected: string)
    | GotObject(expected: string)
    | GotScalar(expected: string)
    | FieldMissing(name: string)
    | FieldNull(name: string)

  function ResponseKey(field: Selection): string
    requires field.Field?
  {
    match field.alias case Some(alias) => alias case None => field.name
  }

  function FindObject(types: seq<ObjectType>, name: string): (r: Option<ObjectType>)
    ensures r.Some? ==> r.value in types && r.value.name == name
    ensures r.Some? ==> exists i | 0 <= i < |types| ::
      types[i] == r.value && forall j | 0 <= j < i :: types[j].name != name
    ensures r.None? ==> forall t | t in types :: t.name != name
  {
    if types == [] then None
    else if types[0].name == name then Some(types[0])
    else
      var r := FindObject(types[1..], name);
      assert forall i | 0 < i < |types| :: types[i] == types[1..][i - 1];
      r
  }

  function FindField(fields: seq<FieldDef>, name: string): (r: Option<FieldDef>)
    ensures r.Some? ==> r.value in fields && r.value.name == name
    ensures r.Some? ==> exists i | 0 <= i < |fields| ::
      fields[i] == r.value && forall j | 0 <= j < i :: fields[j].name != name
    ensures r.None? ==> forall f | f in fields :: f.name != name
  {
    if fields == [] then None
    else if fields[0].name == name then Some(fields[0])
    else
      var r := FindField(fields[1..], name);
      assert forall i | 0 < i < |fields| :: fields[i] == fields[1..][i - 1];
      r
  }

  function IndexOf(members: seq<Member>, name: string): (r: Option<nat>)
    ensures r.Some? ==> r.value < |members| && members[r.value].name == name
    ensures r.Some? ==> forall i | 0 <= i < r.value :: members[i].name != name
    ensures r.None? ==> forall m | m in members :: m.name != name
  {
    if members == [] then None
    else if members[0].name == name then Some(0)
    else match IndexOf(members[1..], name)
      case None => None
      case Some(i) => Some(i + 1)
  }

  function Get(members: seq<Member>, name: string): Option<Value> {
    match IndexOf(members, name)
    case None => None
    case Some(i) => Some(members[i].value)
  }

  /** A known key keeps its place and takes the new value; a new one goes last. */
  function Insert(members: seq<Member>, name: string, value: Value): seq<Member> {
    match IndexOf(members, name)
    case None => members + [Member(name, value)]
    case Some(i) => members[i := Member(name, value)]
  }

  // ----- Scalars

  predicate IsScalar(name: string, value: Value) {
    match name
    case "String" => value.Str?
    case "Int" => value.Integer?
    case "Float" => value.Integer? || value.Float?
    case "Boolean" => value.Boolean?
    case "ID" => value.Str? || value.Integer? || value.Float?
    case _ => true
  }

  function ScalarShape(name: string, value: Value): (r: Result<Value, ShapeError>)
    ensures r.Ok? <==> IsScalar(name, value)
    ensures r.Ok? ==> r.value == value
  {
    if IsScalar(name, value) then Ok(value)
    else match value
      case Obj(_) => Err(GotObject(name))
      case Arr(_) => Err(GotArray(name))
      case _ => Err(GotScalar(name))
  }

  // ----- Shaping

  function Shape(types: seq<ObjectType>, ty: TypeRef, value: Value, selection: seq<Selection>)
    : Result<Value, ShapeError>
    decreases value, 3
  {
    if value.Null? then if ty.nonNull then Err(GotNull) else Ok(Null)
    else match ty
      case ListOf(inner, _) =>
        if !value.Arr? then Err(ExpectingArray)
        else (
          match ShapeItems(types, inner, value, |value.items|, selection)
          case Err(e) => Err(e)
          case Ok(items) => Ok(Arr(items)))
      case Named(name, _) =>
        match FindObject(types, name)
        case None => ScalarShape(name, value)
        case Some(obj) =>
          match value
          case Arr(_) => Err(GotArray(name))
          case Obj(_) => (
            match ShapeFields(types, obj, value, selection, |selection|)
            case Err(e) => Err(e)
            case Ok(members) => Ok(Obj(members)))
          case _ => Err(GotScalar(name))
  }

  /** The first `n` items of an array. */
  function ShapeItems(types: seq<ObjectType>, inner: TypeRef, list: Value, n: nat, selection: seq<Selection>)
    : (r: Result<seq<Value>, ShapeError>)
    requires list.Arr? && n <= |list.items|
    decreases list, 2, n
  {
    if n == 0 then Ok([])
    else match ShapeItems(types, inner, list, n - 1, selection)
      case Err(e) => Err(e)
      case Ok(items) =>
        match Shape(types, inner, list.items[n - 1], selection)
        case Err(e) => Err(e)
        case Ok(item) => Ok(items + [item])
  }

  /** The first `n` selected fields of an object. */
  function ShapeFields(types: seq<ObjectType>, obj: ObjectType, value: Value, selection: seq<Selection>, n: nat)
    : (r: Result<seq<Member>, ShapeError>)
    requires value.Obj? && n <= |selection|
    decreases value, 2, n
  {
    if n == 0 then Ok([])
    else match ShapeFields(types, obj, value, selection, n - 1)
      case Err(e) => Err(e)
      case Ok(members) =>
        if selection[n - 1].Fragment? then Ok(members)
        else match FieldShape(types, obj, value, selection[n - 1])
          case Err(e) => Err(e)
          case Ok(shaped) => Ok(Insert(members, ResponseKey(selection[n - 1]), shaped))
  }

  function FieldShape(types: seq<ObjectType>, obj: ObjectType, value: Value, field: Selection)
    : Result<Value, ShapeError>
    requires value.Obj? && field.Field?
    decreases value, 1
  {
    if field.name == "__typename" then Ok(Str(obj.name))
    else match FindField(obj.fields, field.name)
      case None => Ok(match Get(value.members, field.name) { case None => Null case Some(v) => v })
      case Some(def) =>
        var ty := ParseType(def.typeText);
        match IndexOf(value.members, field.name)
        case None => if ty.nonNull then Err(FieldMissing(field.name)) else Ok(Null)
        case Some(i) =>
          var v := value.members[i].value;
          if v.Null? then if ty.nonNull then Err(FieldNull(field.name)) else Ok(Null)
          else Shape(types, ty, v, field.selection)
  }

  // ----- The loops

  method Validate(types: seq<ObjectType>, ty: TypeRef, value: Value, selection: seq<Selection>)
    returns (r: Result<Value, ShapeError>)
    ensures r == Shape(types, ty, value, selection)
    decreases value, 3
  {
    if value.Null? {
      return if ty.nonNull then Err(GotNull) else Ok(Null);
    }
    match ty {
      case ListOf(inner, _) =>
        if !value.Arr? {
          return Err(ExpectingArray);
        }
        r := ValidateItems(types, inner, value, selection);
      case Named(name, _) =>
        match FindObject(types, name) {
          case None => return ScalarShape(name, value);
          case Some(obj) =>
            match value {
              case Arr(_) => return Err(GotArray(name));
              case Obj(_) => r := ProjectObject(types, obj, value, selection);
              case _ => return Err(GotScalar(name));
            }
        }
    }
  }

  method ValidateItems(types: seq<ObjectType>, inner: TypeRef, value: Value, selection: seq<Selection>)
    returns (r: Result<Value, ShapeError>)
    requires value.Arr?
    ensures r == match ShapeItems(types, inner, value, |value.items|, selection) {
      case Err(e) => Err(e)
      case Ok(items) => Ok(Arr(items))
    }
    decreases value, 2
  {
    hide Shape;
    var shaped: seq<Value> := [];
    for i := 0 to |value.items|
      invariant ShapeItems(types, inner, value, i, selection) == Ok(shaped)
    {
      var item := Validate(types, inner, value.items[i], selection);
      if item.Err? {
        ItemFailureSticks(types, inner, value, i + 1, selection);
        return Err(item.error);
      }
      shaped := shaped + [item.value];
    }
    return Ok(Arr(shaped));
  }

  method ProjectObject(types: seq<ObjectType>, obj: ObjectType, value: Value, selection: seq<Selection>)
    returns (r: Result<Value, ShapeError>)
    requires value.Obj?
    ensures r == match ShapeFields(types, obj, value, selection, |selection|) {
      case Err(e) => Err(e)
      case Ok(members) => Ok(Obj(members))
    }
    decreases value, 2
  {
    hide Shape, FieldShape, Insert;
    var out: seq<Member> := [];
    for i := 0 to |selection|
      invariant ShapeFields(types, obj, value, selection, i) == Ok(out)
    {
      var field := selection[i];
      if field.Field? {
        var shaped := ValidateField(types, obj, value, field);
        if shaped.Err? {
          FieldFailureSticks(types, obj, value, selection, i + 1);
          return Err(shaped.error);
        }
        out := Insert(out, ResponseKey(field), shaped.value);
      }
    }
    return Ok(Obj(out));
  }

  method ValidateField(types: seq<ObjectType>, obj: ObjectType, value: Value, field: Selection)
    returns (r: Result<Value, ShapeError>)
    requires value.Obj? && field.Field?
    ensures r == FieldShape(types, obj, value, field)
    decreases value, 1
  {
    if field.name == "__typename" {
      return Ok(Str(obj.name));
    }
    var def := FindField(obj.fields, field.name);
    if def.None? {
      var raw := Get(value.members, field.name);
      return Ok(if raw.Some? then raw.value else Null);
    }
    var ty := ParseType(def.value.typeText);
    var at := IndexOf(value.members, field.name);
    if at.None? {
      return if ty.nonNull then Err(FieldMissing(field.name)) else Ok(Null);
    }
    var v := value.members[at.value].value;
    if v.Null? {
      return if ty.nonNull then Err(FieldNull(field.name)) else Ok(Null);
    }
    r := Validate(types, ty, v, field.selection);
  }

  lemma {:induction false} ItemFailureSticks(types: seq<ObjectType>, inner: TypeRef, value: Value, n: nat,
    selection: seq<Selection>)
    requires value.Arr? && n <= |value.items| && ShapeItems(types, inner, value, n, selection).Err?
    ensures ShapeItems(types, inner, value, |value.items|, selection) == ShapeItems(types, inner, value, n, selection)
    decreases |value.items| - n
  {
    if n < |value.items| {
      ItemFailureSticks(types, inner, value, n + 1, selection);
    }
  }

  lemma {:induction false} FieldFailureSticks(types: seq<ObjectType>, obj: ObjectType, value: Value,
    selection: seq<Selection>, n: nat)
    requires value.Obj? && n <= |selection| && ShapeFields(types, obj, value, selection, n).Err?
    ensures ShapeFields(types, obj, value, selection, |selection|) == ShapeFields(types, obj, value, selection, n)
    decreases |selection| - n
  {
    if n < |selection| {
      FieldFailureSticks(types, obj, value, selection, n + 1);
    }
  }
}
