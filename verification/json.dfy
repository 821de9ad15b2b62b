/** The parsed document the viewer displays, and how the viewer inspects it:
    `getDataType`, JavaScript's `typeof`, the scalar/container test of `JsonNode`,
    the child entries a container is iterated into, and truthiness. */
module JsonValues {
  import opened Decimal

  /** A value produced by a strict JSON parse. `Num` carries an integral
      number; an object's members are listed in the order in which the host
      enumerates them. */
  datatype JsonValue =
    | Null
    | Bool(b: bool)
    | Num(n: int)
    | Str(s: string)
    | Arr(items: seq<JsonValue>)
    | Obj(members: seq<Member>)

  datatype Member = Member(key: string, value: JsonValue)

  /** One child as the tree view iterates a container: the name it is shown
      under (and keyed by) and its value. */
  datatype Entry = Entry(name: string, value: JsonValue)

  /** The six kinds the viewer distinguishes. */
  datatype Kind = NullKind | BooleanKind | NumberKind | StringKind | ArrayKind | ObjectKind

  /** The name the viewer gives each kind. */
  function KindName(k: Kind): string {
    match k
    case NullKind => "null"
    case BooleanKind => "boolean"
    case NumberKind => "number"
    case StringKind => "string"
    case ArrayKind => "array"
    case ObjectKind => "object"
  }

  const KindNames: set<string> := {"null", "boolean", "number", "string", "array", "object"}

  /** Reference classification, one kind per constructor. */
  function KindOf(v: JsonValue): Kind {
    match v
    case Null => NullKind
    case Bool(_) => BooleanKind
    case Num(_) => NumberKind
    case Str(_) => StringKind
    case Arr(_) => ArrayKind
    case Obj(_) => ObjectKind
  }

  /** The answers JavaScript's `typeof` can give for a parsed value. */
  datatype JsType = ObjectType | StringType | NumberType | BooleanType

  /** The text `typeof` returns. */
  function TypeName(t: JsType): string {
    match t
    case ObjectType => "object"
    case StringType => "string"
    case NumberType => "number"
    case BooleanType => "boolean"
  }

  /** JavaScript's `typeof` on a parsed value: `null` and arrays are objects too. */
  function TypeOf(v: JsonValue): (r: JsType)
    ensures r == ObjectType <==> v.Null? || v.Arr? || v.Obj?
    ensures r == NumberType <==> v.Num?
    ensures r == StringType <==> v.Str?
    ensures r == BooleanType <==> v.Bool?
  {
    match v
    case Bool(_) => BooleanType
    case Num(_) => NumberType
    case Str(_) => StringType
    case _ => ObjectType
  }

  /** `getDataType`: null first, then arrays, then `typeof`. */
  function GetDataType(v: JsonValue): (r: string)
    ensures r == KindName(KindOf(v))
    ensures r in KindNames
    ensures r == "object" <==> v.Obj?
    ensures r == "array" <==> v.Arr?
  {
    if v == Null then "null"
    else if v.Arr? then "array"
    else TypeName(TypeOf(v))
  }

  /** Testing `typeof` before the null and array tests would call both an object. */
  lemma TypeOfAloneConflates(xs: seq<JsonValue>)
    ensures TypeOf(Null) == TypeOf(Arr(xs)) == ObjectType
    ensures GetDataType(Null) != GetDataType(Arr(xs))
  {
  }

  /** The test `typeof data !== 'object' || data === null` of `JsonNode`. */
  predicate IsScalar(v: JsonValue)
    ensures IsScalar(v) <==> !v.Arr? && !v.Obj?
  {
    TypeOf(v) != ObjectType || v == Null
  }

  predicate IsContainer(v: JsonValue) {
    !IsScalar(v)
  }

  lemma ContainerIffArrayOrObject(v: JsonValue)
    ensures IsContainer(v) <==> v.Arr? || v.Obj?
  {
  }

  /** The children of a container in iteration order: an array's elements
      named by their index, an object's members named by their key. A scalar
      has none. */
  function Entries(v: JsonValue): (r: seq<Entry>)
    ensures forall i :: 0 <= i < |r| ==> r[i].value < v
    ensures v.Arr? ==> |r| == |v.items| && forall i :: 0 <= i < |r| ==> r[i] == Entry(NatToText(i), v.items[i])
    ensures v.Obj? ==> |r| == |v.members| && forall i :: 0 <= i < |r| ==> r[i] == Entry(v.members[i].key, v.members[i].value)
    ensures IsScalar(v) ==> r == []
  {
    match v
    case Arr(xs) => seq(|xs|, i requires 0 <= i < |xs| => Entry(NatToText(i), xs[i]))
    case Obj(ms) => seq(|ms|, i requires 0 <= i < |ms| => Entry(ms[i].key, ms[i].value))
    case _ => []
  }

  /** No two members of one object share a key. */
  predicate UniqueKeys(ms: seq<Member>) {
    forall i, j :: 0 <= i < j < |ms| ==> ms[i].key != ms[j].key
  }

  /** Every object in the document has unique keys, as every JavaScript object has. */
  predicate WellFormed(v: JsonValue) {
    match v
    case Arr(xs) => forall i :: 0 <= i < |xs| ==> WellFormed(xs[i])
    case Obj(ms) => UniqueKeys(ms) && forall i :: 0 <= i < |ms| ==> WellFormed(ms[i].value)
    case _ => true
  }

  /** No two entries of one container share a name. */
  predicate DistinctNames(es: seq<Entry>) {
    forall i, j :: 0 <= i < j < |es| ==> es[i].name != es[j].name
  }

  /** The children of a well-formed container are named apart and are well-formed. */
  lemma EntriesOfWellFormed(v: JsonValue)
    requires WellFormed(v)
    ensures DistinctNames(Entries(v))
    ensures forall i :: 0 <= i < |Entries(v)| ==> WellFormed(Entries(v)[i].value)
  {
    var es := Entries(v);
    if v.Arr? {
      forall i, j | 0 <= i < j < |es|
        ensures es[i].name != es[j].name
      {
        NatToTextInjective(i, j);
      }
    }
  }

  /** JavaScript truthiness of a parsed value: `null`, `false`, `0` and `""`
      are falsy; every array and object, even an empty one, is truthy. */
  predicate Truthy(v: JsonValue) {
    match v
    case Null => false
    case Bool(b) => b
    case Num(n) => n != 0
    case Str(s) => s != ""
    case _ => true
  }
}
