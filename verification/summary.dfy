/** `renderValue`: the one-line summary shown after a node's name, and a reader
    that recovers from a summary everything it shows about the value. */
module Summary {
  import opened Options
  import opened Decimal
  import opened JsonValues

  /** The summary of `v`, switching on `getDataType(v)` as the source does; the
      default case is `String(value)`, reached only by numbers. A string is
      quoted with no escaping. */
  function RenderValue(v: JsonValue): (r: string)
    ensures v.Str? ==> r == "\"" + v.s + "\""
    ensures v.Null? ==> r == "null"
    ensures v.Bool? ==> r == (if v.b then "true" else "false")
    ensures v.Arr? ==> r == "Array(" + NatToText(|v.items|) + ")"
    ensures v.Obj? ==> r == "Object{" + NatToText(|v.members|) + "}"
    ensures v.Num? ==> r == IntToText(v.n)
  {
    var t := GetDataType(v);
    if t == "string" then "\"" + v.s + "\""
    else if t == "null" then "null"
    else if t == "boolean" then (if v.b then "true" else "false")
    else if t == "array" then "Array(" + NatToText(|v.items|) + ")"
    else if t == "object" then "Object{" + NatToText(|v.members|) + "}"
    else IntToText(v.n)
  }

  /** What a summary shows of a value: scalars in full, containers by size. */
  datatype Shape =
    | NullShape
    | BoolShape(b: bool)
    | NumShape(n: int)
    | StrShape(s: string)
    | ArrShape(length: nat)
    | ObjShape(size: nat)

  function ShapeOf(v: JsonValue): Shape {
    match v
    case Null => NullShape
    case Bool(b) => BoolShape(b)
    case Num(n) => NumShape(n)
    case Str(s) => StrShape(s)
    case Arr(xs) => ArrShape(|xs|)
    case Obj(ms) => ObjShape(|ms|)
  }

  /** Reads a summary back: a quoted text, a keyword, a sized container, or a number. */
  function ReadSummary(t: string): Option<Shape> {
    if |t| >= 2 && t[0] == '"' && t[|t| - 1] == '"' then Some(StrShape(t[1..|t| - 1]))
    else if t == "null" then Some(NullShape)
    else if t == "true" then Some(BoolShape(true))
    else if t == "false" then Some(BoolShape(false))
    else if |t| >= 7 && t[..6] == "Array(" && t[|t| - 1] == ')' then
      match ParseNat(t[6..|t| - 1])
      case Some(k) => Some(ArrShape(k))
      case None => None
    else if |t| >= 8 && t[..7] == "Object{" && t[|t| - 1] == '}' then
      match ParseNat(t[7..|t| - 1])
      case Some(k) => Some(ObjShape(k))
      case None => None
    else
      match ParseInt(t)
      case Some(k) => Some(NumShape(k))
      case None => None
  }

  /** The summary is unambiguous: it determines the kind, a scalar's exact
      value (a string's text even when it contains quotes) and a container's size. */
  lemma SummaryRoundTrip(v: JsonValue)
    ensures ReadSummary(RenderValue(v)) == Some(ShapeOf(v))
  {
    match v
    case Null =>
    case Bool(b) =>
    case Str(s) => ReadsString(s);
    case Num(n) => ReadsNumber(n);
    case Arr(xs) => ReadsArray(|xs|);
    case Obj(ms) => ReadsObject(|ms|);
  }

  lemma ReadsString(s: string)
    ensures ReadSummary("\"" + s + "\"") == Some(StrShape(s))
  {
    var t := "\"" + s + "\"";
    assert t[1..|t| - 1] == s;
  }

  /** No keyword summary starts with `c`. */
  lemma NotKeyword(t: string, c: char)
    requires |t| >= 1 && t[0] == c && c != 'n' && c != 't' && c != 'f'
    ensures t != "null" && t != "true" && t != "false"
  {
    assert "null"[0] == 'n' && "true"[0] == 't' && "false"[0] == 'f';
  }

  lemma ReadsNumber(n: int)
    ensures ReadSummary(IntToText(n)) == Some(NumShape(n))
  {
    var t := IntToText(n);
    NotKeyword(t, t[0]);
    assert !(|t| >= 7 && t[..6] == "Array(") by {
      assert "Array("[0] == 'A';
    }
    assert !(|t| >= 8 && t[..7] == "Object{") by {
      assert "Object{"[0] == 'O';
    }
    IntRoundTrip(n);
  }

  lemma ReadsArray(k: nat)
    ensures ReadSummary("Array(" + NatToText(k) + ")") == Some(ArrShape(k))
  {
    var d := NatToText(k);
    var t := "Array(" + d + ")";
    NotKeyword(t, 'A');
    assert t[..6] == "Array(" && t[6..|t| - 1] == d;
    NatRoundTrip(k);
  }

  lemma ReadsObject(k: nat)
    ensures ReadSummary("Object{" + NatToText(k) + "}") == Some(ObjShape(k))
  {
    var d := NatToText(k);
    var t := "Object{" + d + "}";
    NotKeyword(t, 'O');
    assert t[..6] != "Array(" by {
      assert t[..6][0] == 'O' && "Array("[0] == 'A';
    }
    assert t[..7] == "Object{" && t[7..|t| - 1] == d;
    NatRoundTrip(k);
  }

  /** Two values with the same summary agree on kind, scalar value and size. */
  lemma SummaryDeterminesShape(v: JsonValue, w: JsonValue)
    ensures RenderValue(v) == RenderValue(w) <==> ShapeOf(v) == ShapeOf(w)
  {
    SummaryRoundTrip(v);
    SummaryRoundTrip(w);
  }
}
