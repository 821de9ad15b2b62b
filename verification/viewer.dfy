/** The `JsonViewer` component: the text box, the parsed document, the error
    message and the mounted tree, how an edit moves between them, and what
    the page shows in each state. The parser is a parameter. */
module Viewer {
  import opened Options
  import opened JsonValues
  import opened Tree
  import opened Reconciliation
  import Stats
  import Decimal

  // `String.prototype.trim`

  /** ECMAScript WhiteSpace and LineTerminator code points, the ones `trim` removes. */
  predicate IsJsSpace(c: char) {
    || c == '\U{9}' || c == '\U{B}' || c == '\U{C}' || c == ' ' || c == '\U{A0}' || c == '\U{FEFF}'
    || c == '\U{1680}' || ('\U{2000}' <= c <= '\U{200A}') || c == '\U{202F}' || c == '\U{205F}'
    || c == '\U{3000}'
    || c == '\n' || c == '\r' || c == '\U{2028}' || c == '\U{2029}'
  }

  predicate AllSpace(s: string) {
    forall i :: 0 <= i < |s| ==> IsJsSpace(s[i])
  }

  /** Drops leading white space: the result is the suffix of `s` that starts
      at its first other character. */
  function TrimStart(s: string): (r: string)
    ensures |r| <= |s| && r == s[|s| - |r|..]
    ensures AllSpace(s[..|s| - |r|])
    ensures r == [] || !IsJsSpace(r[0])
  {
    if s != [] && IsJsSpace(s[0]) then
      var r := TrimStart(s[1..]);
      assert s[..|s| - |r|] == [s[0]] + s[1..][..|s| - 1 - |r|];
      r
    else
      s
  }

  /** Drops trailing white space: the result is the prefix of `s` that ends at
      its last other character. */
  function TrimEnd(s: string): (r: string)
    ensures |r| <= |s| && r == s[..|r|]
    ensures AllSpace(s[|r|..])
    ensures r == [] || !IsJsSpace(r[|r| - 1])
  {
    if s != [] && IsJsSpace(s[|s| - 1]) then
      var r := TrimEnd(s[..|s| - 1]);
      assert s[|r|..] == s[..|s| - 1][|r|..] + [s[|s| - 1]];
      r
    else
      s
  }

  /** `trim`: drops white space at both ends, and only there. */
  function Trim(s: string): (r: string)
    ensures |r| <= |s|
    ensures r == [] || (!IsJsSpace(r[0]) && !IsJsSpace(r[|r| - 1]))
  {
    TrimEnd(TrimStart(s))
  }

  /** `value.trim() === ''` holds exactly for text made only of white space. */
  lemma TrimmedEmptyIffBlank(s: string)
    ensures Trim(s) == "" <==> AllSpace(s)
  {
    var t := TrimStart(s);
    if Trim(s) == "" {
      assert AllSpace(t) by {
        assert t[0..] == t;
      }
      assert t == [];
      assert s[..|s|] == s;
    }
    if AllSpace(s) {
      SuffixOfBlank(s, |s| - |t|);
    }
  }

  lemma SuffixOfBlank(s: string, i: nat)
    requires AllSpace(s) && i <= |s|
    ensures AllSpace(s[i..])
  {
    forall k | 0 <= k < |s| - i
      ensures IsJsSpace(s[i..][k])
    {
      assert s[i..][k] == s[i + k];
    }
  }

  // The component's state

  /** What the parser returns for a text: a value, or the message it threw. */
  datatype ParseResult = Parsed(value: JsonValue) | Rejected(message: string)

  /** `jsonInput`, `parsedJson` (`null` standing for "nothing parsed" as well
      as for a parsed `null`), `error`, and the root `JsonNode` instance while
      the tree is on screen. */
  datatype Viewer = Viewer(input: string, parsed: JsonValue, error: string, tree: Option<View>)

  const RootName: string := "root"

  const ErrorPrefix: string := "Invalid JSON: "

  const Initial: Viewer := Viewer("", Null, "", None)

  /** The tree slot after `parsedJson` becomes `v`: the placeholder for a falsy
      value; otherwise the instance already on screen re-rendered with `v`, or
      a fresh root when the placeholder was showing. */
  function ShowTree(current: Option<View>, v: JsonValue): (r: Option<View>)
    ensures r.Some? <==> Truthy(v)
    ensures r.Some? ==> r.value.value == v
    ensures current.None? && Truthy(v) ==> r == Some(Mount(v, RootName, 0))
    ensures current.Some? && Truthy(v) ==>
              r.value.name == current.value.name && r.value.level == current.value.level
              && r.value.expanded == current.value.expanded
  {
    if !Truthy(v) then None
    else match current
      case Some(t) => Some(Reconcile(t, v))
      case None => Some(Mount(v, RootName, 0))
  }

  /** `handleJsonChange`: blank text clears document and error; otherwise the
      parser either yields the new document and clears the error, or throws
      and its message becomes the error while the document is cleared. */
  function HandleJsonChange(s: Viewer, text: string, parse: string -> ParseResult): (r: Viewer)
    ensures r.input == text
    ensures AllSpace(text) ==> r.parsed == Null && r.error == "" && r.tree == None
    ensures !AllSpace(text) && parse(text).Rejected? ==>
              r.parsed == Null && r.error == ErrorPrefix + parse(text).message && r.tree == None
    ensures !AllSpace(text) && parse(text).Parsed? ==>
              r.parsed == parse(text).value && r.error == "" && (r.tree.Some? <==> Truthy(r.parsed))
  {
    TrimmedEmptyIffBlank(text);
    if Trim(text) == "" then Viewer(text, Null, "", None)
    else match parse(text)
      case Parsed(v) => Viewer(text, v, "", ShowTree(s.tree, v))
      case Rejected(m) => Viewer(text, Null, ErrorPrefix + m, None)
  }

  /** `clearJson`. */
  function ClearJson(s: Viewer): (r: Viewer)
    ensures r.input == "" && r.parsed == Null && r.error == "" && r.tree == None
  {
    Initial
  }

  /** `formatJson` and `minifyJson`: when the document is truthy, the text box
      receives its serialization; nothing is re-parsed. */
  function Reserialize(s: Viewer, serialize: JsonValue -> string): (r: Viewer)
    ensures r.parsed == s.parsed && r.error == s.error && r.tree == s.tree
    ensures Truthy(s.parsed) ==> r.input == serialize(s.parsed)
    ensures !Truthy(s.parsed) ==> r == s
  {
    if Truthy(s.parsed) then s.(input := serialize(s.parsed)) else s
  }

  /** A click on the button of the instance at path `p` of the tree on screen. */
  function ToggleNode(s: Viewer, p: seq<nat>): Viewer {
    match s.tree
    case Some(t) => s.(tree := Some(Toggle(t, p)))
    case None => s
  }

  /** The state invariant: the tree is on screen exactly while the document is
      truthy, and then it is a mounted root for that document; an error
      message comes only with the document cleared. */
  predicate Consistent(s: Viewer) {
    && (s.tree.Some? <==> Truthy(s.parsed))
    && (s.tree.Some? ==>
          var t := s.tree.value;
          t.value == s.parsed && t.name == RootName && t.level == 0 && Mounted(t))
    && (s.error != "" ==> s.parsed == Null)
  }

  lemma InitialConsistent()
    ensures Consistent(Initial)
  {
  }

  lemma HandleJsonChangeConsistent(s: Viewer, text: string, parse: string -> ParseResult)
    requires Consistent(s)
    ensures Consistent(HandleJsonChange(s, text, parse))
  {
    TrimmedEmptyIffBlank(text);
    if s.tree.Some? && parse(text).Parsed? {
      ReconcileMounted(s.tree.value, parse(text).value);
    }
  }

  lemma ReserializeConsistent(s: Viewer, serialize: JsonValue -> string)
    requires Consistent(s)
    ensures Consistent(Reserialize(s, serialize))
  {
  }

  lemma ToggleNodeConsistent(s: Viewer, p: seq<nat>)
    requires Consistent(s)
    ensures Consistent(ToggleNode(s, p))
  {
    if s.tree.Some? {
      var t := s.tree.value;
      ToggleIsFlipAt(t, p);
      if ValidPath(t, p) {
        ToggleFlipsTarget(t, p);
        if p == [] {
          assert Toggle(t, p) == Flip(t);
        } else {
          assert Toggle(t, p).value == t.value;
        }
      }
    }
  }

  // What the page shows

  /** What a JSX child `{v && panel}` renders: the panel for a truthy `v`;
      nothing for `null`, `false` and `""`; and for the number 0, which
      React renders as text like any number, the text `0`. */
  datatype Guarded<T> = Nothing | Shown(content: T) | StrayText(text: string)

  /** `{v && panel}` for a document `v`, as the page writes it. */
  function AndGuard<T>(v: JsonValue, panel: T): (r: Guarded<T>)
    ensures r.Shown? <==> Truthy(v)
    ensures r.Shown? ==> r.content == panel
    ensures r.StrayText? <==> v == Num(0)
    ensures r.StrayText? ==> r.text == Decimal.IntToText(v.n)
  {
    if Truthy(v) then Shown(panel) else if v == Num(0) then StrayText("0") else Nothing
  }

  /** `{v ? panel : null}`: the panel for a truthy `v`, nothing otherwise. */
  function ShowIf<T>(v: JsonValue, panel: T): (r: Guarded<T>)
    ensures r.Shown? <==> Truthy(v)
    ensures r.Shown? ==> r.content == panel
    ensures !r.StrayText?
  {
    if Truthy(v) then Shown(panel) else Nothing
  }

  /** The visible parts of the page: the error box, the format/minify/copy
      buttons, the tree (or the placeholder when absent) and the statistics. */
  datatype Screen = Screen(errorBox: Option<string>, controls: Guarded<()>,
                           treeRows: Option<seq<Line>>, stats: Guarded<Stats.Stats>)

  /** The page as written: `{error && ...}`, `{parsedJson && buttons}`,
      `{parsedJson ? tree : placeholder}` and `{parsedJson && stats}`. */
  function Render(s: Viewer): (r: Screen)
    ensures r.errorBox.Some? <==> s.error != ""
    ensures r.controls.StrayText? <==> s.parsed == Num(0)
    ensures r.stats.StrayText? <==> s.parsed == Num(0)
  {
    Screen(if s.error != "" then Some(s.error) else None,
           AndGuard(s.parsed, ()),
           if Truthy(s.parsed) && s.tree.Some? then Some(Lines(s.tree.value)) else None,
           AndGuard(s.parsed, Stats.GetStats(s.parsed)))
  }

  /** The page the guards evidently mean: the buttons and the statistics
      appear for a truthy document and nothing takes their place otherwise. */
  function IntendedRender(s: Viewer): (r: Screen)
    ensures !r.controls.StrayText? && !r.stats.StrayText?
  {
    Screen(if s.error != "" then Some(s.error) else None,
           ShowIf(s.parsed, ()),
           if Truthy(s.parsed) && s.tree.Some? then Some(Lines(s.tree.value)) else None,
           ShowIf(s.parsed, Stats.GetStats(s.parsed)))
  }

  /** The page as written and the intended page differ exactly for the
      document `0`. */
  lemma IntendedRenderDiffersOnlyAtZero(s: Viewer)
    ensures IntendedRender(s) == Render(s) <==> s.parsed != Num(0)
  {
    if s.parsed == Num(0) {
      assert Render(s).stats.StrayText?;
    }
  }

  /** The tree, the statistics and the buttons appear together, exactly when
      the document is truthy; they never appear beside an error. */
  lemma PanelsAppearTogether(s: Viewer)
    requires Consistent(s)
    ensures Render(s).treeRows.Some? <==> Truthy(s.parsed)
    ensures Render(s).stats.Shown? <==> Truthy(s.parsed)
    ensures Render(s).controls.Shown? <==> Truthy(s.parsed)
    ensures Render(s).stats.Shown? ==> Render(s).stats.content == Stats.GetStats(s.parsed)
    ensures Render(s).errorBox.Some? ==>
              Render(s).controls == Nothing && Render(s).treeRows.None? && Render(s).stats == Nothing
    ensures Render(s).treeRows.Some? ==> Render(s).treeRows.value[0].name == RootName
  {
  }

  /** The falsy documents are exactly `null`, `false`, `0` and `""`. */
  lemma FalsyDocuments(v: JsonValue)
    ensures !Truthy(v) <==> v == Null || v == Bool(false) || v == Num(0) || v == Str("")
  {
  }

  /** A text that parses to `null`, `false` or `""` shows neither an error
      nor a tree: the page looks as if nothing had been entered. A text that
      parses to `0` shows the placeholder too, but the `&&` guards put the
      text `0` where the buttons and the statistics would be. */
  lemma FalsyDocumentShowsPlaceholder(s: Viewer, text: string, parse: string -> ParseResult)
    requires !AllSpace(text) && parse(text).Parsed? && !Truthy(parse(text).value)
    ensures parse(text).value != Num(0) ==>
              Render(HandleJsonChange(s, text, parse)) == Render(HandleJsonChange(s, "", parse))
    ensures parse(text).value != Num(0) ==>
              Render(HandleJsonChange(s, text, parse)) == Screen(None, Nothing, None, Nothing)
    ensures parse(text).value == Num(0) ==>
              Render(HandleJsonChange(s, text, parse)) == Screen(None, StrayText("0"), None, StrayText("0"))
  {
  }

  /** The text `0` is a valid document, yet its page is not the empty-input
      page: it shows `0` twice. */
  lemma ZeroDocumentShowsStrayText(s: Viewer, parse: string -> ParseResult)
    requires parse("0") == Parsed(Num(0))
    ensures Render(HandleJsonChange(s, "0", parse)) != Render(HandleJsonChange(s, "", parse))
    ensures Render(HandleJsonChange(s, "0", parse)).stats == StrayText("0")
  {
    assert !IsJsSpace("0"[0]);
  }

  /** With the intended guards every falsy document, `0` included, shows the
      same page as empty input. */
  lemma IntendedFalsyDocumentShowsPlaceholder(s: Viewer, text: string, parse: string -> ParseResult)
    requires !AllSpace(text) && parse(text).Parsed? && !Truthy(parse(text).value)
    ensures IntendedRender(HandleJsonChange(s, text, parse)) == IntendedRender(HandleJsonChange(s, "", parse))
    ensures IntendedRender(HandleJsonChange(s, text, parse)) == Screen(None, Nothing, None, Nothing)
  {
  }

  /** A rejected text shows `Invalid JSON: ` and the parser's message, and no tree. */
  lemma RejectedTextShowsError(s: Viewer, text: string, parse: string -> ParseResult)
    requires !AllSpace(text) && parse(text).Rejected?
    ensures Render(HandleJsonChange(s, text, parse))
            == Screen(Some(ErrorPrefix + parse(text).message), Nothing, None, Nothing)
    ensures IntendedRender(HandleJsonChange(s, text, parse)) == Render(HandleJsonChange(s, text, parse))
  {
  }

  /** Format and minify change nothing on the page but the text box. */
  lemma ReserializeKeepsScreen(s: Viewer, serialize: JsonValue -> string)
    ensures Render(Reserialize(s, serialize)) == Render(s)
    ensures IntendedRender(Reserialize(s, serialize)) == IntendedRender(s)
  {
  }

  /** An edit whose text still parses to the same well-formed document keeps
      every expand flag on screen. */
  lemma SameDocumentKeepsTree(s: Viewer, text: string, parse: string -> ParseResult)
    requires Consistent(s) && WellFormed(s.parsed)
    requires !AllSpace(text) && parse(text) == Parsed(s.parsed)
    ensures HandleJsonChange(s, text, parse) == s.(input := text, error := "")
  {
    if s.tree.Some? {
      ReconcileSameValue(s.tree.value);
    }
  }

  /** After the placeholder (nothing entered, an error, or a falsy document),
      a truthy document gets a fresh tree with the default expand flags. */
  lemma FreshTreeAfterPlaceholder(s: Viewer, text: string, parse: string -> ParseResult)
    requires Consistent(s) && !Truthy(s.parsed)
    requires !AllSpace(text) && parse(text).Parsed? && Truthy(parse(text).value)
    ensures HandleJsonChange(s, text, parse).tree == Some(Mount(parse(text).value, RootName, 0))
  {
  }
}
