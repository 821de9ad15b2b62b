/** `JsonNode`: the tree of mounted node instances, each with its own expand
    flag, the lines it shows, and the expand/collapse button.

    A container's children are instances that exist only while it is
    expanded: collapsing it unmounts them and forgets their flags, and
    expanding it mounts fresh ones, each starting from the depth default. */
module Tree {
  import opened JsonValues
  import opened Summary

  /** The button shown before a node's name. */
  datatype Button = NoButton | ChevronDown | ChevronRight

  /** One visible row: indentation level, name, summary and button. */
  datatype Line = Line(level: nat, name: string, summary: string, button: Button)

  /** A mounted `JsonNode` instance: the value it shows, its name, its
      `level`, its `isExpanded` state, and its mounted child instances. */
  datatype View = View(value: JsonValue, name: string, level: nat, expanded: bool, kids: seq<View>)

  /** The initial `isExpanded` of an instance created at `level`. */
  predicate DefaultExpanded(level: nat) {
    level < 2
  }

  /** Child instance `k` shows entry `e` one level down. */
  predicate Shows(k: View, e: Entry, level: nat) {
    k.value == e.value && k.name == e.name && k.level == level
  }

  /** The mounting invariant: an expanded container has one mounted child per
      entry, in entry order, one level down; every other node has none. */
  predicate Mounted(t: View)
    decreases t
  {
    if IsContainer(t.value) && t.expanded then
      var es := Entries(t.value);
      && |t.kids| == |es|
      && forall i :: 0 <= i < |t.kids| ==> Shows(t.kids[i], es[i], t.level + 1) && Mounted(t.kids[i])
    else
      t.kids == []
  }

  /** Every mounted instance still has the flag it was created with. */
  predicate Pristine(t: View)
    decreases t
  {
    && t.expanded == DefaultExpanded(t.level)
    && forall i :: 0 <= i < |t.kids| ==> Pristine(t.kids[i])
  }

  /** Creates the instance for `v` at `level`, and, when it starts expanded,
      its children. */
  function Mount(v: JsonValue, name: string, level: nat): (t: View)
    ensures t.value == v && t.name == name && t.level == level
    ensures t.expanded <==> level < 2
    ensures Mounted(t) && Pristine(t)
    decreases v, 1
  {
    View(v, name, level, DefaultExpanded(level),
         if IsContainer(v) && DefaultExpanded(level) then MountChildren(v, level + 1) else [])
  }

  /** Fresh instances for every entry of `v`, in iteration order, at `level`. */
  function MountChildren(v: JsonValue, level: nat): (ks: seq<View>)
    ensures |ks| == |Entries(v)|
    ensures forall i :: 0 <= i < |ks| ==>
              Shows(ks[i], Entries(v)[i], level) && Mounted(ks[i]) && Pristine(ks[i])
    decreases v, 0
  {
    var es := Entries(v);
    seq(|es|, i requires 0 <= i < |es| => Mount(es[i].value, es[i].name, level))
  }

  /** A mounted instance keeps its creation flags exactly when it is what
      mounting its value afresh would give. */
  lemma {:induction false} PristineIffFresh(t: View)
    requires Mounted(t)
    ensures Pristine(t) <==> t == Mount(t.value, t.name, t.level)
    decreases t
  {
    if Pristine(t) {
      if IsContainer(t.value) && t.expanded {
        var ks := MountChildren(t.value, t.level + 1);
        forall i | 0 <= i < |t.kids|
          ensures t.kids[i] == ks[i]
        {
          PristineIffFresh(t.kids[i]);
        }
        assert t.kids == ks;
      }
    }
  }

  /** The children of an expanded container are fresh exactly when each is pristine. */
  lemma FreshChildrenIffPristine(t: View)
    requires Mounted(t) && IsContainer(t.value) && t.expanded
    ensures t.kids == MountChildren(t.value, t.level + 1) <==> forall i :: 0 <= i < |t.kids| ==> Pristine(t.kids[i])
  {
    var ks := MountChildren(t.value, t.level + 1);
    if forall i :: 0 <= i < |t.kids| ==> Pristine(t.kids[i]) {
      forall i | 0 <= i < |t.kids|
        ensures t.kids[i] == ks[i]
      {
        PristineIffFresh(t.kids[i]);
      }
    }
  }

  /** The row an instance shows for itself. Scalars have no button, whatever
      their flag says. */
  function Header(t: View): (r: Line)
    ensures r.level == t.level && r.name == t.name && r.summary == RenderValue(t.value)
    ensures r.button == NoButton <==> IsScalar(t.value)
    ensures r.button == ChevronDown <==> IsContainer(t.value) && t.expanded
  {
    Line(t.level, t.name, RenderValue(t.value),
         if IsScalar(t.value) then NoButton else if t.expanded then ChevronDown else ChevronRight)
  }

  /** Every row an instance shows: its own, then, when it is an expanded
      container, the rows of each child in order. */
  function Lines(t: View): (r: seq<Line>)
    ensures |r| >= 1 && r[0] == Header(t)
    decreases t
  {
    if IsScalar(t.value) || !t.expanded then [Header(t)] else [Header(t)] + KidLines(t.kids)
  }

  function KidLines(ks: seq<View>): seq<Line>
    decreases ks
  {
    if ks == [] then [] else Lines(ks[0]) + KidLines(ks[1..])
  }

  /** A scalar shows exactly one `name: summary` row without a button; a
      collapsed container shows only its own row, with the closed chevron. */
  lemma SingleLineUnlessExpanded(t: View)
    requires IsScalar(t.value) || !t.expanded
    ensures IsScalar(t.value) ==> Lines(t) == [Line(t.level, t.name, RenderValue(t.value), NoButton)]
    ensures IsContainer(t.value) ==> Lines(t) == [Line(t.level, t.name, RenderValue(t.value), ChevronRight)]
  {
  }

  /** The rows of exactly `level`, in order. */
  function AtLevel(ls: seq<Line>, level: nat): (r: seq<Line>)
    ensures |r| <= |ls|
  {
    if ls == [] then []
    else (if ls[0].level == level then [ls[0]] else []) + AtLevel(ls[1..], level)
  }

  lemma {:induction false} AtLevelAppend(a: seq<Line>, b: seq<Line>, level: nat)
    ensures AtLevel(a + b, level) == AtLevel(a, level) + AtLevel(b, level)
    decreases |a|
  {
    if a == [] {
      assert a + b == b;
    } else {
      assert (a + b)[0] == a[0];
      assert (a + b)[1..] == a[1..] + b;
      AtLevelAppend(a[1..], b, level);
      var h := if a[0].level == level then [a[0]] else [];
      assert AtLevel(a + b, level) == h + (AtLevel(a[1..], level) + AtLevel(b, level));
      assert AtLevel(a, level) == h + AtLevel(a[1..], level);
    }
  }

  lemma {:induction false} AtLevelDeeper(ls: seq<Line>, level: nat)
    requires forall j :: 0 <= j < |ls| ==> ls[j].level > level
    ensures AtLevel(ls, level) == []
    decreases |ls|
  {
    if ls != [] {
      AtLevelDeeper(ls[1..], level);
    }
  }

  /** Every row below an instance's own is indented deeper. */
  lemma {:induction false} RowsBelowAreDeeper(t: View)
    requires Mounted(t)
    ensures forall j :: 1 <= j < |Lines(t)| ==> Lines(t)[j].level > t.level
    decreases t, 1
  {
    if IsContainer(t.value) && t.expanded {
      KidRowsAreDeeper(t.kids, t.level + 1);
    }
  }

  lemma {:induction false} KidRowsAreDeeper(ks: seq<View>, level: nat)
    requires forall i :: 0 <= i < |ks| ==> ks[i].level == level && Mounted(ks[i])
    ensures forall j :: 0 <= j < |KidLines(ks)| ==> KidLines(ks)[j].level >= level
    decreases ks, 0
  {
    if ks != [] {
      var own := Lines(ks[0]);
      RowsBelowAreDeeper(ks[0]);
      KidRowsAreDeeper(ks[1..], level);
      var rest := KidLines(ks[1..]);
      var all: seq<Line> := own + rest;
      assert KidLines(ks) == all;
      forall j | 0 <= j < |all|
        ensures all[j].level >= level
      {
        if j >= |own| {
          assert all[j] == rest[j - |own|];
        }
      }
    }
  }

  /** The own rows of a run of sibling instances, in order. */
  function Headers(ks: seq<View>): (r: seq<Line>)
    ensures |r| == |ks| && forall i :: 0 <= i < |ks| ==> r[i] == Header(ks[i])
  {
    if ks == [] then [] else [Header(ks[0])] + Headers(ks[1..])
  }

  /** The rows of a run of sibling instances that sit exactly at their level
      are the siblings' own rows, in order. */
  lemma {:induction false} KidHeadersAtLevel(ks: seq<View>, level: nat)
    requires forall i :: 0 <= i < |ks| ==> ks[i].level == level && Mounted(ks[i])
    ensures AtLevel(KidLines(ks), level) == Headers(ks)
    decreases ks
  {
    if ks != [] {
      var own := Lines(ks[0]);
      var rest := KidLines(ks[1..]);
      assert AtLevel(own, level) == [Header(ks[0])] by {
        RowsBelowAreDeeper(ks[0]);
        AtLevelAppend([own[0]], own[1..], level);
        assert own == [own[0]] + own[1..];
        AtLevelDeeper(own[1..], level);
      }
      assert AtLevel(rest, level) == Headers(ks[1..]) by {
        KidHeadersAtLevel(ks[1..], level);
      }
      AtLevelAppend(own, rest, level);
    }
  }

  /** An expanded container shows its entries as its direct rows, in iteration
      order, one level deeper: array elements under the names "0", "1", ...,
      object members under their keys, each with its own summary. */
  lemma ChildrenInOrder(t: View)
    requires Mounted(t) && IsContainer(t.value) && t.expanded
    ensures var hs := AtLevel(Lines(t), t.level + 1);
            var es := Entries(t.value);
            && |hs| == |es|
            && forall i :: 0 <= i < |es| ==>
                 hs[i].name == es[i].name && hs[i].summary == RenderValue(es[i].value)
  {
    var es := Entries(t.value);
    DirectRowsAreHeaders(t);
    forall i | 0 <= i < |es|
      ensures Header(t.kids[i]).name == es[i].name
      ensures Header(t.kids[i]).summary == RenderValue(es[i].value)
    {
      assert Shows(t.kids[i], es[i], t.level + 1);
    }
  }

  lemma DirectRowsAreHeaders(t: View)
    requires Mounted(t) && IsContainer(t.value) && t.expanded
    ensures AtLevel(Lines(t), t.level + 1) == Headers(t.kids)
  {
    var level := t.level + 1;
    assert Lines(t) == [Header(t)] + KidLines(t.kids);
    AtLevelAppend([Header(t)], KidLines(t.kids), level);
    assert AtLevel([Header(t)], level) == [] by {
      assert [Header(t)][1..] == [];
    }
    KidHeadersAtLevel(t.kids, level);
  }

  /** A child-index path leads from an instance to a mounted descendant. */
  predicate ValidPath(t: View, p: seq<nat>)
    decreases |p|
  {
    p == [] || (p[0] < |t.kids| && ValidPath(t.kids[p[0]], p[1..]))
  }

  function At(t: View, p: seq<nat>): View
    requires ValidPath(t, p)
    decreases |p|
  {
    if p == [] then t else At(t.kids[p[0]], p[1..])
  }

  /** Puts `n` in place of the instance at `p`. */
  function ReplaceAt(t: View, p: seq<nat>, n: View): View
    requires ValidPath(t, p)
    decreases |p|
  {
    if p == [] then n else t.(kids := t.kids[p[0] := ReplaceAt(t.kids[p[0]], p[1..], n)])
  }

  predicate IsPrefix(a: seq<nat>, b: seq<nat>) {
    |a| <= |b| && b[..|a|] == a
  }

  lemma PrefixStep(a: seq<nat>, b: seq<nat>)
    requires a != [] && b != [] && a[0] == b[0]
    ensures IsPrefix(a, b) <==> IsPrefix(a[1..], b[1..])
  {
    if IsPrefix(a[1..], b[1..]) {
      assert b[..|a|] == [b[0]] + b[1..][..|a| - 1];
      assert a == [a[0]] + a[1..];
    }
  }

  /** The button's `setIsExpanded(!isExpanded)`: collapsing unmounts the
      children, expanding mounts fresh ones. A scalar has no button. */
  function Flip(t: View): (r: View)
    ensures r.value == t.value && r.name == t.name && r.level == t.level
    ensures IsContainer(t.value) ==> r.expanded == !t.expanded
    ensures IsScalar(t.value) ==> r == t
  {
    if IsScalar(t.value) then t
    else if t.expanded then t.(expanded := false, kids := [])
    else t.(expanded := true, kids := MountChildren(t.value, t.level + 1))
  }

  /** A click on the button of the instance at `p`; a path to no mounted
      instance leaves the tree as it is. */
  function Toggle(t: View, p: seq<nat>): (r: View)
    ensures r.value == t.value && r.name == t.name && r.level == t.level
    ensures p != [] ==> |r.kids| == |t.kids|
    ensures !ValidPath(t, p) ==> r == t
    decreases |p|
  {
    if p == [] then Flip(t)
    else if p[0] < |t.kids| then t.(kids := t.kids[p[0] := Toggle(t.kids[p[0]], p[1..])])
    else t
  }

  lemma {:induction false} ToggleIsFlipAt(t: View, p: seq<nat>)
    ensures ValidPath(t, p) ==> Toggle(t, p) == ReplaceAt(t, p, Flip(At(t, p)))
    ensures !ValidPath(t, p) ==> Toggle(t, p) == t
    decreases |p|
  {
    if p != [] && p[0] < |t.kids| {
      ToggleIsFlipAt(t.kids[p[0]], p[1..]);
      if !ValidPath(t, p) {
        assert t.kids[p[0] := t.kids[p[0]]] == t.kids;
      }
    }
  }

  lemma {:induction false} ReplaceAtFacts(t: View, p: seq<nat>, n: View, m: View)
    requires ValidPath(t, p)
    ensures ValidPath(ReplaceAt(t, p, n), p) && At(ReplaceAt(t, p, n), p) == n
    ensures ReplaceAt(ReplaceAt(t, p, n), p, m) == ReplaceAt(t, p, m)
    ensures ReplaceAt(t, p, n) == t <==> n == At(t, p)
    decreases |p|
  {
    if p != [] {
      ReplaceAtFacts(t.kids[p[0]], p[1..], n, m);
      if n == At(t, p) {
        assert t.kids[p[0] := t.kids[p[0]]] == t.kids;
      }
      if ReplaceAt(t, p, n) == t {
        assert ReplaceAt(t, p, n).kids[p[0]] == t.kids[p[0]];
      }
    }
  }

  lemma {:induction false} MountedAt(t: View, p: seq<nat>)
    requires Mounted(t) && ValidPath(t, p)
    ensures Mounted(At(t, p))
    decreases |p|
  {
    if p != [] {
      MountedAt(t.kids[p[0]], p[1..]);
    }
  }

  /** Replacing a mounted instance by a mounted one for the same value, name
      and level keeps the whole tree mounted. */
  lemma {:induction false} ReplaceKeepsMounted(t: View, p: seq<nat>, n: View)
    requires Mounted(t) && ValidPath(t, p) && Mounted(n)
    requires n.value == At(t, p).value && n.name == At(t, p).name && n.level == At(t, p).level
    ensures Mounted(ReplaceAt(t, p, n))
    decreases |p|
  {
    if p != [] {
      ReplaceKeepsMounted(t.kids[p[0]], p[1..], n);
      var r := ReplaceAt(t, p, n);
      forall i | 0 <= i < |r.kids|
        ensures Shows(r.kids[i], Entries(t.value)[i], t.level + 1) && Mounted(r.kids[i])
      {
        if i != p[0] {
          assert r.kids[i] == t.kids[i];
        }
      }
    }
  }

  /** A click keeps the tree mounted and flips the clicked container's flag;
      clicking a scalar, which has no button, changes nothing. */
  lemma ToggleFlipsTarget(t: View, p: seq<nat>)
    requires Mounted(t) && ValidPath(t, p)
    ensures Mounted(Toggle(t, p))
    ensures ValidPath(Toggle(t, p), p)
    ensures IsContainer(At(t, p).value) ==> At(Toggle(t, p), p).expanded == !At(t, p).expanded
    ensures IsScalar(At(t, p).value) ==> Toggle(t, p) == t
  {
    var n := At(t, p);
    ToggleIsFlipAt(t, p);
    ReplaceAtFacts(t, p, Flip(n), n);
    MountedAt(t, p);
    ReplaceKeepsMounted(t, p, Flip(n));
  }

  /** Replacing the instance at `p` leaves every instance outside the subtree
      at `p` in place: ancestors keep their value, name, level and flag, and
      instances on other branches are untouched. */
  lemma {:induction false} ReplaceIsLocal(t: View, p: seq<nat>, n: View, q: seq<nat>)
    requires ValidPath(t, p) && ValidPath(t, q) && !IsPrefix(p, q)
    ensures ValidPath(ReplaceAt(t, p, n), q)
    ensures var a, b := At(ReplaceAt(t, p, n), q), At(t, q);
            a.value == b.value && a.name == b.name && a.level == b.level && a.expanded == b.expanded
    ensures !IsPrefix(q, p) ==> At(ReplaceAt(t, p, n), q) == At(t, q)
    decreases |q|
  {
    if q != [] {
      assert p != [];
      var r := ReplaceAt(t, p, n);
      if p[0] == q[0] {
        PrefixStep(p, q);
        PrefixStep(q, p);
        ReplaceIsLocal(t.kids[p[0]], p[1..], n, q[1..]);
      } else {
        assert r.kids[q[0]] == t.kids[q[0]];
      }
    }
  }

  /** A click changes no flag outside the clicked subtree: no ancestor's and
      no sibling branch's. */
  lemma ToggleIsLocal(t: View, p: seq<nat>, q: seq<nat>)
    requires ValidPath(t, p) && ValidPath(t, q) && !IsPrefix(p, q)
    ensures ValidPath(Toggle(t, p), q)
    ensures At(Toggle(t, p), q).expanded == At(t, q).expanded
    ensures !IsPrefix(q, p) ==> At(Toggle(t, p), q) == At(t, q)
  {
    ToggleIsFlipAt(t, p);
    ReplaceIsLocal(t, p, Flip(At(t, p)), q);
  }

  /** Clicking the same button twice restores the tree exactly when the
      instance was collapsed, or each of its children still had its creation
      flag throughout: collapsing forgets the children's flags. */
  lemma ToggleTwice(t: View, p: seq<nat>)
    requires Mounted(t) && ValidPath(t, p)
    ensures Toggle(Toggle(t, p), p) == t <==>
            !At(t, p).expanded || forall i :: 0 <= i < |At(t, p).kids| ==> Pristine(At(t, p).kids[i])
  {
    var n := At(t, p);
    ToggleIsFlipAt(t, p);
    ReplaceAtFacts(t, p, Flip(n), Flip(Flip(n)));
    ToggleIsFlipAt(ReplaceAt(t, p, Flip(n)), p);
    ReplaceAtFacts(t, p, Flip(Flip(n)), n);
    MountedAt(t, p);
    if IsContainer(n.value) && n.expanded {
      FreshChildrenIffPristine(n);
      assert Flip(Flip(n)) == n <==> n.kids == MountChildren(n.value, n.level + 1);
    }
  }

  /** `{"a": {"b": {"c": 1}}}`: expanding "b" and then collapsing and
      re-expanding the root brings "b" back collapsed, so the row of "c"
      is no longer shown. */
  lemma ToggleTwiceForgetsDescendants()
    ensures var doc := Obj([Member("a", Obj([Member("b", Obj([Member("c", Num(1))]))]))]);
            var clicked := Toggle(Mount(doc, "root", 0), [0, 0]);
            && Mounted(clicked)
            && At(clicked, [0, 0]).expanded
            && Toggle(Toggle(clicked, []), []) != clicked
            && |Lines(clicked)| == 4
            && |Lines(Toggle(Toggle(clicked, []), []))| == 3
  {
    ForgottenRows();
    var doc := Obj([Member("a", Obj([Member("b", Obj([Member("c", Num(1))]))]))]);
    var t := Mount(doc, "root", 0);
    assert t.kids[0].kids[0].level == 2;
    assert !t.kids[0].kids[0].expanded;
    ToggleFlipsTarget(t, [0, 0]);
    var clicked := Toggle(t, [0, 0]);
    ToggleTwice(clicked, []);
    assert !Pristine(clicked.kids[0]) by {
      assert clicked.kids[0].kids[0] == At(clicked, [0, 0]);
      assert !Pristine(clicked.kids[0].kids[0]);
    }
  }

  /** The rows of the example above, before and after the double click. */
  lemma ForgottenRows()
    ensures var doc := Obj([Member("a", Obj([Member("b", Obj([Member("c", Num(1))]))]))]);
            var clicked := Toggle(Mount(doc, "root", 0), [0, 0]);
            && |Lines(clicked)| == 4
            && |Lines(Toggle(Toggle(clicked, []), []))| == 3
  {
    var doc := Obj([Member("a", Obj([Member("b", Obj([Member("c", Num(1))]))]))]);
    var t := Mount(doc, "root", 0);
    var clicked := Toggle(t, [0, 0]);
    var cb := t.kids[0].kids[0];
    assert cb.level == 2 && !cb.expanded && IsContainer(cb.value);
    assert |t.kids| == 1 && |t.kids[0].kids| == 1;
    var ca := t.kids[0].(kids := [Flip(cb)]);
    assert [0, 0][1..] == [0] && [0][1..] == [];
    assert Toggle(cb, []) == Flip(cb);
    assert Toggle(t.kids[0], [0]) == ca;
    assert clicked == t.(kids := [ca]);
    var cc := Flip(cb).kids[0];
    assert |Flip(cb).kids| == 1 && IsScalar(cc.value);
    assert KidLines(Flip(cb).kids) == Lines(cc) == [Header(cc)];
    assert |Lines(Flip(cb))| == 2;
    assert KidLines(ca.kids) == Lines(Flip(cb));
    assert |Lines(ca)| == 3;
    assert KidLines(clicked.kids) == Lines(ca);
    var again := Toggle(Toggle(clicked, []), []);
    assert again == Flip(Flip(clicked));
    assert again == t;
    assert Lines(cb) == [Header(cb)];
    assert KidLines(t.kids[0].kids) == Lines(cb);
    assert KidLines(t.kids) == Lines(t.kids[0]);
  }
}
