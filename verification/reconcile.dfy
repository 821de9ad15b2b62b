/** What happens to the mounted tree when a new document replaces a truthy one
    while the tree stays on screen. The root `JsonNode` instance stays mounted
    and receives the new value; its state is kept. Children are keyed by their
    entry name (`key={key}`: the index for an array element, the key for an
    object member, compared as text). An instance whose key is still present
    keeps its state and receives the new value. A new key gets a fresh
    instance, and the instances of vanished keys are unmounted. */
module Reconciliation {
  import opened JsonValues
  import opened Tree

  /** The position of the first instance named `name`, or `|ks|` if none is. */
  function FindByName(ks: seq<View>, name: string): (j: nat)
    ensures j <= |ks|
    ensures j < |ks| ==> ks[j].name == name
    ensures forall i :: 0 <= i < j ==> ks[i].name != name
  {
    if ks == [] then 0
    else if ks[0].name == name then 0
    else 1 + FindByName(ks[1..], name)
  }

  /** The instance `prev` re-rendered with the value `v`: the flag is kept;
      when the node now shows children, each reuses the previous child instance of
      the same name when there was one, and is mounted fresh otherwise. */
  function Reconcile(prev: View, v: JsonValue): (r: View)
    ensures r.value == v && r.name == prev.name && r.level == prev.level
    ensures r.expanded == prev.expanded
    decreases prev
  {
    var es := Entries(v);
    var kids :=
      if IsContainer(v) && prev.expanded then
        seq(|es|, i requires 0 <= i < |es| =>
          var j := FindByName(prev.kids, es[i].name);
          if j < |prev.kids| then Reconcile(prev.kids[j], es[i].value)
          else Mount(es[i].value, es[i].name, prev.level + 1))
      else [];
    View(v, prev.name, prev.level, prev.expanded, kids)
  }

  /** The re-rendered tree is again a correctly mounted tree for the new value. */
  lemma {:induction false} ReconcileMounted(prev: View, v: JsonValue)
    requires Mounted(prev)
    ensures Mounted(Reconcile(prev, v))
    decreases prev
  {
    var r := Reconcile(prev, v);
    if IsContainer(v) && prev.expanded {
      var es := Entries(v);
      forall i | 0 <= i < |es|
        ensures Shows(r.kids[i], es[i], prev.level + 1) && Mounted(r.kids[i])
      {
        var j := FindByName(prev.kids, es[i].name);
        if j < |prev.kids| {
          ReconcileMounted(prev.kids[j], es[i].value);
        }
      }
    }
  }

  /** A child whose name survives the edit keeps its flag. */
  lemma KeptChildKeepsFlag(prev: View, v: JsonValue, i: nat)
    requires IsContainer(v) && prev.expanded && i < |Entries(v)|
    requires FindByName(prev.kids, Entries(v)[i].name) < |prev.kids|
    ensures Reconcile(prev, v).kids[i].expanded == prev.kids[FindByName(prev.kids, Entries(v)[i].name)].expanded
  {
  }

  /** A child whose name is new starts from the depth default. */
  lemma NewChildStartsFresh(prev: View, v: JsonValue, i: nat)
    requires IsContainer(v) && prev.expanded && i < |Entries(v)|
    requires FindByName(prev.kids, Entries(v)[i].name) == |prev.kids|
    ensures Reconcile(prev, v).kids[i] == Mount(Entries(v)[i].value, Entries(v)[i].name, prev.level + 1)
  {
  }

  lemma {:induction false} FindOwnName(ks: seq<View>, es: seq<Entry>, i: nat)
    requires |ks| == |es| && i < |es| && DistinctNames(es)
    requires forall k :: 0 <= k < |ks| ==> ks[k].name == es[k].name
    ensures FindByName(ks, es[i].name) == i
    decreases i
  {
    if i > 0 {
      FindOwnName(ks[1..], es[1..], i - 1);
    }
  }

  /** Re-rendering with the very same well-formed value changes nothing. */
  lemma {:induction false} ReconcileSameValue(prev: View)
    requires Mounted(prev) && WellFormed(prev.value)
    ensures Reconcile(prev, prev.value) == prev
    decreases prev
  {
    var r := Reconcile(prev, prev.value);
    if IsContainer(prev.value) && prev.expanded {
      var es := Entries(prev.value);
      EntriesOfWellFormed(prev.value);
      forall i | 0 <= i < |es|
        ensures r.kids[i] == prev.kids[i]
      {
        FindOwnName(prev.kids, es, i);
        ReconcileSameValue(prev.kids[i]);
      }
      assert r.kids == prev.kids;
    }
  }
}
