/**
 * The tri-state check boxes of the destination tree in the Smart Scan dialog:
 * `update_parent_states` recomputes a folder's state from its children's and
 * then does the same for the folder's parent, up to the root.
 */
module CheckStates {
  import opened Wrappers

  /** `Qt.CheckState`. A node whose state was never set is read as neither checked nor partially checked, like `Unchecked`. */
  datatype CheckState = Unchecked | PartiallyChecked | Checked

  /**
   * The state the counting loop gives a parent: `Checked` when every child is
   * checked, `PartiallyChecked` when at least one is checked or partially
   * checked, `Unchecked` otherwise.
   */
  function ParentState(children: seq<CheckState>): CheckState {
    var checkedCount := multiset(children)[Checked];
    var partialCount := multiset(children)[PartiallyChecked];
    if checkedCount == |children| then Checked
    else if checkedCount > 0 || partialCount > 0 then PartiallyChecked
    else Unchecked
  }

  /** A value occurs as often as a sequence is long exactly when it is every element. */
  lemma {:induction false} CountAll(s: seq<CheckState>, x: CheckState)
    ensures multiset(s)[x] == |s| <==> forall i :: 0 <= i < |s| ==> s[i] == x
  {
    if s != [] {
      var n := |s| - 1;
      CountAll(s[..n], x);
      assert s == s[..n] + [s[n]];
      assert multiset(s) == multiset(s[..n]) + multiset{s[n]};
      assert multiset(s[..n])[x] <= |s[..n]| by {
        assert |multiset(s[..n])| == n;
        MultisetCountBound(multiset(s[..n]), x);
      }
      if forall i :: 0 <= i < |s| ==> s[i] == x {
        assert forall i :: 0 <= i < n ==> s[..n][i] == x;
      }
    }
  }

  lemma MultisetCountBound(m: multiset<CheckState>, x: CheckState)
    ensures m[x] <= |m|
  {
    if m[x] > 0 {
      var r := m[x := 0];
      assert m == r + multiset{}[x := m[x]];
    }
  }

  /**
   * What the parent's state means: `Checked` exactly when every child is
   * checked (so also a parent without children), `PartiallyChecked` exactly
   * when some child is not checked and some child is checked or partially
   * checked, and `Unchecked` exactly when there are children and all are unchecked.
   */
  lemma ParentStateMeaning(children: seq<CheckState>)
    ensures ParentState(children) == Checked <==> forall i :: 0 <= i < |children| ==> children[i] == Checked
    ensures ParentState(children) == PartiallyChecked <==>
      (exists i :: 0 <= i < |children| && children[i] != Checked) &&
      (exists i :: 0 <= i < |children| && children[i] != Unchecked)
    ensures ParentState(children) == Unchecked <==>
      |children| > 0 && forall i :: 0 <= i < |children| ==> children[i] == Unchecked
  {
    CountAll(children, Checked);
    assert multiset(children)[Checked] > 0 <==> Checked in children;
    assert multiset(children)[PartiallyChecked] > 0 <==> PartiallyChecked in children;
  }

  /** The counting loop of `update_parent_states` over the children's states. */
  method AggregateState(children: seq<CheckState>) returns (state: CheckState)
    ensures state == ParentState(children)
  {
    var checkedCount, partialCount := 0, 0;
    for i := 0 to |children|
      invariant checkedCount == multiset(children[..i])[Checked]
      invariant partialCount == multiset(children[..i])[PartiallyChecked]
    {
      assert children[..i + 1] == children[..i] + [children[i]];
      if children[i] == Checked {
        checkedCount := checkedCount + 1;
      } else if children[i] == PartiallyChecked {
        partialCount := partialCount + 1;
      }
    }
    assert children[..|children|] == children;
    state := Unchecked;
    if checkedCount == |children| {
      state := Checked;
    } else if checkedCount > 0 || partialCount > 0 {
      state := PartiallyChecked;
    }
  }

  /** The state read for node `n`: an unset one reads as `Unchecked`. */
  function StateIn(states: map<nat, CheckState>, n: nat): CheckState {
    if n in states then states[n] else Unchecked
  }

  /**
   * The shape of a tree: every node's parent has a smaller number, and every
   * node listed among `p`'s children has `p` as its parent.
   */
  ghost predicate TreeShape(parentOf: map<nat, nat>, children: map<nat, seq<nat>>) {
    && (forall c :: c in parentOf ==> parentOf[c] < c)
    && (forall p, k :: p in children && 0 <= k < |children[p]| ==>
          children[p][k] in parentOf && parentOf[children[p][k]] == p)
  }

  /**
   * A tree of nodes (folders and files) with their check states. A node's
   * children are listed in `children`, and every child's `parentOf` entry is
   * that node, which has a smaller number; a node without an entry in
   * `parentOf` is a top node, whose parent index is not valid.
   */
  class CheckTree {
    var states: map<nat, CheckState>
    const parentOf: map<nat, nat>
    const children: map<nat, seq<nat>>

    ghost predicate Valid() {
      TreeShape(parentOf, children)
    }

    /** A tree over a well-formed parent relation, with the given check states. */
    constructor(parentOf: map<nat, nat>, children: map<nat, seq<nat>>, states: map<nat, CheckState>)
      requires TreeShape(parentOf, children)
      ensures Valid()
      ensures this.parentOf == parentOf && this.children == children && this.states == states
    {
      this.parentOf := parentOf;
      this.children := children;
      this.states := states;
    }

    /** The children of `p` in row order; a node without an entry has none. */
    function ChildrenOf(p: nat): seq<nat> {
      if p in children then children[p] else []
    }

    /** The states of `p`'s children, in row order. */
    function ChildStates(p: nat): (r: seq<CheckState>)
      reads this
      ensures |r| == |ChildrenOf(p)|
      ensures forall k :: 0 <= k < |r| ==> r[k] == StateIn(states, ChildrenOf(p)[k])
    {
      var cs := ChildrenOf(p);
      var st := states;
      seq(|cs|, k requires 0 <= k < |cs| => StateIn(st, cs[k]))
    }

    /** `p` and all its ancestors: the nodes `update_parent_states(p)` visits. */
    ghost function Ancestry(p: nat): (r: set<nat>)
      requires Valid()
      ensures p in r && forall a :: a in r ==> a <= p
      decreases p
    {
      {p} + if p in parentOf then Ancestry(parentOf[p]) else {}
    }

    /** A node's state agrees with its children's. */
    ghost predicate Consistent(p: nat)
      reads this
    {
      p in states && states[p] == ParentState(ChildStates(p))
    }

    /**
     * `update_parent_states(index)`: every node from `index` up to the top
     * gets the state its children give it, in that order; an invalid index
     * (`None`) does nothing. No other node's state changes, and afterwards
     * every node visited agrees with its children.
     */
    method UpdateParentStates(index: Option<nat>)
      requires Valid()
      modifies this
      ensures index.None? ==> states == old(states)
      ensures index.Some? ==> states.Keys == old(states).Keys + Ancestry(index.value)
      ensures index.Some? ==> forall n :: n in old(states) && n !in Ancestry(index.value) ==> states[n] == old(states)[n]
      ensures index.Some? ==> forall a :: a in Ancestry(index.value) ==> Consistent(a)
      decreases if index.Some? then index.value + 1 else 0
    {
      if index.None? {
        return;
      }
      var p := index.value;
      var childStates := ChildStates(p);
      var state := AggregateState(childStates);
      states := states[p := state];
      assert forall k :: 0 <= k < |ChildrenOf(p)| ==> ChildrenOf(p)[k] > p;
      assert ChildStates(p) == childStates;
      if p in parentOf {
        ghost var before := states;
        UpdateParentStates(Some(parentOf[p]));
        assert forall c :: c >= p ==> StateIn(states, c) == StateIn(before, c);
        assert ChildStates(p) == childStates;
      }
    }
  }
}
