/** `find_first_stack` (`find_first_roleset` in the standalone binary): a depth-first
    search with an explicit double-ended queue. The node at the front is popped
    and returned if it carries the role; otherwise its children whose summary holds
    the role are pushed to the front in reverse, so they are popped left to right. */
module StackSearch {
  import opened RoleSets
  import opened ArenaTree
  import opened Index
  import opened Queries
  import opened Cursor

  /** The children of `n` from position `i` on whose summary holds `r`, in order. */
  function Qualifying(a: Arena, rs: seq<RoleSet>, r: Role, n: Id, i: nat): (q: seq<Id>)
    requires Ctx(a, rs) && n < |a| && i <= |a[n].children|
    ensures forall x :: x in q ==> x in a[n].children[i..] && r in rs[x]
    ensures InArena(a, q)
    decreases |a[n].children| - i
  {
    if i == |a[n].children| then []
    else
      var c := a[n].children[i];
      var rest := Qualifying(a, rs, r, n, i + 1);
      assert forall x :: x in a[n].children[i + 1..] ==> x in a[n].children[i..];
      (if r in rs[c] then [c] else []) + rest
  }

  /** The pruned preorders of the subtrees rooted at the stack entries, front first:
      everything the search still has to visit. */
  function PrunedForest(a: Arena, rs: seq<RoleSet>, r: Role, xs: seq<Id>): (s: seq<Id>)
    requires Ctx(a, rs) && InArena(a, xs)
    ensures InArena(a, s)
  {
    if xs == [] then []
    else
      var d := PrunedDesc(a, rs, r, xs[0]);
      MembersInArena(a, d);
      InArenaConcat(a, d, PrunedForest(a, rs, r, xs[1..]));
      d + PrunedForest(a, rs, r, xs[1..])
  }

  /** `find_first_stack`: pop the front; return it when it carries `r`, otherwise
      push its qualifying children. The result is the first node of the pruned
      preorder carrying `r`, and on an indexed arena the node `find_first` returns. */
  method FindFirstStack(a: Arena, rs: seq<RoleSet>, r: Role, root: Id) returns (o: Option<Id>)
    requires Ctx(a, rs) && root < |a|
    ensures InArena(a, PrunedDesc(a, rs, r, root))
    ensures o == FirstWithRole(a, PrunedDesc(a, rs, r, root), r)
    ensures Indexed(a, rs) ==> o == FindFirst(a, root, r)
  {
    ghost var goal := PrunedDesc(a, rs, r, root);
    MembersInArena(a, goal);
    assert Indexed(a, rs) ==> FirstWithRole(a, goal, r) == FindFirst(a, root, r) by {
      if Indexed(a, rs) {
        SameFirst(a, rs, r, root);
      }
    }
    var stack := [root];
    assert PrunedForest(a, rs, r, stack) == goal;
    while stack != []
      invariant InArena(a, stack)
      invariant FirstWithRole(a, PrunedForest(a, rs, r, stack), r) == FirstWithRole(a, goal, r)
      decreases |PrunedForest(a, rs, r, stack)|
    {
      var id := stack[0];
      var rest := stack[1..];
      ghost var tail := PrunedForest(a, rs, r, Qualifying(a, rs, r, id, 0) + rest);
      PopStep(a, rs, r, id, rest);
      assert stack == [id] + rest;
      if a[id].role == r {
        return Some(id);
      }
      stack := PushQualifying(a, rs, r, id, rest);
    }
    return None;
  }

  /** The inner loop: walk the children of `id` from the last to the first and push
      every one whose summary holds `r` to the front of `rest`. */
  method PushQualifying(a: Arena, rs: seq<RoleSet>, r: Role, id: Id, rest: seq<Id>)
    returns (stack: seq<Id>)
    requires Ctx(a, rs) && id < |a| && InArena(a, rest)
    ensures stack == Qualifying(a, rs, r, id, 0) + rest
    ensures InArena(a, stack)
  {
    var ch := a[id].children;
    var j := |ch|;
    stack := rest;
    while j > 0
      invariant 0 <= j <= |ch|
      invariant stack == Qualifying(a, rs, r, id, j) + rest
    {
      j := j - 1;
      var c := ch[j];
      if r in rs[c] {
        stack := [c] + stack;
      }
    }
    InArenaConcat(a, Qualifying(a, rs, r, id, 0), rest);
  }

  // ---------------------------------------------------------------------------
  // Lemmas.
  // ---------------------------------------------------------------------------

  /** Popping `id` and pushing its qualifying children leaves the rest of the search
      unchanged: the stack's forest loses exactly its first node. */
  lemma PopStep(a: Arena, rs: seq<RoleSet>, r: Role, id: Id, rest: seq<Id>)
    requires Ctx(a, rs) && id < |a| && InArena(a, rest)
    ensures InArena(a, [id] + rest) && InArena(a, Qualifying(a, rs, r, id, 0) + rest)
    ensures var tail := PrunedForest(a, rs, r, Qualifying(a, rs, r, id, 0) + rest);
      PrunedForest(a, rs, r, [id] + rest) == [id] + tail &&
      FirstWithRole(a, [id] + tail, r) ==
        if a[id].role == r then Some(id) else FirstWithRole(a, tail, r)
  {
    var q := Qualifying(a, rs, r, id, 0);
    InArenaConcat(a, [id], rest);
    InArenaConcat(a, q, rest);
    assert ([id] + rest)[1..] == rest;
    PrunedKidsIsForest(a, rs, r, id, 0);
    PrunedForestConcat(a, rs, r, q, rest);
    var tail := PrunedForest(a, rs, r, q + rest);
    assert ([id] + tail)[1..] == tail;
  }

  lemma {:induction false} PrunedForestConcat(a: Arena, rs: seq<RoleSet>, r: Role, xs: seq<Id>, ys: seq<Id>)
    requires Ctx(a, rs) && InArena(a, xs) && InArena(a, ys)
    ensures InArena(a, xs + ys)
    ensures PrunedForest(a, rs, r, xs + ys) == PrunedForest(a, rs, r, xs) + PrunedForest(a, rs, r, ys)
    decreases |xs|
  {
    InArenaConcat(a, xs, ys);
    if xs != [] {
      assert (xs + ys)[1..] == xs[1..] + ys;
      PrunedForestConcat(a, rs, r, xs[1..], ys);
    } else {
      assert xs + ys == ys;
    }
  }

  /** The pruned subtrees of the children of `n` are those of its qualifying children. */
  lemma {:induction false} PrunedKidsIsForest(a: Arena, rs: seq<RoleSet>, r: Role, n: Id, i: nat)
    requires Ctx(a, rs) && n < |a| && i <= |a[n].children|
    ensures PrunedKids(a, rs, r, n, i) == PrunedForest(a, rs, r, Qualifying(a, rs, r, n, i))
    decreases |a[n].children| - i
  {
    if i < |a[n].children| {
      var c := a[n].children[i];
      var later := Qualifying(a, rs, r, n, i + 1);
      PrunedKidsIsForest(a, rs, r, n, i + 1);
      if r in rs[c] {
        assert Qualifying(a, rs, r, n, i) == [c] + later;
        assert ([c] + later)[1..] == later;
      } else {
        assert Qualifying(a, rs, r, n, i) == [] + later == later;
        assert PrunedKids(a, rs, r, n, i) == [] + PrunedKids(a, rs, r, n, i + 1);
      }
    }
  }
}
