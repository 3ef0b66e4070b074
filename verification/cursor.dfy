/** The pruned walk: the `TraverseRole` cursor, which steps over start and end
    edges but never enters a child whose summary lacks the target role, and
    `DescendantsRole`, which keeps the nodes the cursor enters. Every caller
    passes a single role (`role.into()`), so the target is one role `r` and
    `contains` is membership. */
module Cursor {
  import opened RoleSets
  import opened ArenaTree
  import opened Index
  import opened Queries

  /** `indextree::NodeEdge`: entering or leaving a node. */
  datatype Edge = Start(node: Id) | End(node: Id)

  /** A well-formed arena together with one summary per slot. */
  ghost predicate Ctx(a: Arena, rs: seq<RoleSet>) {
    WellFormed(a) && |rs| == |a|
  }

  /** `NodeEdge::next_traverse_role`: the edge after `e`. After entering a node the
      cursor enters its first child if that child's summary holds `r`, and otherwise
      reports leaving it. After leaving a node it enters the next sibling whose
      summary holds `r`, skipping the others silently, and leaves the parent when
      none is left. Leaving a parentless node ends the walk. */
  function NextTraverseRole(a: Arena, rs: seq<RoleSet>, r: Role, e: Edge): (o: Option<Edge>)
    requires Ctx(a, rs) && e.node < |a|
    ensures o.Some? ==> o.value.node < |a|
    ensures o.None? <==> e.End? && a[e.node].parent.None?
    ensures o.Some? && o.value.Start? ==> r in rs[o.value.node]
    ensures e.Start? && a[e.node].children == [] ==> o == Some(End(e.node))
    ensures e.Start? && a[e.node].children != [] ==> o.Some? && o.value.node == a[e.node].children[0]
    ensures e.End? && o.Some? ==>
      o.value == End(a[e.node].parent.value) ||
      (o.value.Start? && a[o.value.node].parent == a[e.node].parent && e.node < o.value.node)
    decreases |a| - e.node
  {
    match e
    case Start(n) =>
      (match FirstChild(a, n)
       case Some(c) => if r in rs[c] then Some(Start(c)) else Some(End(c))
       case None => Some(End(n)))
    case End(n) =>
      match NextSibling(a, n)
      case Some(s) => if r in rs[s] then Some(Start(s)) else NextTraverseRole(a, rs, r, End(s))
      case None =>
        match a[n].parent
        case None => None
        case Some(p) => Some(End(p))
  }

  /** `TraverseRole::next_of_next`: the walk stops right after leaving `root`. */
  function NextOfNext(a: Arena, rs: seq<RoleSet>, r: Role, root: Id, e: Edge): (o: Option<Edge>)
    requires Ctx(a, rs) && e.node < |a|
    ensures o.None? <==> e == End(root) || (e.End? && a[e.node].parent.None?)
    ensures o.Some? ==> o == NextTraverseRole(a, rs, r, e)
  {
    if e == End(root) then None else NextTraverseRole(a, rs, r, e)
  }

  // ---------------------------------------------------------------------------
  // Reference walks.
  // ---------------------------------------------------------------------------

  /** The edges the cursor reports for the subtree of `n` once it has entered `n`:
      enter `n`, the pieces of its children, leave `n`. */
  function Tour(a: Arena, rs: seq<RoleSet>, r: Role, n: Id): (t: seq<Edge>)
    requires Ctx(a, rs) && n < |a|
    ensures |t| >= 2 && t[0] == Start(n) && t[|t| - 1] == End(n)
    ensures forall e :: e in t ==> n <= e.node < |a|
    decreases |a| - n, |a[n].children| + 2
  {
    [Start(n)] + Kids(a, rs, r, n, 0) + [End(n)]
  }

  /** The pieces of children `i..` of `n`, concatenated. */
  function Kids(a: Arena, rs: seq<RoleSet>, r: Role, n: Id, i: nat): (k: seq<Edge>)
    requires Ctx(a, rs) && n < |a| && i <= |a[n].children|
    ensures forall e :: e in k ==> n < e.node < |a|
    decreases |a| - n, |a[n].children| - i + 1
  {
    if i == |a[n].children| then []
    else Piece(a, rs, r, n, i) + Kids(a, rs, r, n, i + 1)
  }

  /** What the cursor reports for child `i` of `n`: the whole tour when the child's
      summary holds `r`; otherwise only leaving it when it is the first child (the
      edge `Start` substitutes), and nothing for a later child (the sibling scan
      steps over it). */
  function Piece(a: Arena, rs: seq<RoleSet>, r: Role, n: Id, i: nat): (p: seq<Edge>)
    requires Ctx(a, rs) && n < |a| && i < |a[n].children|
    ensures p != [] ==> p[|p| - 1] == End(a[n].children[i])
    ensures forall e :: e in p ==> n < e.node < |a|
    decreases |a| - n, |a[n].children| - i
  {
    var c := a[n].children[i];
    if r in rs[c] then Tour(a, rs, r, c)
    else if i == 0 then [End(c)]
    else []
  }

  /** The rest of the walk inside `n` from child `i` on, ending with leaving `n`. */
  function Follow(a: Arena, rs: seq<RoleSet>, r: Role, n: Id, i: nat): (f: seq<Edge>)
    requires Ctx(a, rs) && n < |a| && i <= |a[n].children|
    ensures |f| > 0 && f[|f| - 1] == End(n)
    ensures forall e :: e in f ==> n <= e.node < |a|
  {
    Kids(a, rs, r, n, i) + [End(n)]
  }

  /** The preorder of the subtree of `n` with every child subtree whose summary
      lacks `r` cut off (the root itself is always kept). */
  function PrunedDesc(a: Arena, rs: seq<RoleSet>, r: Role, n: Id): (s: seq<Id>)
    requires Ctx(a, rs) && n < |a|
    ensures forall x :: x in s ==> n <= x < |a|
    decreases |a| - n, |a[n].children| + 1
  {
    [n] + PrunedKids(a, rs, r, n, 0)
  }

  function PrunedKids(a: Arena, rs: seq<RoleSet>, r: Role, n: Id, i: nat): (s: seq<Id>)
    requires Ctx(a, rs) && n < |a| && i <= |a[n].children|
    ensures forall x :: x in s ==> n < x < |a|
    decreases |a| - n, |a[n].children| - i
  {
    if i == |a[n].children| then []
    else
      var c := a[n].children[i];
      (if r in rs[c] then PrunedDesc(a, rs, r, c) else []) + PrunedKids(a, rs, r, n, i + 1)
  }

  /** The entered nodes of an edge sequence, in order. */
  function StartNodes(t: seq<Edge>): seq<Id>
  {
    if t == [] then []
    else (if t[0].Start? then [t[0].node] else []) + StartNodes(t[1..])
  }

  /** Each edge of `t` is followed by the edge the cursor computes from it. */
  ghost predicate Steps(a: Arena, rs: seq<RoleSet>, r: Role, t: seq<Edge>)
    requires Ctx(a, rs)
  {
    forall i :: 0 <= i < |t| - 1 ==> StepAt(a, rs, r, t, i)
  }

  /** Edge `i + 1` of `t` is the one the cursor computes from edge `i`. */
  ghost predicate StepAt(a: Arena, rs: seq<RoleSet>, r: Role, t: seq<Edge>, i: nat)
    requires Ctx(a, rs) && i < |t| - 1
  {
    t[i].node < |a| && NextTraverseRole(a, rs, r, t[i]) == Some(t[i + 1])
  }

  // ---------------------------------------------------------------------------
  // The iterators and the queries built on them.
  // ---------------------------------------------------------------------------

  /** `TraverseRole` drained: starting at `Start(root)`, call `next` until it yields
      nothing. The edges are exactly the pruned tour of `root`. */
  method TraverseRole(a: Arena, rs: seq<RoleSet>, r: Role, root: Id) returns (edges: seq<Edge>)
    requires Ctx(a, rs) && root < |a|
    ensures edges == Tour(a, rs, r, root)
    ensures edges[0] == Start(root) && edges[|edges| - 1] == End(root)
    ensures forall i :: 0 < i < |edges| && edges[i].Start? ==> r in rs[edges[i].node]
  {
    ghost var t := Tour(a, rs, r, root);
    var next: Option<Edge> := Some(Start(root));
    edges := [];
    while next.Some?
      invariant |edges| <= |t| && edges == t[..|edges|]
      invariant next.Some? <==> |edges| < |t|
      invariant next.Some? ==> next.value == t[|edges|]
      decreases |t| - |edges|
    {
      var e := next.value;
      TourEdge(a, rs, r, root, |edges|);
      next := NextOfNext(a, rs, r, root, e);
      edges := edges + [e];
    }
    assert edges == t;
    TourSteps(a, rs, r, root);
    StartsQualify(a, rs, r, t);
  }

  /** Edge `j` of the tour of `root` lies in the arena, and the cursor bounded by
      `root` moves from it to edge `j + 1`, or stops after the last edge. */
  lemma TourEdge(a: Arena, rs: seq<RoleSet>, r: Role, root: Id, j: nat)
    requires Ctx(a, rs) && root < |a|
    requires j < |Tour(a, rs, r, root)|
    ensures var t := Tour(a, rs, r, root);
      t[j].node < |a| &&
      NextOfNext(a, rs, r, root, t[j]) == if j + 1 < |t| then Some(t[j + 1]) else None
  {
    var t := Tour(a, rs, r, root);
    var kids := Kids(a, rs, r, root, 0);
    assert t == [Start(root)] + kids + [End(root)];
    assert t[j] in t;
    if 0 < j < |t| - 1 {
      assert t[j] == kids[j - 1];
      assert kids[j - 1] in kids;
    }
    if j < |t| - 1 {
      TourSteps(a, rs, r, root);
      assert StepAt(a, rs, r, t, j);
    }
  }

  /** `DescendantsRole` drained: the entered nodes of the pruned walk. */
  method DescendantsRole(a: Arena, rs: seq<RoleSet>, r: Role, root: Id) returns (ds: seq<Id>)
    requires Ctx(a, rs) && root < |a|
    ensures ds == PrunedDesc(a, rs, r, root)
    ensures InArena(a, ds)
  {
    var edges := TraverseRole(a, rs, r, root);
    ds := StartNodes(edges);
    StartsOfTour(a, rs, r, root);
    MembersInArena(a, ds);
  }

  /** `find_first_roleset` (and `find_first_no_stack_ext`): the first node of the
      pruned walk carrying `r`. On an indexed arena this is the node `find_first`
      returns. */
  method FindFirstRoleset(a: Arena, rs: seq<RoleSet>, r: Role, root: Id) returns (o: Option<Id>)
    requires Ctx(a, rs) && root < |a|
    ensures o.Some? ==> o.value < |a| && a[o.value].role == r
    ensures InArena(a, PrunedDesc(a, rs, r, root))
    ensures o == FirstWithRole(a, PrunedDesc(a, rs, r, root), r)
    ensures Indexed(a, rs) ==> o == FindFirst(a, root, r)
  {
    var ds := DescendantsRole(a, rs, r, root);
    o := FirstWithRole(a, ds, r);
    assert Indexed(a, rs) ==> o == FindFirst(a, root, r) by {
      if Indexed(a, rs) {
        SameFirst(a, rs, r, root);
      }
    }
  }

  /** `how_many_roleset`: the nodes of the pruned walk carrying `r`, counted. On an
      indexed arena this is `how_many`. */
  method HowManyRoleset(a: Arena, rs: seq<RoleSet>, r: Role, root: Id) returns (n: nat)
    requires Ctx(a, rs) && root < |a|
    ensures n == |set x | x in PrunedDesc(a, rs, r, root) && a[x].role == r|
    ensures Indexed(a, rs) ==> n == HowMany(a, root, r)
  {
    var ds := DescendantsRole(a, rs, r, root);
    n := |FilterRole(a, ds, r)|;
    PrunedNoDups(a, rs, r, root);
    FilterCount(a, ds, r);
    assert Indexed(a, rs) ==> n == HowMany(a, root, r) by {
      if Indexed(a, rs) {
        PrunedSound(a, rs, r, root);
      }
    }
  }

  /** `par_find_first_roleset`: `walk_tree` over the children whose summary holds
      `r`, taken in prefix order, then the first node carrying `r`. */
  function ParFindFirstRoleset(a: Arena, rs: seq<RoleSet>, r: Role, root: Id): (o: Option<Id>)
    requires Ctx(a, rs) && root < |a|
    ensures o.Some? ==> o.value < |a| && a[o.value].role == r
    ensures o.None? <==> forall x :: x in PrunedDesc(a, rs, r, root) ==> a[x].role != r
    ensures o.Some? ==> var ps := PrunedDesc(a, rs, r, root);
      exists i :: 0 <= i < |ps| && ps[i] == o.value &&
        forall j :: 0 <= j < i ==> ps[j] < |a| && a[ps[j]].role != r
    ensures Indexed(a, rs) ==> o == FindFirst(a, root, r)
  {
    var ps := PrunedDesc(a, rs, r, root);
    MembersInArena(a, ps);
    assert Indexed(a, rs) ==> FirstWithRole(a, ps, r) == FindFirst(a, root, r) by {
      if Indexed(a, rs) {
        SameFirst(a, rs, r, root);
      }
    }
    FirstWithRole(a, ps, r)
  }

  /** `par_how_many_roleset`: the nodes of the pruned tree carrying `r`, counted. */
  function ParHowManyRoleset(a: Arena, rs: seq<RoleSet>, r: Role, root: Id): (n: nat)
    requires Ctx(a, rs) && root < |a|
    ensures n == |set x | x in PrunedDesc(a, rs, r, root) && a[x].role == r|
    ensures Indexed(a, rs) ==> n == HowMany(a, root, r)
  {
    var ps := PrunedDesc(a, rs, r, root);
    MembersInArena(a, ps);
    PrunedNoDups(a, rs, r, root);
    FilterCount(a, ps, r);
    assert Indexed(a, rs) ==> |FilterRole(a, ps, r)| == HowMany(a, root, r) by {
      if Indexed(a, rs) {
        PrunedSound(a, rs, r, root);
      }
    }
    |FilterRole(a, ps, r)|
  }

  // ---------------------------------------------------------------------------
  // Lemmas.
  // ---------------------------------------------------------------------------

  lemma StepsConcat(a: Arena, rs: seq<RoleSet>, r: Role, x: seq<Edge>, y: seq<Edge>)
    requires Ctx(a, rs) && |x| > 0 && |y| > 0
    requires Steps(a, rs, r, x) && Steps(a, rs, r, y)
    requires x[|x| - 1].node < |a| && NextTraverseRole(a, rs, r, x[|x| - 1]) == Some(y[0])
    ensures Steps(a, rs, r, x + y)
  {
    forall i | 0 <= i < |x + y| - 1
      ensures StepAt(a, rs, r, x + y, i)
    {
      if i < |x| - 1 {
        assert StepAt(a, rs, r, x, i);
      } else if i == |x| - 1 {
      } else {
        assert StepAt(a, rs, r, y, i - |x|);
        assert (x + y)[i] == y[i - |x|];
      }
    }
  }

  /** Leaving child `j` of `n` leads to the first edge of the rest of the walk
      inside `n`: the next qualifying sibling is entered, or `n` is left. */
  lemma {:induction false} SiblingScan(a: Arena, rs: seq<RoleSet>, r: Role, n: Id, j: nat)
    requires Ctx(a, rs) && n < |a| && j < |a[n].children|
    ensures a[n].children[j] < |a|
    ensures NextTraverseRole(a, rs, r, End(a[n].children[j])) == Some(Follow(a, rs, r, n, j + 1)[0])
    decreases |a[n].children| - j
  {
    var ch := a[n].children;
    LeaveChild(a, rs, r, n, j);
    FollowHead(a, rs, r, n, j + 1);
    if j + 1 < |ch| && r !in rs[ch[j + 1]] {
      SiblingScan(a, rs, r, n, j + 1);
    }
  }

  /** One cursor step after leaving child `j` of `n`. */
  lemma LeaveChild(a: Arena, rs: seq<RoleSet>, r: Role, n: Id, j: nat)
    requires Ctx(a, rs) && n < |a| && j < |a[n].children|
    ensures var ch := a[n].children;
      NextTraverseRole(a, rs, r, End(ch[j])) ==
        if j + 1 == |ch| then Some(End(n))
        else if r in rs[ch[j + 1]] then Some(Start(ch[j + 1]))
        else NextTraverseRole(a, rs, r, End(ch[j + 1]))
  {
    NextSiblingOfChild(a, n, j);
    assert a[a[n].children[j]].parent == Some(n);
  }

  /** The first edge of the rest of the walk inside `n` from child `i` on. */
  lemma FollowHead(a: Arena, rs: seq<RoleSet>, r: Role, n: Id, i: nat)
    requires Ctx(a, rs) && n < |a| && i <= |a[n].children|
    ensures var ch := a[n].children;
      Follow(a, rs, r, n, i)[0] ==
        if i == |ch| then End(n)
        else if r in rs[ch[i]] then Start(ch[i])
        else if i == 0 then End(ch[0])
        else Follow(a, rs, r, n, i + 1)[0]
  {
    var ch := a[n].children;
    if i < |ch| {
      var p := Piece(a, rs, r, n, i);
      assert Follow(a, rs, r, n, i) == p + Follow(a, rs, r, n, i + 1);
      if r in rs[ch[i]] {
        assert p == Tour(a, rs, r, ch[i]);
      } else if i > 0 {
        assert p == [];
      }
    }
  }

  /** The cursor steps through the whole tour of `n`. */
  lemma {:induction false} TourSteps(a: Arena, rs: seq<RoleSet>, r: Role, n: Id)
    requires Ctx(a, rs) && n < |a|
    ensures Steps(a, rs, r, Tour(a, rs, r, n))
    decreases |a| - n, 1, 0
  {
    var f := Follow(a, rs, r, n, 0);
    FollowSteps(a, rs, r, n, 0);
    if a[n].children != [] {
      assert f == Piece(a, rs, r, n, 0) + Follow(a, rs, r, n, 1);
    } else {
      assert f == [End(n)];
    }
    StepsConcat(a, rs, r, [Start(n)], f);
    assert Tour(a, rs, r, n) == [Start(n)] + f;
  }

  lemma {:induction false} FollowSteps(a: Arena, rs: seq<RoleSet>, r: Role, n: Id, i: nat)
    requires Ctx(a, rs) && n < |a| && i <= |a[n].children|
    ensures Steps(a, rs, r, Follow(a, rs, r, n, i))
    decreases |a| - n, 0, |a[n].children| - i
  {
    if i < |a[n].children| {
      FollowSteps(a, rs, r, n, i + 1);
      PieceSteps(a, rs, r, n, i);
      FollowJoin(a, rs, r, n, i);
    } else {
      assert Follow(a, rs, r, n, i) == [End(n)];
    }
  }

  lemma {:induction false} PieceSteps(a: Arena, rs: seq<RoleSet>, r: Role, n: Id, i: nat)
    requires Ctx(a, rs) && n < |a| && i < |a[n].children|
    ensures Steps(a, rs, r, Piece(a, rs, r, n, i))
    decreases |a| - n, 0, 0
  {
    var c := a[n].children[i];
    if r in rs[c] {
      TourSteps(a, rs, r, c);
    }
  }

  /** The piece of child `i` runs into the rest of the walk inside `n`. */
  lemma FollowJoin(a: Arena, rs: seq<RoleSet>, r: Role, n: Id, i: nat)
    requires Ctx(a, rs) && n < |a| && i < |a[n].children|
    requires Steps(a, rs, r, Piece(a, rs, r, n, i))
    requires Steps(a, rs, r, Follow(a, rs, r, n, i + 1))
    ensures Steps(a, rs, r, Follow(a, rs, r, n, i))
  {
    var p := Piece(a, rs, r, n, i);
    var rest := Follow(a, rs, r, n, i + 1);
    assert Follow(a, rs, r, n, i) == p + rest;
    if p != [] {
      assert p[|p| - 1] == End(a[n].children[i]);
      SiblingScan(a, rs, r, n, i);
      StepsConcat(a, rs, r, p, rest);
    } else {
      assert p + rest == rest;
    }
  }

  /** Apart from the first edge, every entered node of a cursor run qualifies. */
  lemma StartsQualify(a: Arena, rs: seq<RoleSet>, r: Role, t: seq<Edge>)
    requires Ctx(a, rs) && Steps(a, rs, r, t)
    requires forall e :: e in t ==> e.node < |a|
    ensures forall i :: 0 < i < |t| && t[i].Start? ==> r in rs[t[i].node]
  {
    forall i | 0 < i < |t| && t[i].Start?
      ensures r in rs[t[i].node]
    {
      assert StepAt(a, rs, r, t, i - 1);
    }
  }

  lemma {:induction false} StartNodesConcat(t: seq<Edge>, u: seq<Edge>)
    ensures StartNodes(t + u) == StartNodes(t) + StartNodes(u)
    decreases |t|
  {
    if t != [] {
      assert (t + u)[1..] == t[1..] + u;
      StartNodesConcat(t[1..], u);
    } else {
      assert t + u == u;
    }
  }

  /** The nodes the cursor enters are the pruned preorder. */
  lemma {:induction false} StartsOfTour(a: Arena, rs: seq<RoleSet>, r: Role, n: Id)
    requires Ctx(a, rs) && n < |a|
    ensures StartNodes(Tour(a, rs, r, n)) == PrunedDesc(a, rs, r, n)
    decreases |a| - n, 1, 0
  {
    var k := Kids(a, rs, r, n, 0);
    StartsOfKids(a, rs, r, n, 0);
    StartNodesConcat([Start(n)], k);
    StartNodesConcat([Start(n)] + k, [End(n)]);
  }

  lemma {:induction false} StartsOfKids(a: Arena, rs: seq<RoleSet>, r: Role, n: Id, i: nat)
    requires Ctx(a, rs) && n < |a| && i <= |a[n].children|
    ensures StartNodes(Kids(a, rs, r, n, i)) == PrunedKids(a, rs, r, n, i)
    decreases |a| - n, 0, |a[n].children| - i
  {
    if i == |a[n].children| {
      KidsEnd(a, rs, r, n, i);
    } else {
      StartsOfPiece(a, rs, r, n, i);
      StartsOfKids(a, rs, r, n, i + 1);
      StartsJoin(a, rs, r, n, i);
    }
  }

  lemma KidsEnd(a: Arena, rs: seq<RoleSet>, r: Role, n: Id, i: nat)
    requires Ctx(a, rs) && n < |a| && i == |a[n].children|
    ensures StartNodes(Kids(a, rs, r, n, i)) == PrunedKids(a, rs, r, n, i)
  {
  }

  lemma {:induction false} StartsOfPiece(a: Arena, rs: seq<RoleSet>, r: Role, n: Id, i: nat)
    requires Ctx(a, rs) && n < |a| && i < |a[n].children|
    ensures var c := a[n].children[i];
      StartNodes(Piece(a, rs, r, n, i)) == if r in rs[c] then PrunedDesc(a, rs, r, c) else []
    decreases |a| - n, 0, 0
  {
    var c := a[n].children[i];
    if r in rs[c] {
      StartsOfTour(a, rs, r, c);
    } else if i == 0 {
      assert StartNodes(Piece(a, rs, r, n, i)) == StartNodes([End(c)]);
    }
  }

  /** The entered nodes of child `i`'s piece and of the later pieces join up. */
  lemma StartsJoin(a: Arena, rs: seq<RoleSet>, r: Role, n: Id, i: nat)
    requires Ctx(a, rs) && n < |a| && i < |a[n].children|
    requires var c := a[n].children[i];
      StartNodes(Piece(a, rs, r, n, i)) == if r in rs[c] then PrunedDesc(a, rs, r, c) else []
    requires StartNodes(Kids(a, rs, r, n, i + 1)) == PrunedKids(a, rs, r, n, i + 1)
    ensures StartNodes(Kids(a, rs, r, n, i)) == PrunedKids(a, rs, r, n, i)
  {
    var p := Piece(a, rs, r, n, i);
    assert Kids(a, rs, r, n, i) == p + Kids(a, rs, r, n, i + 1);
    StartNodesConcat(p, Kids(a, rs, r, n, i + 1));
  }

  /** A subtree whose roles exclude `r` contributes nothing to a filter on `r`. */
  lemma FilterAbsent(a: Arena, n: Id, r: Role)
    requires WellFormed(a) && n < |a| && r !in SubtreeRoles(a, n)
    ensures InArena(a, Desc(a, n))
    ensures FilterRole(a, Desc(a, n), r) == []
  {
    DescInArena(a, n);
    forall i | 0 <= i < |Desc(a, n)|
      ensures a[Desc(a, n)[i]].role != r
    {
      assert Desc(a, n)[i] in Desc(a, n);
    }
    FilterRoleNone(a, Desc(a, n), r);
  }

  /** With the index built, filtering the pruned walk on `r` gives what filtering
      the full preorder gives: pruning only drops subtrees without `r`. */
  lemma {:induction false} PrunedSound(a: Arena, rs: seq<RoleSet>, r: Role, n: Id)
    requires Indexed(a, rs) && n < |a|
    ensures InArena(a, PrunedDesc(a, rs, r, n)) && InArena(a, Desc(a, n))
    ensures FilterRole(a, PrunedDesc(a, rs, r, n), r) == FilterRole(a, Desc(a, n), r)
    decreases |a| - n, 1, 0
  {
    var pk := PrunedKids(a, rs, r, n, 0);
    var dk := DescKids(a, n, 0);
    MembersInArena(a, [n]);
    PrunedKidsSound(a, rs, r, n, 0);
    FilterRoleConcat(a, [n], pk, r);
    FilterRoleConcat(a, [n], dk, r);
  }

  lemma {:induction false} PrunedKidsSound(a: Arena, rs: seq<RoleSet>, r: Role, n: Id, i: nat)
    requires Indexed(a, rs) && n < |a| && i <= |a[n].children|
    ensures InArena(a, PrunedKids(a, rs, r, n, i)) && InArena(a, DescKids(a, n, i))
    ensures FilterRole(a, PrunedKids(a, rs, r, n, i), r) == FilterRole(a, DescKids(a, n, i), r)
    decreases |a| - n, 0, |a[n].children| - i
  {
    if i < |a[n].children| {
      ChildSound(a, rs, r, a[n].children[i]);
      PrunedKidsSound(a, rs, r, n, i + 1);
      KidsJoin(a, rs, r, n, i);
    } else {
      assert PrunedKids(a, rs, r, n, i) == [] == DescKids(a, n, i);
    }
  }

  /** One step of `PrunedKidsSound`: child `i` and the children after it join up. */
  lemma KidsJoin(a: Arena, rs: seq<RoleSet>, r: Role, n: Id, i: nat)
    requires Ctx(a, rs) && n < |a| && i < |a[n].children|
    requires var c := a[n].children[i];
      var pc := if r in rs[c] then PrunedDesc(a, rs, r, c) else [];
      InArena(a, pc) && InArena(a, Desc(a, c)) &&
      FilterRole(a, pc, r) == FilterRole(a, Desc(a, c), r)
    requires InArena(a, PrunedKids(a, rs, r, n, i + 1)) && InArena(a, DescKids(a, n, i + 1))
    requires FilterRole(a, PrunedKids(a, rs, r, n, i + 1), r) == FilterRole(a, DescKids(a, n, i + 1), r)
    ensures InArena(a, PrunedKids(a, rs, r, n, i)) && InArena(a, DescKids(a, n, i))
    ensures FilterRole(a, PrunedKids(a, rs, r, n, i), r) == FilterRole(a, DescKids(a, n, i), r)
  {
    var c := a[n].children[i];
    var pc := if r in rs[c] then PrunedDesc(a, rs, r, c) else [];
    assert PrunedKids(a, rs, r, n, i) == pc + PrunedKids(a, rs, r, n, i + 1);
    assert DescKids(a, n, i) == Desc(a, c) + DescKids(a, n, i + 1);
    FilterJoin(a, pc, PrunedKids(a, rs, r, n, i + 1), Desc(a, c), DescKids(a, n, i + 1), r);
  }

  /** Filtering distributes over concatenation, so pieces that filter alike join
      into sequences that filter alike. */
  lemma FilterJoin(a: Arena, p: seq<Id>, q: seq<Id>, d: seq<Id>, e: seq<Id>, r: Role)
    requires InArena(a, p) && InArena(a, q) && InArena(a, d) && InArena(a, e)
    requires FilterRole(a, p, r) == FilterRole(a, d, r)
    requires FilterRole(a, q, r) == FilterRole(a, e, r)
    ensures InArena(a, p + q) && InArena(a, d + e)
    ensures FilterRole(a, p + q, r) == FilterRole(a, d + e, r)
  {
    FilterRoleConcat(a, p, q, r);
    FilterRoleConcat(a, d, e, r);
  }

  /** What the pruned walk keeps of one child subtree filters like the whole subtree. */
  lemma {:induction false} ChildSound(a: Arena, rs: seq<RoleSet>, r: Role, c: Id)
    requires Indexed(a, rs) && c < |a|
    ensures var pc := if r in rs[c] then PrunedDesc(a, rs, r, c) else [];
      InArena(a, pc) && InArena(a, Desc(a, c)) &&
      FilterRole(a, pc, r) == FilterRole(a, Desc(a, c), r)
    decreases |a| - c, 2, 0
  {
    DescInArena(a, c);
    if r in rs[c] {
      PrunedSound(a, rs, r, c);
    } else {
      assert IndexedAt(a, rs, c);
      FilterAbsent(a, c, r);
    }
  }

  /** The pruned walk visits each node at most once, and only nodes of the subtree. */
  lemma {:induction false} PrunedNoDups(a: Arena, rs: seq<RoleSet>, r: Role, n: Id)
    requires Ctx(a, rs) && n < |a|
    ensures NoDups(PrunedDesc(a, rs, r, n))
    ensures forall x :: x in PrunedDesc(a, rs, r, n) ==> x in Desc(a, n)
    decreases |a| - n, |a[n].children| + 1
  {
    PrunedKidsNoDups(a, rs, r, n, 0);
    NoDupsConcat([n], PrunedKids(a, rs, r, n, 0));
  }

  lemma {:induction false} PrunedKidsNoDups(a: Arena, rs: seq<RoleSet>, r: Role, n: Id, i: nat)
    requires Ctx(a, rs) && n < |a| && i <= |a[n].children|
    ensures NoDups(PrunedKids(a, rs, r, n, i))
    ensures forall x :: x in PrunedKids(a, rs, r, n, i) ==> x in DescKids(a, n, i)
    decreases |a| - n, |a[n].children| - i
  {
    var ch := a[n].children;
    if i < |ch| {
      var pc := if r in rs[ch[i]] then PrunedDesc(a, rs, r, ch[i]) else [];
      var rest := PrunedKids(a, rs, r, n, i + 1);
      PrunedNoDups(a, rs, r, ch[i]);
      PrunedKidsNoDups(a, rs, r, n, i + 1);
      assert DescKids(a, n, i) == Desc(a, ch[i]) + DescKids(a, n, i + 1);
      forall x | x in pc ensures x !in rest {
        DescKidsMember(a, n, i + 1, x);
        forall j | i + 1 <= j < |ch| ensures x !in Desc(a, ch[j]) {
          SiblingsDisjoint(a, n, i, j, x);
        }
      }
      NoDupsConcat(pc, rest);
    }
  }

  /** The pruned walk and the full preorder find the same first node. */
  lemma SameFirst(a: Arena, rs: seq<RoleSet>, r: Role, n: Id)
    requires Indexed(a, rs) && n < |a|
    ensures InArena(a, PrunedDesc(a, rs, r, n))
    ensures FirstWithRole(a, PrunedDesc(a, rs, r, n), r) == FindFirst(a, n, r)
  {
    PrunedSound(a, rs, r, n);
    FirstIsHeadOfFilter(a, PrunedDesc(a, rs, r, n), r);
    FirstIsHeadOfFilter(a, Desc(a, n), r);
  }
}
