/** The plain queries of `TreeTraversal` (scans of the preorder `descendants` walk)
    and their `par_*` counterparts, which scan the arena in storage order. The
    parallel versions are modelled by their sequential meaning. */
module Queries {
  import opened RoleSets
  import opened ArenaTree
  import opened Construction
  import opened Index

  /** Every handle of `xs` addresses a slot of the arena. */
  ghost predicate InArena(a: Arena, xs: seq<Id>) {
    forall i :: 0 <= i < |xs| ==> xs[i] < |a|
  }

  ghost predicate Sorted(s: seq<Role>) {
    forall i, j :: 0 <= i < j < |s| ==> s[i] <= s[j]
  }

  /** The nodes whose role is `r`, in walk order (`.filter(|node| node.role == role)`). */
  function FilterRole(a: Arena, xs: seq<Id>, r: Role): (s: seq<Id>)
    requires InArena(a, xs)
    ensures InArena(a, s) && |s| <= |xs|
    ensures forall x :: x in s <==> x in xs && a[x].role == r
    ensures NoDups(xs) ==> InOrderOf(s, xs)
  {
    if xs == [] then []
    else
      var rest := FilterRole(a, xs[1..], r);
      OrderedCons(xs, rest, a[xs[0]].role == r);
      if a[xs[0]].role == r then [xs[0]] + rest else rest
  }

  /** The first node whose role is `r` (`.find_map(..)` / `.find_first(..)`). */
  function FirstWithRole(a: Arena, xs: seq<Id>, r: Role): (o: Option<Id>)
    requires InArena(a, xs)
    ensures o.None? <==> forall i :: 0 <= i < |xs| ==> a[xs[i]].role != r
    ensures o.Some? ==> exists i :: 0 <= i < |xs| && xs[i] == o.value && a[xs[i]].role == r &&
                          forall j :: 0 <= j < i ==> a[xs[j]].role != r
  {
    if xs == [] then None
    else if a[xs[0]].role == r then Some(xs[0])
    else
      var o := FirstWithRole(a, xs[1..], r);
      assert o.Some? ==> exists i :: 0 <= i < |xs| && xs[i] == o.value && a[xs[i]].role == r &&
                           forall j :: 0 <= j < i ==> a[xs[j]].role != r by {
        if o.Some? {
          var i :| 0 <= i < |xs[1..]| && xs[1..][i] == o.value && a[xs[1..][i]].role == r &&
                     forall j :: 0 <= j < i ==> a[xs[1..][j]].role != r;
          assert xs[i + 1] == o.value && forall j :: 0 <= j < i + 1 ==> a[xs[j]].role != r;
        }
      }
      o
  }

  /** The nodes without children, in walk order (`children(..).next().is_none()` and
      `first_child().is_none()` are the same test). */
  function FilterLeaf(a: Arena, xs: seq<Id>): (s: seq<Id>)
    requires InArena(a, xs)
    ensures InArena(a, s)
    ensures forall x :: x in s <==> x in xs && a[x].children == []
    ensures NoDups(xs) ==> InOrderOf(s, xs)
  {
    if xs == [] then []
    else
      var rest := FilterLeaf(a, xs[1..]);
      OrderedCons(xs, rest, a[xs[0]].children == []);
      if a[xs[0]].children == [] then [xs[0]] + rest else rest
  }

  /** Keeping or dropping the head of a walk in front of an ordered selection from its
      tail gives an ordered selection from the whole walk. */
  lemma OrderedCons(xs: seq<Id>, rest: seq<Id>, keep: bool)
    requires |xs| > 0
    requires NoDups(xs[1..]) ==> InOrderOf(rest, xs[1..])
    ensures NoDups(xs) ==> InOrderOf(if keep then [xs[0]] + rest else rest, xs)
  {
    if NoDups(xs) {
      TailNoDups(xs);
      OrderedTail(xs, rest);
      if keep {
        OrderedHead(xs, rest);
      }
    }
  }

  lemma TailNoDups(xs: seq<Id>)
    requires |xs| > 0 && NoDups(xs)
    ensures NoDups(xs[1..]) && xs[0] !in xs[1..]
  {
    var t := xs[1..];
    forall i, j | 0 <= i < j < |t| ensures t[i] != t[j] {
      assert t[i] == xs[i + 1] && t[j] == xs[j + 1];
    }
  }

  /** Past the head, positions in a duplicate-free walk are positions in its tail
      shifted by one. */
  lemma TailIndex(xs: seq<Id>, y: Id)
    requires |xs| > 0 && NoDups(xs) && y in xs[1..]
    ensures IndexOf(xs, y) == IndexOf(xs[1..], y) + 1
  {
    TailNoDups(xs);
  }

  lemma OrderedTail(xs: seq<Id>, rest: seq<Id>)
    requires |xs| > 0 && NoDups(xs) && InOrderOf(rest, xs[1..])
    ensures InOrderOf(rest, xs)
    ensures forall i :: 0 <= i < |rest| ==> IndexOf(xs, rest[i]) > 0
  {
    forall i | 0 <= i < |rest|
      ensures rest[i] in xs && IndexOf(xs, rest[i]) == IndexOf(xs[1..], rest[i]) + 1
    {
      TailIndex(xs, rest[i]);
    }
  }

  lemma OrderedHead(xs: seq<Id>, rest: seq<Id>)
    requires |xs| > 0 && InOrderOf(rest, xs)
    requires forall i :: 0 <= i < |rest| ==> IndexOf(xs, rest[i]) > 0
    ensures InOrderOf([xs[0]] + rest, xs)
  {
    var s := [xs[0]] + rest;
    forall i | 0 < i < |s| ensures s[i] in xs {
      assert s[i] == rest[i - 1];
    }
    forall i, j | 0 <= i < j < |s| ensures IndexOf(xs, s[i]) < IndexOf(xs, s[j]) {
      HeadBefore(xs, rest, i, j);
    }
  }

  lemma HeadBefore(xs: seq<Id>, rest: seq<Id>, i: nat, j: nat)
    requires |xs| > 0 && InOrderOf(rest, xs)
    requires forall i :: 0 <= i < |rest| ==> IndexOf(xs, rest[i]) > 0
    requires i < j < |rest| + 1
    ensures var s := [xs[0]] + rest; IndexOf(xs, s[i]) < IndexOf(xs, s[j])
  {
    var s := [xs[0]] + rest;
    assert s[j] == rest[j - 1];
    if i == 0 {
      assert IndexOf(xs, xs[0]) == 0;
    } else {
      assert s[i] == rest[i - 1];
    }
  }

  /** The role of every node of `xs`, in order (`.map(|node| node.role)`). */
  function RolesOf(a: Arena, xs: seq<Id>): (rs: seq<Role>)
    requires InArena(a, xs)
    ensures |rs| == |xs| && forall i :: 0 <= i < |xs| ==> rs[i] == a[xs[i]].role
  {
    seq(|xs|, i requires 0 <= i < |xs| => a[xs[i]].role)
  }

  /** The largest element of a non-empty sequence (`.max().expect(..)`). */
  function MaxOf(s: seq<nat>): (m: nat)
    requires |s| > 0
    ensures m in s
    ensures forall i :: 0 <= i < |s| ==> s[i] <= m
  {
    if |s| == 1 then s[0]
    else
      var m := MaxOf(s[1..]);
      assert forall i :: 1 <= i < |s| ==> s[i] == s[1..][i - 1];
      if s[0] < m then m else s[0]
  }

  /** Length of the `ancestors` walk of every node of `xs`. */
  function Depths(a: Arena, xs: seq<Id>): (d: seq<nat>)
    requires WellFormed(a) && InArena(a, xs)
    ensures |d| == |xs| && forall i :: 0 <= i < |xs| ==> d[i] == |Anc(a, xs[i])|
  {
    seq(|xs|, i requires 0 <= i < |xs| => |Anc(a, xs[i])|)
  }

  lemma MembersInArena(a: Arena, xs: seq<Id>)
    requires forall x :: x in xs ==> x < |a|
    ensures InArena(a, xs)
  {
    assert forall i :: 0 <= i < |xs| ==> xs[i] in xs;
  }

  lemma InArenaConcat(a: Arena, xs: seq<Id>, ys: seq<Id>)
    requires InArena(a, xs) && InArena(a, ys)
    ensures InArena(a, xs + ys)
  {
    forall i | 0 <= i < |xs + ys| ensures (xs + ys)[i] < |a| {
      if i >= |xs| {
        assert (xs + ys)[i] == ys[i - |xs|];
      }
    }
  }

  lemma DescInArena(a: Arena, n: Id)
    requires WellFormed(a) && n < |a|
    ensures InArena(a, Desc(a, n))
  {
    MembersInArena(a, Desc(a, n));
  }

  // ---------------------------------------------------------------------------
  // The queries.
  // ---------------------------------------------------------------------------

  /** `find_first`: the first node of the preorder walk from `root` carrying `r`; none
      exactly when no node of the subtree carries it. */
  function FindFirst(a: Arena, root: Id, r: Role): (o: Option<Id>)
    requires WellFormed(a) && root < |a|
    ensures o.None? <==> r !in SubtreeRoles(a, root)
    ensures o.Some? ==> o.value in Desc(a, root) && a[o.value].role == r
    ensures o.Some? ==> forall j :: 0 <= j < IndexOf(Desc(a, root), o.value) ==>
                          Desc(a, root)[j] < |a| && a[Desc(a, root)[j]].role != r
  {
    DescInArena(a, root);
    var xs := Desc(a, root);
    var o := FirstWithRole(a, xs, r);
    assert o.None? ==> forall x :: x in xs ==> a[x].role != r;
    assert o.Some? ==> forall j :: 0 <= j < IndexOf(xs, o.value) ==> a[xs[j]].role != r by {
      if o.Some? {
        var i :| 0 <= i < |xs| && xs[i] == o.value && a[xs[i]].role == r &&
                   forall j :: 0 <= j < i ==> a[xs[j]].role != r;
        FirstCarrierAt(a, xs, r, i);
      }
    }
    o
  }

  /** `par_find_first`: the first arena slot carrying `r`. Because handles are
      assigned in preorder, this is the node `find_first` returns. */
  function ParFindFirst(a: Arena, r: Role): (o: Option<Id>)
    ensures o.None? <==> forall k :: 0 <= k < |a| ==> a[k].role != r
    ensures o.Some? ==> o.value < |a| && a[o.value].role == r &&
                        forall k :: 0 <= k < o.value ==> a[k].role != r
    ensures Valid(a) ==> o == FindFirst(a, 0, r)
  {
    var xs := Range(0, |a|);
    var o := FirstWithRole(a, xs, r);
    assert o.None? ==> forall k :: 0 <= k < |a| ==> a[k].role != r by {
      if o.None? {
        forall k | 0 <= k < |a| ensures a[k].role != r {
          assert a[xs[k]].role != r;
        }
      }
    }
    assert o.Some? ==> forall k :: 0 <= k < o.value ==> a[k].role != r by {
      if o.Some? {
        var i :| 0 <= i < |xs| && xs[i] == o.value && a[xs[i]].role == r &&
                   forall j :: 0 <= j < i ==> a[xs[j]].role != r;
        forall k | 0 <= k < o.value ensures a[k].role != r {
          assert a[xs[k]].role != r;
        }
      }
    }
    o
  }

  /** `how_many`: the number of nodes of the subtree of `root` that carry `r`. */
  function HowMany(a: Arena, root: Id, r: Role): (n: nat)
    requires WellFormed(a) && root < |a|
    ensures n == 0 <==> r !in SubtreeRoles(a, root)
    ensures Valid(a) && root == 0 ==> n == |set k | 0 <= k < |a| && a[k].role == r|
    ensures n == |set x | x in Desc(a, root) && a[x].role == r|
  {
    DescInArena(a, root);
    DescNoDups(a, root);
    FilterCount(a, Desc(a, root), r);
    var s := FilterRole(a, Desc(a, root), r);
    assert s != [] ==> s[0] in s;
    CountRange(a, |a|, r);
    |s|
  }

  /** `par_how_many`: the number of arena slots carrying `r`; equal to `how_many`
      from the root of a preorder-numbered arena. */
  function ParHowMany(a: Arena, r: Role): (n: nat)
    ensures n == |set k | 0 <= k < |a| && a[k].role == r|
    ensures Valid(a) ==> n == HowMany(a, 0, r)
  {
    CountRange(a, |a|, r);
    |FilterRole(a, Range(0, |a|), r)|
  }

  /** `iter_leafs`: the childless nodes of the subtree of `root`, in preorder. */
  function IterLeafs(a: Arena, root: Id): (s: seq<Id>)
    requires WellFormed(a) && root < |a|
    ensures forall x :: x in s <==> x in Desc(a, root) && a[x].children == []
    ensures InOrderOf(s, Desc(a, root)) && NoDups(s)
  {
    DescInArena(a, root);
    DescNoDups(a, root);
    FilterLeaf(a, Desc(a, root))
  }

  /** `par_iter_leafs`: the childless arena slots in storage order; the same
      sequence as `iter_leafs` from the root of a preorder-numbered arena. */
  function ParIterLeafs(a: Arena): (s: seq<Id>)
    ensures forall x: Id :: x in s <==> x < |a| && FirstChild(a, x).None?
    ensures forall i, j :: 0 <= i < j < |s| ==> s[i] < s[j]
    ensures Valid(a) ==> s == IterLeafs(a, 0)
  {
    var xs := Range(0, |a|);
    var s := FilterLeaf(a, xs);
    assert forall i, j :: 0 <= i < j < |s| ==> s[i] < s[j] by {
      assert NoDups(xs);
      forall i, j | 0 <= i < j < |s| ensures s[i] < s[j] {
        assert xs[IndexOf(xs, s[i])] == s[i] && xs[IndexOf(xs, s[j])] == s[j];
      }
    }
    assert forall x: Id :: x in s <==> x < |a| && FirstChild(a, x).None? by {
      forall x: Id ensures x in s <==> x < |a| && FirstChild(a, x).None? {
        if x < |a| {
          assert xs[x] == x;
        }
      }
    }
    s
  }

  /** `max_depth`: the longest `ancestors` walk of any node of the subtree of
      `root`. The walk counts the node itself, so a lone root has depth 1. */
  function MaxDepth(a: Arena, root: Id): (m: nat)
    requires WellFormed(a) && root < |a|
    ensures m >= 1
    ensures exists x :: x in Desc(a, root) && |Anc(a, x)| == m
    ensures forall x :: x in Desc(a, root) ==> |Anc(a, x)| <= m
  {
    DescInArena(a, root);
    DescBounds(a, root);
    var d := Depths(a, Desc(a, root));
    var m := MaxOf(d);
    assert d[0] == |Anc(a, root)| >= 1;
    assert forall x :: x in Desc(a, root) ==> |Anc(a, x)| <= m by {
      forall x | x in Desc(a, root) ensures |Anc(a, x)| <= m {
        var i :| 0 <= i < |Desc(a, root)| && Desc(a, root)[i] == x;
        assert d[i] <= m;
      }
    }
    m
  }

  /** The length of the ancestor walk of a node's parent, 0 for a parentless node. */
  function ParentDepth(a: Arena, k: Id): (d: nat)
    requires WellFormed(a) && k < |a|
    ensures d + 1 == |Anc(a, k)|
  {
    match a[k].parent
    case None => 0
    case Some(p) => |Anc(a, p)|
  }

  /** `par_max_depth`: one more than the longest ancestor walk of any slot's parent;
      equal to `max_depth` from the root of a preorder-numbered arena. */
  function ParMaxDepth(a: Arena): (m: nat)
    requires WellFormed(a)
    ensures exists k :: 0 <= k < |a| && |Anc(a, k)| == m
    ensures forall k :: 0 <= k < |a| ==> |Anc(a, k)| <= m
    ensures Valid(a) ==> m == MaxDepth(a, 0)
  {
    var pd := seq(|a|, k requires 0 <= k < |a| => ParentDepth(a, k));
    ParentDepthsMax(a, pd);
    MaxOf(pd) + 1
  }

  /** The largest parent depth, plus one, is the deepest ancestor walk of any slot,
      and on a preorder-numbered arena the deepest walk below the root. */
  lemma ParentDepthsMax(a: Arena, pd: seq<nat>)
    requires WellFormed(a) && |pd| == |a|
    requires forall k :: 0 <= k < |a| ==> pd[k] == ParentDepth(a, k)
    ensures exists k :: 0 <= k < |a| && |Anc(a, k)| == MaxOf(pd) + 1
    ensures forall k :: 0 <= k < |a| ==> |Anc(a, k)| <= MaxOf(pd) + 1
    ensures Valid(a) ==> MaxOf(pd) + 1 == MaxDepth(a, 0)
  {
    var i :| 0 <= i < |a| && pd[i] == MaxOf(pd);
    assert |Anc(a, i)| == pd[i] + 1;
    forall k | 0 <= k < |a| ensures |Anc(a, k)| <= MaxOf(pd) + 1 {
      assert |Anc(a, k)| == pd[k] + 1;
    }
    if Valid(a) {
      DescInArena(a, 0);
      var d := Depths(a, Desc(a, 0));
      forall k | 0 <= k < |pd| ensures d[k] == pd[k] + 1 {
        assert Desc(a, 0)[k] == k;
      }
      MaxOfShift(pd, d);
    }
  }

  /** The fold of `unique_roles`: keep each role the first time it is met. */
  function DedupFold(s: seq<Role>): (u: seq<Role>)
    ensures NoDups(u)
    ensures forall x :: x in u <==> x in s
    ensures forall i, j :: 0 <= i < j < |u| ==> IndexOf(s, u[i]) < IndexOf(s, u[j])
    decreases |s|
  {
    if s == [] then []
    else
      var p := s[..|s| - 1];
      var x := s[|s| - 1];
      assert s == p + [x];
      var u := DedupFold(p);
      IndexOfExtend(p, x);
      if x in u then u
      else
        assert forall i :: 0 <= i < |u| ==> IndexOf(p, u[i]) < |p|;
        u + [x]
  }

  /** `unique_roles`: the roles of the subtree of `root`, each once, in the order of
      their first preorder occurrence. */
  function UniqueRoles(a: Arena, root: Id): (u: seq<Role>)
    requires WellFormed(a) && root < |a|
    ensures NoDups(u)
    ensures forall x :: x in u <==> x in SubtreeRoles(a, root)
    ensures forall i, j :: 0 <= i < j < |u| ==>
      FirstPosition(a, root, u[i]) < FirstPosition(a, root, u[j])
  {
    DescInArena(a, root);
    var rs := RolesOf(a, Desc(a, root));
    assert forall x :: x in rs <==> x in SubtreeRoles(a, root) by {
      forall x ensures x in rs <==> x in SubtreeRoles(a, root) {
        if x in rs {
          var i :| 0 <= i < |rs| && rs[i] == x;
          assert Desc(a, root)[i] in Desc(a, root);
        }
        if x in SubtreeRoles(a, root) {
          var y :| y in Desc(a, root) && a[y].role == x;
          var i :| 0 <= i < |Desc(a, root)| && Desc(a, root)[i] == y;
          assert rs[i] == x;
        }
      }
    }
    var u := DedupFold(rs);
    assert forall i, j :: 0 <= i < j < |u| ==>
      FirstPosition(a, root, u[i]) < FirstPosition(a, root, u[j]) by {
      forall i, j | 0 <= i < j < |u|
        ensures FirstPosition(a, root, u[i]) < FirstPosition(a, root, u[j])
      {
        FirstCarrierPosition(a, Desc(a, root), u[i]);
        FirstCarrierPosition(a, Desc(a, root), u[j]);
      }
    }
    u
  }

  /** Where the first node of the walk from `root` carrying `r` sits in that walk. */
  ghost function FirstPosition(a: Arena, root: Id, r: Role): (p: nat)
    requires WellFormed(a) && root < |a| && r in SubtreeRoles(a, root)
    ensures p < |Desc(a, root)| && FindFirst(a, root, r) == Some(Desc(a, root)[p])
  {
    DescInArena(a, root);
    IndexOf(Desc(a, root), FindFirst(a, root, r).value)
  }

  function Concat<T(!new)>(parts: seq<seq<T>>): (s: seq<T>)
    ensures forall x :: x in s <==> exists i :: 0 <= i < |parts| && x in parts[i]
  {
    if parts == [] then []
    else
      var rest := Concat(parts[1..]);
      assert forall i :: 1 <= i < |parts| ==> parts[i] == parts[1..][i - 1];
      parts[0] + rest
  }

  /** The per-chunk folds of `par_unique_roles`, flattened. */
  function ChunkFolds(parts: seq<seq<Role>>): (s: seq<Role>)
    ensures forall x :: x in s <==> x in Concat(parts)
  {
    if parts == [] then []
    else
      var rest := ChunkFolds(parts[1..]);
      assert forall i :: 1 <= i < |parts| ==> parts[i] == parts[1..][i - 1];
      DedupFold(parts[0]) + rest
  }

  /** Place `x` into a sorted sequence. */
  function InsertSorted(x: Role, s: seq<Role>): (r: seq<Role>)
    requires Sorted(s)
    ensures Sorted(r)
    ensures multiset(r) == multiset(s) + multiset{x}
    ensures forall e :: e in r ==> e in s || e == x
  {
    if s == [] then [x]
    else if x <= s[0] then [x] + s
    else
      var rest := InsertSorted(x, s[1..]);
      AboveHead(s, x, rest);
      assert s == [s[0]] + s[1..];
      SortedCons(s[0], rest);
      [s[0]] + rest
  }

  /** What is inserted after the head of a sorted sequence is no smaller than it. */
  lemma AboveHead(s: seq<Role>, x: Role, rest: seq<Role>)
    requires Sorted(s) && s != [] && s[0] < x
    requires forall e :: e in rest ==> e in s[1..] || e == x
    ensures forall i :: 0 <= i < |rest| ==> s[0] <= rest[i]
  {
    forall i | 0 <= i < |rest| ensures s[0] <= rest[i] {
      assert rest[i] in rest;
      if rest[i] != x {
        var j :| 0 <= j < |s[1..]| && s[1..][j] == rest[i];
        assert s[j + 1] == rest[i];
      }
    }
  }

  lemma SortedCons(h: Role, rest: seq<Role>)
    requires Sorted(rest)
    requires forall i :: 0 <= i < |rest| ==> h <= rest[i]
    ensures Sorted([h] + rest)
  {
  }

  /** `par_sort_unstable_by` on role codes: a sorted permutation of the input. */
  function SortRoles(s: seq<Role>): (r: seq<Role>)
    ensures Sorted(r)
    ensures multiset(r) == multiset(s)
  {
    if s == [] then []
    else
      assert s == [s[0]] + s[1..];
      InsertSorted(s[0], SortRoles(s[1..]))
  }

  /** `Vec::dedup`: drop every element equal to its predecessor. On sorted input the
      result is strictly ascending. */
  function Dedup(s: seq<Role>): (r: seq<Role>)
    ensures forall x :: x in r <==> x in s
    ensures Sorted(s) ==> StrictlyAscending(r)
    ensures |r| > 0 ==> |s| > 0 && r[0] == s[0]
  {
    if |s| <= 1 then s
    else
      var rest := Dedup(s[1..]);
      assert forall x :: x in s <==> x == s[0] || x in s[1..];
      if s[0] == s[1] then rest else [s[0]] + rest
  }

  /** `par_unique_roles`: the roles of all arena slots, each once, in ascending
      order. `parts` is how the parallel fold happened to split the slots; the
      result does not depend on it. */
  function ParUniqueRoles(a: Arena, parts: seq<seq<Role>>): (u: seq<Role>)
    requires Concat(parts) == NodeRoles(a)
    ensures StrictlyAscending(u)
    ensures forall x :: x in u <==> exists k :: 0 <= k < |a| && a[k].role == x
  {
    var folds := ChunkFolds(parts);
    var s := SortRoles(folds);
    assert forall x :: x in s <==> x in folds by {
      forall x ensures x in s <==> x in folds {
        assert x in s <==> x in multiset(s);
        assert x in folds <==> x in multiset(folds);
      }
    }
    assert forall x :: x in NodeRoles(a) <==> exists k :: 0 <= k < |a| && a[k].role == x by {
      forall x ensures x in NodeRoles(a) <==> exists k :: 0 <= k < |a| && a[k].role == x {
        if x in NodeRoles(a) {
          var k :| 0 <= k < |a| && NodeRoles(a)[k] == x;
        }
        if exists k :: 0 <= k < |a| && a[k].role == x {
          var k :| 0 <= k < |a| && a[k].role == x;
          assert NodeRoles(a)[k] == x;
        }
      }
    }
    Dedup(s)
  }

  /** `unique_roles_roleset`: the members of the root's summary in ascending order. */
  function UniqueRolesRoleset(rs: seq<RoleSet>, root: Id): (u: seq<Role>)
    requires root < |rs|
    ensures StrictlyAscending(u)
    ensures forall x :: x in u <==> x in rs[root]
  {
    RoleIter(rs[root])
  }

  // ---------------------------------------------------------------------------
  // Lemmas.
  // ---------------------------------------------------------------------------

  /** Filtering distributes over concatenation. */
  lemma {:induction false} FilterRoleConcat(a: Arena, xs: seq<Id>, ys: seq<Id>, r: Role)
    requires InArena(a, xs) && InArena(a, ys)
    ensures InArena(a, xs + ys)
    ensures FilterRole(a, xs + ys, r) == FilterRole(a, xs, r) + FilterRole(a, ys, r)
    decreases |xs|
  {
    if xs != [] {
      assert (xs + ys)[1..] == xs[1..] + ys;
      FilterRoleConcat(a, xs[1..], ys, r);
    } else {
      assert xs + ys == ys;
    }
  }

  /** A walk in which no node carries `r` filters to nothing. */
  lemma {:induction false} FilterRoleNone(a: Arena, xs: seq<Id>, r: Role)
    requires InArena(a, xs)
    requires forall i :: 0 <= i < |xs| ==> a[xs[i]].role != r
    ensures FilterRole(a, xs, r) == []
    decreases |xs|
  {
    if xs != [] {
      FilterRoleNone(a, xs[1..], r);
    }
  }

  /** The first match is the head of the filtered walk, so two walks with the same
      filtered sequence find the same node. */
  lemma {:induction false} FirstIsHeadOfFilter(a: Arena, xs: seq<Id>, r: Role)
    requires InArena(a, xs)
    ensures var s := FilterRole(a, xs, r);
      FirstWithRole(a, xs, r) == if s == [] then None else Some(s[0])
    decreases |xs|
  {
    if xs != [] {
      FirstIsHeadOfFilter(a, xs[1..], r);
    }
  }

  /** Counting a storage-order prefix of the arena counts the matching slots. */
  lemma {:induction false} CountRange(a: Arena, hi: nat, r: Role)
    requires hi <= |a|
    ensures |FilterRole(a, Range(0, hi), r)| == |set k | 0 <= k < hi && a[k].role == r|
    decreases hi
  {
    if hi > 0 {
      CountRange(a, hi - 1, r);
      assert Range(0, hi) == Range(0, hi - 1) + [hi - 1];
      FilterRoleConcat(a, Range(0, hi - 1), [hi - 1], r);
      MatchingBelowStep(a, hi, r);
    }
  }

  /** On a walk without repeats, the filter on `r` has one entry per matching node. */
  lemma {:induction false} FilterCount(a: Arena, xs: seq<Id>, r: Role)
    requires InArena(a, xs) && NoDups(xs)
    ensures forall x :: x in xs ==> x < |a|
    ensures |FilterRole(a, xs, r)| == |set x | x in xs && a[x].role == r|
    decreases |xs|
  {
    MembersBound(a, xs);
    if xs != [] {
      TailNoDups(xs);
      MembersBound(a, xs[1..]);
      FilterCount(a, xs[1..], r);
      MatchingConsStep(a, xs, r);
    }
  }

  lemma MembersBound(a: Arena, xs: seq<Id>)
    requires InArena(a, xs)
    ensures forall x :: x in xs ==> x < |a|
  {
  }

  lemma MatchingConsStep(a: Arena, xs: seq<Id>, r: Role)
    requires |xs| > 0 && xs[0] < |a| && xs[0] !in xs[1..]
    requires forall x :: x in xs ==> x < |a|
    requires forall x :: x in xs[1..] ==> x < |a|
    ensures |set x | x in xs && a[x].role == r| ==
            |set x | x in xs[1..] && a[x].role == r| + (if a[xs[0]].role == r then 1 else 0)
  {
    var below := set x | x in xs[1..] && a[x].role == r;
    assert forall x :: x in xs <==> x == xs[0] || x in xs[1..];
    if a[xs[0]].role == r {
      assert (set x | x in xs && a[x].role == r) == below + {xs[0]};
    } else {
      assert (set x | x in xs && a[x].role == r) == below;
    }
  }

  lemma MatchingBelowStep(a: Arena, hi: nat, r: Role)
    requires 0 < hi <= |a|
    ensures |set k | 0 <= k < hi && a[k].role == r| ==
            |set k | 0 <= k < hi - 1 && a[k].role == r| + (if a[hi - 1].role == r then 1 else 0)
  {
    var below := set k | 0 <= k < hi - 1 && a[k].role == r;
    if a[hi - 1].role == r {
      assert (set k | 0 <= k < hi && a[k].role == r) == below + {hi - 1};
    } else {
      assert (set k | 0 <= k < hi && a[k].role == r) == below;
    }
  }

  /** Adding one to every element adds one to the maximum. */
  lemma MaxOfShift(s: seq<nat>, t: seq<nat>)
    requires |s| == |t| > 0
    requires forall i :: 0 <= i < |s| ==> t[i] == s[i] + 1
    ensures MaxOf(t) == MaxOf(s) + 1
  {
    var i :| 0 <= i < |s| && s[i] == MaxOf(s);
    var j :| 0 <= j < |t| && t[j] == MaxOf(t);
    assert t[i] <= MaxOf(t);
    assert s[j] <= MaxOf(s);
  }

  /** Appending one element leaves the first occurrences of earlier elements alone. */
  lemma IndexOfExtend<T>(p: seq<T>, x: T)
    ensures forall y :: y in p ==> IndexOf(p + [x], y) == IndexOf(p, y)
    ensures x !in p ==> IndexOf(p + [x], x) == |p|
  {
    forall y | y in p
      ensures IndexOf(p + [x], y) == IndexOf(p, y)
    {
      var j := IndexOf(p, y);
      assert (p + [x])[..j] == p[..j];
      IndexOfUnique(p + [x], y, j);
    }
    if x !in p {
      assert (p + [x])[..|p|] == p;
      IndexOfUnique(p + [x], x, |p|);
    }
  }

  /** The first node of a walk carrying `r` sits where `r` first occurs among the
      roles of the walk. */
  lemma FirstCarrierPosition(a: Arena, xs: seq<Id>, r: Role)
    requires InArena(a, xs) && r in RolesOf(a, xs)
    ensures FirstWithRole(a, xs, r).Some?
    ensures IndexOf(xs, FirstWithRole(a, xs, r).value) == IndexOf(RolesOf(a, xs), r)
  {
    var rs := RolesOf(a, xs);
    var k := IndexOf(rs, r);
    forall j | 0 <= j < k ensures a[xs[j]].role != r {
      assert rs[..k][j] == rs[j];
    }
    FirstCarrierAt(a, xs, r, k);
  }

  /** A node of a walk that carries `r`, with no carrier before it, is the one
      `FirstWithRole` finds, and it does not occur earlier in the walk. */
  lemma FirstCarrierAt(a: Arena, xs: seq<Id>, r: Role, k: nat)
    requires InArena(a, xs) && k < |xs| && a[xs[k]].role == r
    requires forall j :: 0 <= j < k ==> a[xs[j]].role != r
    ensures FirstWithRole(a, xs, r) == Some(xs[k])
    ensures IndexOf(xs, xs[k]) == k
  {
    var o := FirstWithRole(a, xs, r);
    var i :| 0 <= i < |xs| && xs[i] == o.value && a[xs[i]].role == r &&
               forall j :: 0 <= j < i ==> a[xs[j]].role != r;
    assert i == k;
    var m := IndexOf(xs, xs[k]);
    assert forall t :: 0 <= t < m ==> xs[..m][t] == xs[t];
  }

  /** The first occurrence is the only position not preceded by another occurrence. */
  lemma IndexOfUnique<T>(cs: seq<T>, x: T, i: nat)
    requires i < |cs| && cs[i] == x && x !in cs[..i]
    ensures IndexOf(cs, x) == i
  {
  }

  /** The three unique-role queries agree on an indexed, preorder-numbered arena:
      `unique_roles_roleset` and `par_unique_roles` return the same sequence, and
      `unique_roles` holds the same roles (in first-occurrence order instead). */
  lemma UniqueRolesAgree(a: Arena, rs: seq<RoleSet>, parts: seq<seq<Role>>)
    requires Valid(a) && Indexed(a, rs) && Concat(parts) == NodeRoles(a)
    ensures UniqueRolesRoleset(rs, 0) == ParUniqueRoles(a, parts)
    ensures forall x :: x in UniqueRoles(a, 0) <==> x in ParUniqueRoles(a, parts)
  {
    var u := ParUniqueRoles(a, parts);
    assert IndexedAt(a, rs, 0);
    forall x
      ensures x in rs[0] <==> x in u
    {
      if x in u {
        var k :| 0 <= k < |a| && a[k].role == x;
        assert Range(0, |a|)[k] == k;
        assert k in Desc(a, 0);
      }
      if x in rs[0] {
        var y :| y in Desc(a, 0) && a[y].role == x;
        assert 0 <= y < |a| && a[y].role == x;
      }
    }
    AscendingDetermined(UniqueRolesRoleset(rs, 0), u);
  }
}
