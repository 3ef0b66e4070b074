/** Building the role index (`build_rolesets`): every node's summary ends up holding
    the roles found in its subtree. Both summary flavours are covered: the bitset of
    `Tree` and the counter of `TreeCount`, whose support `.1` is what queries read. */
module Index {
  import opened RoleSets
  import opened ArenaTree
  import opened Construction

  // ---------------------------------------------------------------------------
  // Reference definitions.
  // ---------------------------------------------------------------------------

  /** The union of the sets `c[x]` over the nodes `x` of `y`'s subtree. */
  ghost function UnionBelow(a: Arena, c: seq<RoleSet>, y: Id): RoleSet
    requires WellFormed(a) && |c| == |a| && y < |a|
  {
    DescBounds(a, y);
    set x, q | x in Desc(a, y) && q in c[x] :: q
  }

  /** Every node's summary is exactly the set of roles in its subtree. */
  ghost predicate Indexed(a: Arena, rs: seq<RoleSet>) {
    && WellFormed(a)
    && |rs| == |a|
    && forall y :: 0 <= y < |a| ==> IndexedAt(a, rs, y)
  }

  /** The summary of node `y` is the set of roles in its subtree. */
  ghost predicate IndexedAt(a: Arena, rs: seq<RoleSet>, y: Id)
    requires WellFormed(a) && |rs| == |a| && y < |a|
  {
    rs[y] == SubtreeRoles(a, y)
  }

  /** The summaries `build_rolesets` leaves behind on a `Tree` whose summaries were
      `init`: a node gathers the roles of its subtree and everything its subtree's
      nodes held before. */
  ghost function Built(a: Arena, init: seq<RoleSet>): (r: seq<RoleSet>)
    requires WellFormed(a) && |init| == |a|
    ensures |r| == |a|
  {
    seq(|a|, y requires 0 <= y < |a| => SubtreeRoles(a, y) + UnionBelow(a, init, y))
  }

  /** The supports `build_rolesets` leaves behind on a `TreeCount`: a node's own
      support grows by the roles of its subtree (only roles are merged upwards,
      never whole counters). */
  ghost function BuiltSupport(a: Arena, init: seq<RoleCount>): (r: seq<RoleSet>)
    requires WellFormed(a) && |init| == |a|
    ensures |r| == |a|
  {
    seq(|a|, y requires 0 <= y < |a| => init[y].support + SubtreeRoles(a, y))
  }

  /** What one visit contributes to each node on its ancestor chain. */
  function Contribution(a: Arena, init: seq<RoleSet>): (c: seq<RoleSet>)
    requires |init| == |a|
    ensures |c| == |a|
    ensures forall x :: 0 <= x < |a| ==> c[x] == init[x] + {a[x].role}
  {
    seq(|a|, x requires 0 <= x < |a| => init[x] + {a[x].role})
  }

  /** The union of `c[x]` over the visits `x < i` whose ancestor chain holds `y`:
      what `y` has received once the first `i` nodes have been visited. */
  ghost function Spread(a: Arena, c: seq<RoleSet>, y: Id, i: nat): RoleSet
    requires WellFormed(a) && |c| == |a| && i <= |a|
  {
    set x, q | 0 <= x < i && y in Anc(a, x) && q in c[x] :: q
  }

  /** The summaries `sup` after `role` is added at every node of `k`'s ancestor chain. */
  function AddAlongChain(a: Arena, sup: seq<RoleSet>, k: Id, role: Role): seq<RoleSet>
    requires WellFormed(a) && k < |a| && |sup| == |a|
  {
    seq(|a|, y requires 0 <= y < |a| => sup[y] + (if y in Anc(a, k) then {role} else {}))
  }

  function Supports(cs: seq<RoleCount>): (r: seq<RoleSet>)
    ensures |r| == |cs|
    ensures forall k :: 0 <= k < |cs| ==> r[k] == cs[k].support
  {
    seq(|cs|, k requires 0 <= k < |cs| => cs[k].support)
  }

  // ---------------------------------------------------------------------------
  // The two builds.
  // ---------------------------------------------------------------------------

  /** `Tree::build_rolesets`: visit every node in preorder; fold its role into its own
      summary, then OR that summary into every node of its ancestor chain (itself
      included). */
  method BuildRolesets(t: Tree) returns (u: Tree)
    requires Valid(t.arena) && t.root == 0 && |t.rolesets| == |t.arena|
    ensures u.arena == t.arena && u.root == t.root
    ensures u.rolesets == Built(t.arena, t.rolesets)
    ensures (forall k :: 0 <= k < |t.rolesets| ==> t.rolesets[k] == {}) ==> Indexed(u.arena, u.rolesets)
  {
    var a := t.arena;
    var init := t.rolesets;
    ghost var c := Contribution(a, init);
    var order := Desc(a, t.root);
    var rs := init;
    var i := 0;
    while i < |order|
      invariant |order| == |a| && 0 <= i <= |a|
      invariant |rs| == |a|
      invariant forall y :: 0 <= y < |a| ==> rs[y] == init[y] + Spread(a, c, y, i)
    {
      var k := order[i];
      assert k == i;
      ghost var before := rs;
      rs := VisitNode(a, rs, k);
      SpreadStep(a, init, before, rs, k);
      i := i + 1;
    }
    SpreadIsBuilt(a, init, rs);
    u := Tree(a, rs, t.root);
    if forall k :: 0 <= k < |init| ==> init[k] == {} {
      BuiltFromEmpty(a, init);
    }
  }

  /** `TreeCount::build_rolesets`: the same walk, but a visited node adds its role to
      its own counter and then adds that role, not its whole counter, to every node of
      its ancestor chain (itself included, so its own count goes up twice). */
  method BuildRolesetsCount(t: TreeCount) returns (u: TreeCount)
    requires Valid(t.arena) && t.root == 0 && |t.counts| == |t.arena|
    requires forall k :: 0 <= k < |t.counts| ==> Consistent(t.counts[k])
    ensures u.arena == t.arena && u.root == t.root && |u.counts| == |t.counts|
    ensures forall k :: 0 <= k < |u.counts| ==> Consistent(u.counts[k])
    ensures Supports(u.counts) == BuiltSupport(t.arena, t.counts)
    ensures (forall k :: 0 <= k < |t.counts| ==> t.counts[k].support == {}) ==>
      Indexed(u.arena, Supports(u.counts))
  {
    var a := t.arena;
    var init := t.counts;
    ghost var none: seq<RoleSet> := seq(|a|, _ => {});
    ghost var c := Contribution(a, none);
    var order := Desc(a, t.root);
    var cs := init;
    ghost var base := Supports(init);
    ghost var sup := base;
    var i := 0;
    while i < |order|
      invariant |order| == |a| && 0 <= i <= |a|
      invariant |cs| == |a|
      invariant forall y :: 0 <= y < |a| ==> Consistent(cs[y])
      invariant sup == Supports(cs)
      invariant forall y :: 0 <= y < |a| ==> sup[y] == base[y] + Spread(a, c, y, i)
    {
      var k := order[i];
      assert k == i;
      cs := VisitNodeCount(a, cs, k);
      ghost var before := sup;
      sup := Supports(cs);
      SpreadStepCount(a, base, none, before, sup, k);
      i := i + 1;
    }
    SpreadIsBuiltSupport(a, init, none, sup);
    u := TreeCount(a, cs, t.root);
    if forall k :: 0 <= k < |init| ==> init[k].support == {} {
      BuiltSupportFromEmpty(a, init);
    }
  }

  /** One visit of `Tree::build_rolesets`: `k` folds its role into its summary, and
      the resulting summary is ORed into every node of `k`'s ancestor chain. */
  method VisitNode(a: Arena, rs: seq<RoleSet>, k: Id) returns (out: seq<RoleSet>)
    requires WellFormed(a) && k < |a| && |rs| == |a|
    ensures |out| == |a|
    ensures forall y :: 0 <= y < |a| ==>
      out[y] == rs[y] + (if y in Anc(a, k) then rs[k] + {a[k].role} else {})
  {
    var r := rs[k := rs[k] + {a[k].role}];
    var leaf := r[k];
    AncBounds(a, k);
    out := OrIntoAncestors(a, r, k, leaf);
  }

  /** One visit of `TreeCount::build_rolesets`: `k` counts its own role, then every
      node of `k`'s ancestor chain counts it once more. */
  method VisitNodeCount(a: Arena, cs: seq<RoleCount>, k: Id) returns (out: seq<RoleCount>)
    requires WellFormed(a) && k < |a| && |cs| == |a|
    requires forall y :: 0 <= y < |a| ==> Consistent(cs[y])
    ensures |out| == |a|
    ensures forall y :: 0 <= y < |a| ==> Consistent(out[y])
    ensures Supports(out) == AddAlongChain(a, Supports(cs), k, a[k].role)
  {
    var leafRole := a[k].role;
    var c := cs[k := Add(cs[k], leafRole)];
    AncBounds(a, k);
    out := AddToAncestors(a, c, k, leafRole);
    assert Supports(c) == Supports(cs)[k := Supports(cs)[k] + {leafRole}];
    ChainAbsorbsOwn(a, Supports(cs), k, leafRole);
  }

  /** The inner loop of `Tree::build_rolesets`: OR `leaf` into every node on the
      ancestor chain of `k`. */
  method OrIntoAncestors(a: Arena, rs: seq<RoleSet>, k: Id, leaf: RoleSet) returns (out: seq<RoleSet>)
    requires WellFormed(a) && k < |a| && |rs| == |a|
    ensures |out| == |a|
    ensures forall y :: 0 <= y < |a| ==> out[y] == rs[y] + (if y in Anc(a, k) then leaf else {})
  {
    var anc := Anc(a, k);
    AncBounds(a, k);
    out := rs;
    var j := 0;
    while j < |anc|
      invariant 0 <= j <= |anc| && |out| == |a|
      invariant forall y :: 0 <= y < |a| ==> out[y] == rs[y] + (if y in anc[..j] then leaf else {})
    {
      assert anc[j] in anc;
      out := out[anc[j] := out[anc[j]] + leaf];
      assert anc[..j + 1] == anc[..j] + [anc[j]];
      j := j + 1;
    }
    assert anc[..j] == anc;
  }

  /** The inner loop of `TreeCount::build_rolesets`: add one occurrence of `role` to
      every counter on the ancestor chain of `k`. */
  method AddToAncestors(a: Arena, cs: seq<RoleCount>, k: Id, role: Role) returns (out: seq<RoleCount>)
    requires WellFormed(a) && k < |a| && |cs| == |a|
    requires forall y :: 0 <= y < |a| ==> Consistent(cs[y])
    ensures |out| == |a|
    ensures forall y :: 0 <= y < |a| ==> Consistent(out[y])
    ensures Supports(out) == AddAlongChain(a, Supports(cs), k, role)
  {
    var anc := Anc(a, k);
    AncBounds(a, k);
    out := cs;
    var j := 0;
    while j < |anc|
      invariant 0 <= j <= |anc| && |out| == |a|
      invariant forall y :: 0 <= y < |a| ==> Consistent(out[y])
      invariant forall y :: 0 <= y < |a| ==>
        out[y].support == cs[y].support + (if y in anc[..j] then {role} else {})
    {
      assert anc[j] in anc;
      out := out[anc[j] := Add(out[anc[j]], role)];
      assert anc[..j + 1] == anc[..j] + [anc[j]];
      j := j + 1;
    }
    assert anc[..j] == anc;
  }

  // ---------------------------------------------------------------------------
  // Lemmas.
  // ---------------------------------------------------------------------------

  /** Visiting node `k` after nodes `0..k` extends what each node has received by
      the contribution of `k`. */
  lemma SpreadStep(a: Arena, init: seq<RoleSet>, rs: seq<RoleSet>, out: seq<RoleSet>, k: Id)
    requires WellFormed(a) && |init| == |a| && |rs| == |a| && |out| == |a| && k < |a|
    requires forall y :: 0 <= y < |a| ==> rs[y] == init[y] + Spread(a, Contribution(a, init), y, k)
    requires forall y :: 0 <= y < |a| ==>
      out[y] == rs[y] + (if y in Anc(a, k) then rs[k] + {a[k].role} else {})
    ensures forall y :: 0 <= y < |a| ==> out[y] == init[y] + Spread(a, Contribution(a, init), y, k + 1)
  {
    var c := Contribution(a, init);
    SpreadBefore(a, c, k, k);
    forall y | 0 <= y < |a|
      ensures out[y] == init[y] + Spread(a, c, y, k + 1)
    {
      SpreadSucc(a, c, y, k);
    }
  }

  lemma SpreadStepCount(a: Arena, base: seq<RoleSet>, none: seq<RoleSet>,
                        sup: seq<RoleSet>, out: seq<RoleSet>, k: Id)
    requires WellFormed(a) && |base| == |a| && |none| == |a| && |sup| == |a| && |out| == |a| && k < |a|
    requires forall x :: 0 <= x < |none| ==> none[x] == {}
    requires forall y :: 0 <= y < |a| ==> sup[y] == base[y] + Spread(a, Contribution(a, none), y, k)
    requires out == AddAlongChain(a, sup, k, a[k].role)
    ensures forall y :: 0 <= y < |a| ==> out[y] == base[y] + Spread(a, Contribution(a, none), y, k + 1)
  {
    forall y | 0 <= y < |a|
      ensures out[y] == base[y] + Spread(a, Contribution(a, none), y, k + 1)
    {
      SpreadSucc(a, Contribution(a, none), y, k);
    }
  }

  /** Adding `role` to `k`'s own summary first changes nothing once it is added along
      the chain, which starts at `k`. */
  lemma ChainAbsorbsOwn(a: Arena, sup: seq<RoleSet>, k: Id, role: Role)
    requires WellFormed(a) && k < |a| && |sup| == |a|
    ensures AddAlongChain(a, sup[k := sup[k] + {role}], k, role) == AddAlongChain(a, sup, k, role)
  {
    AncBounds(a, k);
    assert k in Anc(a, k);
  }

  /** Summaries that hold, at every node, what the whole walk spread to it are the
      built summaries. */
  lemma SpreadIsBuilt(a: Arena, init: seq<RoleSet>, rs: seq<RoleSet>)
    requires WellFormed(a) && |init| == |a| && |rs| == |a|
    requires forall y :: 0 <= y < |a| ==> rs[y] == init[y] + Spread(a, Contribution(a, init), y, |a|)
    ensures rs == Built(a, init)
  {
    forall y | 0 <= y < |a|
      ensures rs[y] == Built(a, init)[y]
    {
      SpreadIsBuiltAt(a, init, y);
    }
  }

  lemma SpreadIsBuiltAt(a: Arena, init: seq<RoleSet>, y: Id)
    requires WellFormed(a) && |init| == |a| && y < |a|
    ensures init[y] + Spread(a, Contribution(a, init), y, |a|) == Built(a, init)[y]
  {
    SpreadWhole(a, Contribution(a, init), y);
    UnionBelowContribution(a, init, y);
    DescBounds(a, y);
    assert init[y] <= UnionBelow(a, init, y) by {
      forall q | q in init[y] ensures q in UnionBelow(a, init, y) {
        assert y in Desc(a, y);
      }
    }
  }

  lemma SpreadIsBuiltSupport(a: Arena, init: seq<RoleCount>, none: seq<RoleSet>, sup: seq<RoleSet>)
    requires WellFormed(a) && |init| == |a| && |none| == |a| && |sup| == |a|
    requires forall k :: 0 <= k < |none| ==> none[k] == {}
    requires forall y :: 0 <= y < |a| ==>
      sup[y] == Supports(init)[y] + Spread(a, Contribution(a, none), y, |a|)
    ensures sup == BuiltSupport(a, init)
  {
    forall y | 0 <= y < |a|
      ensures sup[y] == BuiltSupport(a, init)[y]
    {
      SpreadIsBuiltSupportAt(a, init, none, y);
    }
  }

  lemma SpreadIsBuiltSupportAt(a: Arena, init: seq<RoleCount>, none: seq<RoleSet>, y: Id)
    requires WellFormed(a) && |init| == |a| && |none| == |a| && y < |a|
    requires forall k :: 0 <= k < |none| ==> none[k] == {}
    ensures init[y].support + Spread(a, Contribution(a, none), y, |a|) == BuiltSupport(a, init)[y]
  {
    SpreadWhole(a, Contribution(a, none), y);
    UnionBelowContribution(a, none, y);
    UnionBelowEmpty(a, none, y);
  }

  /** Before `y` is visited, no earlier visit has `y` on its ancestor chain. */
  lemma SpreadBefore(a: Arena, c: seq<RoleSet>, y: Id, i: nat)
    requires WellFormed(a) && |c| == |a| && i <= y && i <= |a|
    ensures Spread(a, c, y, i) == {}
  {
    forall x | 0 <= x < i
      ensures y !in Anc(a, x)
    {
      AncBounds(a, x);
    }
  }

  /** One more visit adds the contribution of the visited node, if `y` is on its chain. */
  lemma SpreadSucc(a: Arena, c: seq<RoleSet>, y: Id, i: nat)
    requires WellFormed(a) && |c| == |a| && i < |a|
    ensures Spread(a, c, y, i + 1) == Spread(a, c, y, i) + (if y in Anc(a, i) then c[i] else {})
  {
  }

  /** Once every node has been visited, `y` has received the union over its subtree. */
  lemma SpreadWhole(a: Arena, c: seq<RoleSet>, y: Id)
    requires WellFormed(a) && |c| == |a| && y < |a|
    ensures Spread(a, c, y, |a|) == UnionBelow(a, c, y)
  {
    DescBounds(a, y);
    forall q: Role
      ensures q in Spread(a, c, y, |a|) <==> q in UnionBelow(a, c, y)
    {
      if q in Spread(a, c, y, |a|) {
        var x :| 0 <= x < |a| && y in Anc(a, x) && q in c[x];
        AncestorIffDescendant(a, x, y);
      }
      if q in UnionBelow(a, c, y) {
        var x :| x in Desc(a, y) && q in c[x];
        AncestorIffDescendant(a, x, y);
        assert 0 <= x < |a| && y in Anc(a, x) && q in c[x];
      }
    }
  }

  lemma UnionBelowContribution(a: Arena, init: seq<RoleSet>, y: Id)
    requires WellFormed(a) && |init| == |a| && y < |a|
    ensures UnionBelow(a, Contribution(a, init), y) == SubtreeRoles(a, y) + UnionBelow(a, init, y)
  {
    DescBounds(a, y);
  }

  lemma UnionBelowEmpty(a: Arena, c: seq<RoleSet>, y: Id)
    requires WellFormed(a) && |c| == |a| && y < |a|
    requires forall k :: 0 <= k < |c| ==> c[k] == {}
    ensures UnionBelow(a, c, y) == {}
  {
    DescBounds(a, y);
  }

  /** Indexing a freshly loaded tree (all summaries empty) yields exactly the subtree
      role sets. */
  lemma BuiltFromEmpty(a: Arena, init: seq<RoleSet>)
    requires WellFormed(a) && |init| == |a|
    requires forall k :: 0 <= k < |init| ==> init[k] == {}
    ensures Indexed(a, Built(a, init))
  {
    forall y | 0 <= y < |a|
      ensures UnionBelow(a, init, y) == {}
    {
      UnionBelowEmpty(a, init, y);
    }
  }

  /** The counting flavour, loaded fresh and indexed, exposes the same index. */
  lemma BuiltSupportFromEmpty(a: Arena, init: seq<RoleCount>)
    requires WellFormed(a) && |init| == |a|
    requires forall k :: 0 <= k < |init| ==> init[k].support == {}
    ensures Indexed(a, BuiltSupport(a, init))
  {
  }

  /** `Tree::from_root_node` and `TreeCount::from_root_node` load the same arena with
      the same (empty) summaries, and building either index leaves the same summaries
      for the queries to read. */
  lemma FlavoursAgree(t: A11yNode)
    ensures FromRootNodeCount(t).arena == FromRootNode(t).arena
    ensures Supports(FromRootNodeCount(t).counts) == FromRootNode(t).rolesets
    ensures var a := FromRootNode(t).arena;
      BuiltSupport(a, FromRootNodeCount(t).counts) == Built(a, FromRootNode(t).rolesets)
  {
    var u, v := FromRootNode(t), FromRootNodeCount(t);
    var a := u.arena;
    forall y | 0 <= y < |a|
      ensures BuiltSupport(a, v.counts)[y] == Built(a, u.rolesets)[y]
    {
      UnionBelowEmpty(a, u.rolesets, y);
    }
  }

  /** Running `build_rolesets` a second time changes nothing. */
  lemma BuiltIdempotent(a: Arena, init: seq<RoleSet>)
    requires WellFormed(a) && |init| == |a|
    ensures Built(a, Built(a, init)) == Built(a, init)
  {
    var b := Built(a, init);
    forall y | 0 <= y < |a|
      ensures Built(a, b)[y] == b[y]
    {
      DescBounds(a, y);
      forall q | q in UnionBelow(a, b, y)
        ensures q in b[y]
      {
        var x :| x in Desc(a, y) && q in b[x];
        DescBounds(a, x);
        if q in SubtreeRoles(a, x) {
          var z :| z in Desc(a, x) && a[z].role == q;
          DescTransitive(a, y, x, z);
        } else {
          var z :| z in Desc(a, x) && q in init[z];
          DescTransitive(a, y, x, z);
        }
      }
      assert b[y] <= UnionBelow(a, b, y) by {
        assert y in Desc(a, y);
      }
    }
  }
}
