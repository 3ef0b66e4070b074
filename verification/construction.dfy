/** Loading an input tree value into the arena (`from_a11y_node` /
    `from_root_node`), and the proof that the arena handles it hands out follow
    preorder: a parent is inserted before its children, and the children are
    appended in input order. */
module Construction {
  import opened RoleSets
  import opened ArenaTree

  /** `A11yNode`: the recursive input value, a role and the ordered children. */
  datatype A11yNode = A11yNode(role: Role, children: seq<A11yNode>)

  /** The boolean-summary tree `Tree`: the arena, one `RoleSet` per node and the root. */
  datatype Tree = Tree(arena: Arena, rolesets: seq<RoleSet>, root: Id)

  /** The counting tree `TreeCount`: the arena, one `RoleSetVecCount` per node and the root. */
  datatype TreeCount = TreeCount(arena: Arena, counts: seq<RoleCount>, root: Id)

  function Size(t: A11yNode): nat {
    1 + ForestSize(t.children)
  }

  function ForestSize(ts: seq<A11yNode>): nat {
    if ts == [] then 0 else Size(ts[0]) + ForestSize(ts[1..])
  }

  /** The roles of the input tree in preorder: node first, then children left to right. */
  function Preorder(t: A11yNode): seq<Role> {
    [t.role] + ForestPreorder(t.children)
  }

  function ForestPreorder(ts: seq<A11yNode>): seq<Role> {
    if ts == [] then [] else Preorder(ts[0]) + ForestPreorder(ts[1..])
  }

  /** The roles stored in a run of arena slots, in slot order. */
  function NodeRoles(s: seq<Node>): (r: seq<Role>)
    ensures |r| == |s|
    ensures forall i :: 0 <= i < |s| ==> r[i] == s[i].role
  {
    seq(|s|, i requires 0 <= i < |s| => s[i].role)
  }

  // ---------------------------------------------------------------------------
  // The construction as the source performs it.
  // ---------------------------------------------------------------------------

  /** `NodeId::append`: make `c` the last child of `p`. */
  function Append(a: Arena, p: Id, c: Id): (r: Arena)
    requires p < |a| && c < |a| && p != c
    ensures |r| == |a|
    ensures r[c].parent == Some(p) && r[p].children == a[p].children + [c]
    ensures r[c] == a[c].(parent := Some(p)) && r[p] == a[p].(children := a[p].children + [c])
    ensures forall y :: 0 <= y < |a| && y != p && y != c ==> r[y] == a[y]
  {
    var a1 := a[c := a[c].(parent := Some(p))];
    a1[p := a1[p].(children := a1[p].children + [c])]
  }

  /** `Node::from_a11y_node`: allocate a fresh parentless slot for `t` (its summary is
      the empty default), then load each child in input order and append it. Returns
      the grown arena and the new node's handle. */
  function Insert(t: A11yNode, a: Arena): (r: (Arena, Id))
    ensures |r.0| == |a| + Size(t) && r.1 == |a|
  {
    var id := |a|;
    (InsertForest(t.children, a + [Node(t.role, None, [])], id), id)
  }

  function InsertForest(ts: seq<A11yNode>, a: Arena, p: Id): (r: Arena)
    requires p < |a|
    ensures |r| == |a| + ForestSize(ts)
  {
    if ts == [] then a
    else
      var (a1, c) := Insert(ts[0], a);
      InsertForest(ts[1..], Append(a1, p, c), p)
  }

  /** `from_root_node`: load the input into an empty arena, all rolesets empty. */
  function FromRootNode(t: A11yNode): (r: Tree)
    ensures Valid(r.arena) && r.root == 0
    ensures |r.arena| == Size(t) && |r.rolesets| == |r.arena|
    ensures NodeRoles(r.arena) == Preorder(t)
    ensures forall k :: 0 <= k < |r.rolesets| ==> r.rolesets[k] == {}
    ensures ToA11y(r.arena, r.root) == t
  {
    var (arena, root) := Insert(t, []);
    LoadedArena(t);
    Tree(arena, seq(|arena|, _ => {}), root)
  }

  /** `TreeCount::from_root_node`: the same arena, every counter at zero. */
  function FromRootNodeCount(t: A11yNode): (r: TreeCount)
    ensures Valid(r.arena) && r.root == 0
    ensures |r.arena| == Size(t) && |r.counts| == |r.arena|
    ensures NodeRoles(r.arena) == Preorder(t)
    ensures forall k :: 0 <= k < |r.counts| ==> Consistent(r.counts[k]) && r.counts[k].support == {}
    ensures ToA11y(r.arena, r.root) == t
  {
    var (arena, root) := Insert(t, []);
    LoadedArena(t);
    TreeCount(arena, seq(|arena|, _ => EmptyCount()), root)
  }

  /** Reads the input value back out of the arena, following child lists. */
  function ToA11y(a: Arena, n: Id): A11yNode
    requires WellFormed(a) && n < |a|
    decreases |a| - n, |a[n].children| + 1
  {
    A11yNode(a[n].role, ToA11yKids(a, n, 0))
  }

  function ToA11yKids(a: Arena, n: Id, i: nat): seq<A11yNode>
    requires WellFormed(a) && n < |a| && i <= |a[n].children|
    decreases |a| - n, |a[n].children| - i
  {
    if i == |a[n].children| then []
    else [ToA11y(a, a[n].children[i])] + ToA11yKids(a, n, i + 1)
  }

  // ---------------------------------------------------------------------------
  // The closed form of the construction: a preorder layout.
  // ---------------------------------------------------------------------------

  /** Handles the roots of forest `ts` receive when it is laid out from `off`. */
  function KidIds(ts: seq<A11yNode>, off: nat): seq<Id> {
    if ts == [] then [] else [off] + KidIds(ts[1..], off + Size(ts[0]))
  }

  /** The arena slots of `t` laid out in preorder from handle `b`, with parent `par`. */
  function Layout(t: A11yNode, b: nat, par: Option<Id>): Arena {
    [Node(t.role, par, KidIds(t.children, b + 1))] + LayoutForest(t.children, b + 1, b)
  }

  function LayoutForest(ts: seq<A11yNode>, off: nat, p: Id): Arena {
    if ts == [] then []
    else Layout(ts[0], off, Some(p)) + LayoutForest(ts[1..], off + Size(ts[0]), p)
  }

  lemma {:induction false} LayoutSize(t: A11yNode, b: nat, par: Option<Id>)
    ensures |Layout(t, b, par)| == Size(t)
    ensures NodeRoles(Layout(t, b, par)) == Preorder(t)
    decreases t
  {
    LayoutForestSize(t.children, b + 1, b);
  }

  lemma {:induction false} LayoutForestSize(ts: seq<A11yNode>, off: nat, p: Id)
    ensures |LayoutForest(ts, off, p)| == ForestSize(ts)
    ensures NodeRoles(LayoutForest(ts, off, p)) == ForestPreorder(ts)
    decreases ts
  {
    if ts != [] {
      LayoutSize(ts[0], off, Some(p));
      LayoutForestSize(ts[1..], off + Size(ts[0]), p);
    }
  }

  /** The root handles of a laid-out forest increase and stay inside the forest's range. */
  lemma {:induction false} KidIdsBounds(ts: seq<A11yNode>, off: nat)
    ensures |KidIds(ts, off)| == |ts|
    ensures forall i :: 0 <= i < |ts| ==> off <= KidIds(ts, off)[i] < off + ForestSize(ts)
    ensures forall i, j :: 0 <= i < j < |ts| ==> KidIds(ts, off)[i] < KidIds(ts, off)[j]
    decreases ts
  {
    if ts != [] {
      KidIdsBounds(ts[1..], off + Size(ts[0]));
      var k := KidIds(ts, off);
      assert forall i :: 1 <= i < |ts| ==> k[i] == KidIds(ts[1..], off + Size(ts[0]))[i - 1];
    }
  }

  /** Inserting `t` into `a` appends exactly its preorder layout. */
  lemma {:induction false} InsertIsLayout(t: A11yNode, a: Arena)
    ensures Insert(t, a) == (a + Layout(t, |a|, None), |a|)
    decreases t, 1
  {
    var id := |a|;
    var a0 := a + [Node(t.role, None, [])];
    var kids := KidIds(t.children, id + 1);
    InsertForestIsLayout(t.children, a0, id);
    assert a0[id].children + kids == kids;
    assert a0[id := a0[id].(children := kids)] == a + [Node(t.role, None, kids)];
    assert a + Layout(t, id, None) == a + [Node(t.role, None, kids)] + LayoutForest(t.children, id + 1, id);
  }

  lemma {:induction false} InsertForestIsLayout(ts: seq<A11yNode>, a: Arena, p: Id)
    requires p < |a|
    ensures InsertForest(ts, a, p)
         == a[p := a[p].(children := a[p].children + KidIds(ts, |a|))] + LayoutForest(ts, |a|, p)
    decreases ts
  {
    if ts == [] {
      assert KidIds(ts, |a|) == [];
      assert a[p].children + [] == a[p].children;
      assert a[p := a[p].(children := a[p].children)] == a;
    } else {
      var a2 := a[p := a[p].(children := a[p].children + [|a|])] + Layout(ts[0], |a|, Some(p));
      InsertIsLayout(ts[0], a);
      LayoutSize(ts[0], |a|, Some(p));
      InsertForestIsLayout(ts[1..], a2, p);
      ForestJoin(ts, a, p);
    }
  }

  /** One step of `InsertForestIsLayout`: the first tree's layout and the laid-out
      rest of the forest join up. */
  lemma ForestJoin(ts: seq<A11yNode>, a: Arena, p: Id)
    requires p < |a| && ts != []
    requires Insert(ts[0], a) == (a + Layout(ts[0], |a|, None), |a|)
    requires var m := |a| + Size(ts[0]);
      var a2 := a[p := a[p].(children := a[p].children + [|a|])] + Layout(ts[0], |a|, Some(p));
      |a2| == m &&
      InsertForest(ts[1..], a2, p)
        == a2[p := a2[p].(children := a2[p].children + KidIds(ts[1..], m))] + LayoutForest(ts[1..], m, p)
    ensures InsertForest(ts, a, p)
         == a[p := a[p].(children := a[p].children + KidIds(ts, |a|))] + LayoutForest(ts, |a|, p)
  {
    var m := |a| + Size(ts[0]);
    var l0 := Layout(ts[0], |a|, Some(p));
    var l1 := LayoutForest(ts[1..], m, p);
    var rest := KidIds(ts[1..], m);
    InsertForestHead(ts, a, p);
    assert KidIds(ts, |a|) == [|a|] + rest;
    assert LayoutForest(ts, |a|, p) == l0 + l1;
    ReparentSplice(a, p, |a|, rest, l0, l1);
  }

  /** Inserting a forest first lays out its first tree and lists it under `p`. */
  lemma InsertForestHead(ts: seq<A11yNode>, a: Arena, p: Id)
    requires p < |a| && ts != []
    requires Insert(ts[0], a) == (a + Layout(ts[0], |a|, None), |a|)
    ensures InsertForest(ts, a, p) == InsertForest(ts[1..],
      a[p := a[p].(children := a[p].children + [|a|])] + Layout(ts[0], |a|, Some(p)), p)
  {
    AppendLaidOut(a, ts[0], p);
  }

  /** Listing `c` and then `rest` under `p`, with slots appended in between, is
      the same as listing `[c] + rest` at once. */
  lemma ReparentSplice(a: Arena, p: Id, c: Id, rest: seq<Id>, l0: Arena, l1: Arena)
    requires p < |a|
    ensures var a2 := a[p := a[p].(children := a[p].children + [c])] + l0;
      a2[p := a2[p].(children := a2[p].children + rest)] + l1
      == a[p := a[p].(children := a[p].children + ([c] + rest))] + (l0 + l1)
  {
    var ap := a[p := a[p].(children := a[p].children + [c])];
    var v := ap[p].(children := ap[p].children + rest);
    UpdatePrefix(ap, l0, p, v);
    assert ap[p].children + rest == a[p].children + ([c] + rest);
    assert ap[p := v] == a[p := a[p].(children := a[p].children + ([c] + rest))];
  }

  lemma UpdatePrefix<T>(x: seq<T>, y: seq<T>, p: nat, v: T)
    requires p < |x|
    ensures (x + y)[p := v] == x[p := v] + y
  {
  }

  /** Appending the root of a freshly laid-out subtree under `p` re-parents that root. */
  lemma AppendLaidOut(a: Arena, t: A11yNode, p: Id)
    requires p < |a|
    ensures |a + Layout(t, |a|, None)| > |a|
    ensures Append(a + Layout(t, |a|, None), p, |a|)
         == a[p := a[p].(children := a[p].children + [|a|])] + Layout(t, |a|, Some(p))
  {
    var l0 := Layout(t, |a|, None);
    var l1 := Layout(t, |a|, Some(p));
    assert l1 == l0[0 := l0[0].(parent := Some(p))];
    var a1 := (a + l0)[|a| := (a + l0)[|a|].(parent := Some(p))];
    assert a1 == a + l1;
    UpdatePrefix(a, l1, p, a1[p].(children := a1[p].children + [|a|]));
  }

  // ---------------------------------------------------------------------------
  // Link invariants of a laid-out region.
  // ---------------------------------------------------------------------------

  /** Slots `lo..hi` hold a forest whose roots hang under `p`: every node's children
      stay inside the region, and every node's parent is `p` or an earlier node of
      the region whose child list holds it. */
  ghost predicate ForestOK(a: Arena, lo: nat, hi: nat, p: Id) {
    && lo <= hi <= |a| && p < |a|
    && (forall k :: lo <= k < hi ==> ChildrenOK(a, k, hi))
    && (forall k :: lo <= k < hi ==>
          && a[k].parent.Some?
          && a[k].parent.value < k
          && (a[k].parent.value == p || lo <= a[k].parent.value)
          && k in a[a[k].parent.value].children)
  }

  /** Slots `b..hi` hold one tree whose root has parent `par`. */
  ghost predicate TreeOK(a: Arena, b: nat, hi: nat, par: Option<Id>) {
    && b < hi <= |a|
    && ChildrenOK(a, b, hi)
    && a[b].parent == par
    && ForestOK(a, b + 1, hi, b)
  }

  lemma ForestConcat(a: Arena, lo: nat, m: nat, hi: nat, p: Id)
    requires ForestOK(a, lo, m, p) && ForestOK(a, m, hi, p)
    ensures ForestOK(a, lo, hi, p)
  {
    forall k | lo <= k < hi
      ensures ChildrenOK(a, k, hi)
    {
      if k < m {
        assert ChildrenOK(a, k, m);
      } else {
        assert ChildrenOK(a, k, hi);
      }
    }
  }

  lemma TreeAsForest(a: Arena, b: nat, hi: nat, p: Id)
    requires TreeOK(a, b, hi, Some(p)) && p < b && b in a[p].children
    ensures ForestOK(a, b, hi, p)
  {
    forall k | b <= k < hi
      ensures ChildrenOK(a, k, hi)
    {
      if k > b {
        assert ChildrenOK(a, k, hi);
      }
    }
  }

  /** A region that holds `Layout(t, b, par)` satisfies the link invariants. */
  lemma {:induction false} LayoutTreeOK(a: Arena, t: A11yNode, b: nat, hi: nat, par: Option<Id>)
    requires hi == b + Size(t) <= |a|
    requires a[b..hi] == Layout(t, b, par)
    ensures TreeOK(a, b, hi, par)
    decreases t
  {
    var kids := KidIds(t.children, b + 1);
    assert a[b] == Node(t.role, par, kids) && a[b + 1..hi] == LayoutForest(t.children, b + 1, b) by {
      LayoutRoot(a, t, b, par);
    }
    KidIdsBounds(t.children, b + 1);
    assert ListedUnder(a, kids, b);
    LayoutForestOK(a, t.children, b + 1, hi, b);
    AssembleTree(a, b, hi, par, kids);
  }

  /** A root whose listed children head a forest hung under it forms a tree. */
  lemma AssembleTree(a: Arena, b: nat, hi: nat, par: Option<Id>, kids: seq<Id>)
    requires b < hi <= |a| && a[b].parent == par && a[b].children == kids
    requires forall i :: 0 <= i < |kids| ==> b + 1 <= kids[i] < hi
    requires forall i, j :: 0 <= i < j < |kids| ==> kids[i] < kids[j]
    requires ParentIs(a, kids, b) && ForestOK(a, b + 1, hi, b)
    ensures TreeOK(a, b, hi, par)
  {
  }

  lemma {:induction false} LayoutForestOK(a: Arena, ts: seq<A11yNode>, off: nat, hi: nat, p: Id)
    requires p < off && hi == off + ForestSize(ts) <= |a|
    requires a[off..hi] == LayoutForest(ts, off, p)
    requires ListedUnder(a, KidIds(ts, off), p)
    ensures ForestOK(a, off, hi, p)
    ensures ParentIs(a, KidIds(ts, off), p)
    decreases ts
  {
    if ts != [] {
      var m := off + Size(ts[0]);
      var rest := KidIds(ts[1..], m);
      assert KidIds(ts, off) == [off] + rest
        && a[off..m] == Layout(ts[0], off, Some(p))
        && a[m..hi] == LayoutForest(ts[1..], m, p) by {
        LayoutForestCons(a, ts, off, p);
      }
      ListedUnderCons(a, off, rest, p);
      LayoutTreeOK(a, ts[0], off, m, Some(p));
      LayoutForestOK(a, ts[1..], m, hi, p);
      AssembleForest(a, off, m, hi, p, rest);
    } else {
      EmptyForestOK(a, off, p);
    }
  }

  lemma EmptyForestOK(a: Arena, off: nat, p: Id)
    requires p < off <= |a|
    ensures ForestOK(a, off, off, p)
  {
  }

  /** A tree hung under `p` followed by a forest hung under `p` is a forest under `p`. */
  lemma AssembleForest(a: Arena, off: nat, m: nat, hi: nat, p: Id, rest: seq<Id>)
    requires p < off && TreeOK(a, off, m, Some(p)) && off in a[p].children
    requires ForestOK(a, m, hi, p) && ParentIs(a, rest, p)
    ensures ForestOK(a, off, hi, p) && ParentIs(a, [off] + rest, p)
  {
    TreeAsForest(a, off, m, p);
    ForestConcat(a, off, m, hi, p);
    ParentIsCons(a, off, rest, p);
  }

  /** Every handle of `ks` is listed among `p`'s children. */
  ghost predicate ListedUnder(a: Arena, ks: seq<Id>, p: Id)
    requires p < |a|
  {
    forall i :: 0 <= i < |ks| ==> ks[i] in a[p].children
  }

  /** Every handle of `ks` is a slot of `a` whose parent is `p`. */
  ghost predicate ParentIs(a: Arena, ks: seq<Id>, p: Id) {
    forall i :: 0 <= i < |ks| ==> ks[i] < |a| && a[ks[i]].parent == Some(p)
  }

  lemma ListedUnderCons(a: Arena, k: Id, ks: seq<Id>, p: Id)
    requires p < |a| && ListedUnder(a, [k] + ks, p)
    ensures k in a[p].children && ListedUnder(a, ks, p)
  {
    assert ([k] + ks)[0] == k;
    forall i | 0 <= i < |ks| ensures ks[i] in a[p].children {
      assert ([k] + ks)[i + 1] == ks[i];
    }
  }

  lemma ParentIsCons(a: Arena, k: Id, ks: seq<Id>, p: Id)
    requires k < |a| && a[k].parent == Some(p) && ParentIs(a, ks, p)
    ensures ParentIs(a, [k] + ks, p)
  {
    forall i | 0 <= i < |[k] + ks| ensures ([k] + ks)[i] < |a| && a[([k] + ks)[i]].parent == Some(p) {
      if i > 0 {
        assert ([k] + ks)[i] == ks[i - 1];
      }
    }
  }

  /** Splitting the slots of a non-empty laid-out forest into its first tree and the rest. */
  lemma LayoutForestCons(a: Arena, ts: seq<A11yNode>, off: nat, p: Id)
    requires ts != [] && off + ForestSize(ts) <= |a|
    requires a[off..off + ForestSize(ts)] == LayoutForest(ts, off, p)
    ensures var m := off + Size(ts[0]);
      && a[off..m] == Layout(ts[0], off, Some(p))
      && a[m..off + ForestSize(ts)] == LayoutForest(ts[1..], m, p)
      && KidIds(ts, off) == [off] + KidIds(ts[1..], m)
  {
    var m := off + Size(ts[0]);
    var hi := off + ForestSize(ts);
    LayoutSize(ts[0], off, Some(p));
    SplitSlice(a, off, m, hi, Layout(ts[0], off, Some(p)), LayoutForest(ts[1..], m, p));
  }

  lemma SplitSlice<T>(a: seq<T>, lo: nat, m: nat, hi: nat, x: seq<T>, y: seq<T>)
    requires lo <= m <= hi <= |a| && a[lo..hi] == x + y && |x| == m - lo
    ensures a[lo..m] == x && a[m..hi] == y
  {
    assert a[lo..m] == a[lo..hi][..m - lo];
    assert a[m..hi] == a[lo..hi][m - lo..];
  }

  /** The first slot of a laid-out tree is its root; the rest is the laid-out forest. */
  lemma LayoutRoot(a: Arena, t: A11yNode, b: nat, par: Option<Id>)
    requires b + Size(t) <= |a|
    requires a[b..b + Size(t)] == Layout(t, b, par)
    ensures a[b] == Node(t.role, par, KidIds(t.children, b + 1))
    ensures a[b + 1..b + Size(t)] == LayoutForest(t.children, b + 1, b)
  {
    SplitSlice(a, b, b + 1, b + Size(t), [Node(t.role, par, KidIds(t.children, b + 1))],
      LayoutForest(t.children, b + 1, b));
    assert a[b] == a[b..b + 1][0];
  }

  /** The whole of a laid-out arena is well formed. */
  lemma LayoutWellFormed(a: Arena, t: A11yNode)
    requires a == Layout(t, 0, None)
    ensures WellFormed(a)
  {
    LayoutSize(t, 0, None);
    assert a[0..Size(t)] == a;
    LayoutTreeOK(a, t, 0, |a|, None);
    forall k, i | 0 <= k < |a| && 0 <= i < |a[k].children|
      ensures k < a[k].children[i] < |a| && a[a[k].children[i]].parent == Some(k)
    {
      assert ChildrenOK(a, k, |a|);
    }
    forall k, i, j | 0 <= k < |a| && 0 <= i < j < |a[k].children|
      ensures a[k].children[i] < a[k].children[j]
    {
      assert ChildrenOK(a, k, |a|);
    }
  }

  // ---------------------------------------------------------------------------
  // Walking a laid-out region.
  // ---------------------------------------------------------------------------

  lemma RangeConcat(lo: nat, m: nat, hi: nat)
    requires lo <= m <= hi
    ensures Range(lo, m) + Range(m, hi) == Range(lo, hi)
  {
  }

  /** In a laid-out region, `descendants` visits the handles in increasing order and
      reading the region back yields the input tree. */
  lemma {:induction false} LayoutDesc(a: Arena, t: A11yNode, b: nat, hi: nat, par: Option<Id>)
    requires WellFormed(a) && hi == b + Size(t) <= |a|
    requires a[b..hi] == Layout(t, b, par)
    ensures Desc(a, b) == Range(b, hi)
    ensures ToA11y(a, b) == t
    decreases t
  {
    var kids := KidIds(t.children, b + 1);
    assert a[b] == Node(t.role, par, kids) && a[b + 1..hi] == LayoutForest(t.children, b + 1, b) by {
      LayoutRoot(a, t, b, par);
    }
    assert a[b].children[0..] == kids;
    LayoutForestDesc(a, t.children, b + 1, hi, b, 0);
    RangeConcat(b, b + 1, hi);
  }

  lemma {:induction false} LayoutForestDesc(a: Arena, ts: seq<A11yNode>, off: nat, hi: nat, n: Id, i: nat)
    requires WellFormed(a) && n < |a| && i <= |a[n].children|
    requires hi == off + ForestSize(ts) <= |a|
    requires a[off..hi] == LayoutForest(ts, off, n)
    requires a[n].children[i..] == KidIds(ts, off)
    ensures DescKids(a, n, i) == Range(off, hi)
    ensures ToA11yKids(a, n, i) == ts
    decreases ts
  {
    if ts != [] {
      var m := off + Size(ts[0]);
      var rest := KidIds(ts[1..], m);
      assert KidIds(ts, off) == [off] + rest
        && a[off..m] == Layout(ts[0], off, Some(n))
        && a[m..hi] == LayoutForest(ts[1..], m, n) by {
        LayoutForestCons(a, ts, off, n);
      }
      assert a[n].children[i] == off && a[n].children[i + 1..] == rest by {
        assert a[n].children[i..][0] == a[n].children[i];
        assert a[n].children[i + 1..] == a[n].children[i..][1..];
      }
      LayoutDesc(a, ts[0], off, m, Some(n));
      LayoutForestDesc(a, ts[1..], m, hi, n, i + 1);
      RangeConcat(off, m, hi);
      assert ts == [ts[0]] + ts[1..];
    } else {
      assert |a[n].children[i..]| == 0;
    }
  }

  /** `from_a11y_node` on an empty arena yields a valid arena in which handle `k`
      holds the `k`-th node of the input in preorder, and which reads back as the input. */
  lemma LoadedArena(t: A11yNode)
    ensures var a := Insert(t, []).0;
      && Insert(t, []).1 == 0
      && Valid(a) && |a| == Size(t)
      && NodeRoles(a) == Preorder(t)
      && ToA11y(a, 0) == t
  {
    InsertIsLayout(t, []);
    var a := Insert(t, []).0;
    assert a == Layout(t, 0, None);
    LayoutSize(t, 0, None);
    LayoutWellFormed(a, t);
    assert a[0..Size(t)] == a;
    LayoutDesc(a, t, 0, |a|, None);
  }
}
