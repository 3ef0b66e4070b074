/** The arena that owns every node of a tree, addressed by integer handles, with
    the two walks the rest of the system is built from: `descendants` (preorder
    of a subtree, the node itself first) and `ancestors` (the node itself, then
    its parent chain up to the root). */
module ArenaTree {
  import opened RoleSets

  /** A node handle: an index into the arena. */
  type Id = nat

  /** The shape part of one arena slot: the node's role, its parent handle and its
      children in left-to-right order. Summaries live in a parallel sequence. */
  datatype Node = Node(role: Role, parent: Option<Id>, children: seq<Id>)

  type Arena = seq<Node>

  /** Node `k`'s children lie strictly between `k` and `hi`, increase from left to
      right, and each of them points back to `k` as its parent. */
  ghost predicate ChildrenOK(a: Arena, k: Id, hi: nat)
    requires k < |a|
  {
    && hi <= |a|
    && (forall i :: 0 <= i < |a[k].children| ==>
          k < a[k].children[i] < hi && a[a[k].children[i]].parent == Some(k))
    && (forall i, j :: 0 <= i < j < |a[k].children| ==> a[k].children[i] < a[k].children[j])
  }

  /** The arena invariants every tree built from an input value satisfies: node 0
      is the parentless root, child and parent links agree, and every child has a
      larger handle than its parent. */
  ghost predicate WellFormed(a: Arena) {
    && |a| > 0
    && a[0].parent == None
    && (forall k, i :: 0 <= k < |a| && 0 <= i < |a[k].children| ==>
          k < a[k].children[i] < |a| && a[a[k].children[i]].parent == Some(k))
    && (forall k, i, j :: 0 <= k < |a| && 0 <= i < j < |a[k].children| ==>
          a[k].children[i] < a[k].children[j])
    && (forall k :: 0 <= k < |a| && a[k].parent.Some? ==>
          a[k].parent.value < k && k in a[a[k].parent.value].children)
  }

  function Range(lo: nat, hi: nat): (r: seq<nat>)
    requires lo <= hi
    ensures |r| == hi - lo
    ensures forall i :: 0 <= i < |r| ==> r[i] == lo + i
  {
    seq(hi - lo, i => lo + i)
  }

  /** `NodeId::descendants`: the preorder of `n`'s subtree, starting with `n`. */
  function Desc(a: Arena, n: Id): (r: seq<Id>)
    requires WellFormed(a) && n < |a|
    ensures forall x :: x in r ==> n <= x < |a|
    decreases |a| - n, |a[n].children| + 1
  {
    [n] + DescKids(a, n, 0)
  }

  /** The preorders of the subtrees of children `i..` of `n`, concatenated. */
  function DescKids(a: Arena, n: Id, i: nat): (r: seq<Id>)
    requires WellFormed(a) && n < |a| && i <= |a[n].children|
    ensures forall x :: x in r ==> n < x < |a|
    decreases |a| - n, |a[n].children| - i
  {
    if i == |a[n].children| then []
    else
      Desc(a, a[n].children[i]) + DescKids(a, n, i + 1)
  }

  /** `NodeId::ancestors`: `x` itself, then its parent, and so on up to the root. */
  function Anc(a: Arena, x: Id): seq<Id>
    requires WellFormed(a) && x < |a|
    decreases x
  {
    match a[x].parent
    case None => [x]
    case Some(p) => [x] + Anc(a, p)
  }

  /** `node.first_child()`. */
  function FirstChild(a: Arena, n: Id): Option<Id>
    requires n < |a|
  {
    if a[n].children == [] then None else Some(a[n].children[0])
  }

  /** Position of the first occurrence of `x` in a sequence. */
  function IndexOf<T(==)>(cs: seq<T>, x: T): (i: nat)
    requires x in cs
    ensures i < |cs| && cs[i] == x
    ensures x !in cs[..i]
  {
    if cs[0] == x then 0
    else
      var j := IndexOf(cs[1..], x);
      assert cs[1..][..j] == cs[1..j + 1];
      assert cs[..j + 1] == [cs[0]] + cs[1..j + 1];
      j + 1
  }

  ghost predicate NoDups<T>(s: seq<T>) {
    forall i, j :: 0 <= i < j < |s| ==> s[i] != s[j]
  }

  /** `s` lists members of `xs`, each at most once, in the order they occur in `xs`. */
  ghost predicate InOrderOf<T>(s: seq<T>, xs: seq<T>) {
    && (forall i :: 0 <= i < |s| ==> s[i] in xs)
    && forall i, j :: 0 <= i < j < |s| ==> IndexOf(xs, s[i]) < IndexOf(xs, s[j])
  }

  /** `node.next_sibling()`: the child that follows `x` in its parent's list. */
  function NextSibling(a: Arena, x: Id): (r: Option<Id>)
    requires WellFormed(a) && x < |a|
    ensures r.Some? ==> a[x].parent.Some? && x < r.value < |a| && a[r.value].parent == a[x].parent
  {
    match a[x].parent
    case None => None
    case Some(p) =>
      var cs := a[p].children;
      var i := IndexOf(cs, x);
      if i + 1 < |cs| then Some(cs[i + 1]) else None
  }

  /** The set of roles carried by `n` and all of its descendants. */
  ghost function SubtreeRoles(a: Arena, n: Id): RoleSet
    requires WellFormed(a) && n < |a|
  {
    DescBounds(a, n);
    set x | x in Desc(a, n) :: a[x].role
  }

  /** The arena is a preorder numbering of one tree rooted at 0: walking the
      descendants of the root visits handles 0, 1, 2, ... in order. */
  ghost predicate Valid(a: Arena) {
    WellFormed(a) && Desc(a, 0) == Range(0, |a|)
  }

  // ---------------------------------------------------------------------------
  // Lemmas about the two walks.
  // ---------------------------------------------------------------------------

  /** A child's next sibling is the next entry of the parent's child list. */
  lemma NextSiblingOfChild(a: Arena, n: Id, i: nat)
    requires WellFormed(a) && n < |a| && i < |a[n].children|
    ensures var cs := a[n].children;
      NextSibling(a, cs[i]) == if i + 1 < |cs| then Some(cs[i + 1]) else None
  {
    var cs := a[n].children;
    var j := IndexOf(cs, cs[i]);
  }

  /** Every handle in `n`'s subtree is at least `n`, and `n` comes first. */
  lemma {:induction false} DescBounds(a: Arena, n: Id)
    requires WellFormed(a) && n < |a|
    ensures Desc(a, n)[0] == n
    ensures forall x :: x in Desc(a, n) ==> n <= x < |a|
    decreases |a| - n, |a[n].children| + 1
  {
    DescKidsBounds(a, n, 0);
  }

  lemma {:induction false} DescKidsBounds(a: Arena, n: Id, i: nat)
    requires WellFormed(a) && n < |a| && i <= |a[n].children|
    ensures forall x :: x in DescKids(a, n, i) ==> n < x < |a|
    decreases |a| - n, |a[n].children| - i
  {
    if i < |a[n].children| {
      DescBounds(a, a[n].children[i]);
      DescKidsBounds(a, n, i + 1);
    }
  }

  /** The subtrees of children `i..` are exactly what `DescKids` lists. */
  lemma {:induction false} DescKidsMember(a: Arena, n: Id, i: nat, x: Id)
    requires WellFormed(a) && n < |a| && i <= |a[n].children|
    ensures x in DescKids(a, n, i) <==>
      exists j :: i <= j < |a[n].children| && x in Desc(a, a[n].children[j])
    decreases |a[n].children| - i
  {
    var ch := a[n].children;
    if i < |ch| {
      DescKidsMember(a, n, i + 1, x);
      assert DescKids(a, n, i) == Desc(a, ch[i]) + DescKids(a, n, i + 1);
      SomeChildSplit(a, n, i, x);
    }
  }

  /** Some child from `i` on holds `x` when child `i` does or one after it does. */
  lemma SomeChildSplit(a: Arena, n: Id, i: nat, x: Id)
    requires WellFormed(a) && n < |a| && i < |a[n].children|
    ensures var ch := a[n].children;
      (exists j :: i <= j < |ch| && x in Desc(a, ch[j])) <==>
      x in Desc(a, ch[i]) || exists j :: i + 1 <= j < |ch| && x in Desc(a, ch[j])
  {
    var ch := a[n].children;
    if exists j :: i <= j < |ch| && x in Desc(a, ch[j]) {
      var j :| i <= j < |ch| && x in Desc(a, ch[j]);
      if j > i {
        assert i + 1 <= j < |ch| && x in Desc(a, ch[j]);
      }
    }
    if x in Desc(a, ch[i]) {
      assert i <= i < |ch| && x in Desc(a, ch[i]);
    }
  }

  /** A child's subtree is part of its parent's subtree. */
  lemma ChildInDesc(a: Arena, n: Id, j: nat, x: Id)
    requires WellFormed(a) && n < |a| && j < |a[n].children|
    requires x in Desc(a, a[n].children[j])
    ensures x in Desc(a, n)
  {
    DescKidsMember(a, n, 0, x);
  }

  /** Descendant-of is transitive. */
  lemma {:induction false} DescTransitive(a: Arena, n: Id, y: Id, z: Id)
    requires WellFormed(a) && n < |a|
    requires y < |a| && y in Desc(a, n)
    requires z in Desc(a, y)
    ensures z in Desc(a, n)
    decreases |a| - n
  {
    if y != n {
      DescKidsMember(a, n, 0, y);
      var j :| 0 <= j < |a[n].children| && y in Desc(a, a[n].children[j]);
      DescTransitive(a, a[n].children[j], y, z);
      ChildInDesc(a, n, j, z);
    }
  }

  /** Every handle on the ancestor chain of `x` is at most `x`, and `x` comes first. */
  lemma {:induction false} AncBounds(a: Arena, x: Id)
    requires WellFormed(a) && x < |a|
    ensures Anc(a, x)[0] == x
    ensures forall y :: y in Anc(a, x) ==> y <= x
    decreases x
  {
    if a[x].parent.Some? {
      AncBounds(a, a[x].parent.value);
    }
  }

  /** The ancestor chain of an ancestor is a part of the chain. */
  lemma {:induction false} AncClosed(a: Arena, x: Id, z: Id, w: Id)
    requires WellFormed(a) && x < |a|
    requires z < |a| && z in Anc(a, x)
    requires w in Anc(a, z)
    ensures w in Anc(a, x)
    decreases x
  {
    if z != x {
      AncClosed(a, a[x].parent.value, z, w);
    }
  }

  /** `y` is on the ancestor chain of `x` exactly when `x` is in the subtree of `y`. */
  lemma AncestorIffDescendant(a: Arena, x: Id, y: Id)
    requires WellFormed(a) && x < |a| && y < |a|
    ensures y in Anc(a, x) <==> x in Desc(a, y)
  {
    if x in Desc(a, y) {
      DescendantHasAncestor(a, x, y);
    }
    if y in Anc(a, x) {
      AncestorHasDescendant(a, x, y);
    }
  }

  lemma {:induction false} DescendantHasAncestor(a: Arena, x: Id, y: Id)
    requires WellFormed(a) && x < |a| && y < |a|
    requires x in Desc(a, y)
    ensures y in Anc(a, x)
    decreases |a| - y
  {
    AncBounds(a, x);
    if x != y {
      DescKidsMember(a, y, 0, x);
      var j :| 0 <= j < |a[y].children| && x in Desc(a, a[y].children[j]);
      var c := a[y].children[j];
      DescendantHasAncestor(a, x, c);
      assert Anc(a, c) == [c] + Anc(a, y);
      AncBounds(a, y);
      AncClosed(a, x, c, y);
    }
  }

  lemma {:induction false} AncestorHasDescendant(a: Arena, x: Id, y: Id)
    requires WellFormed(a) && x < |a| && y < |a|
    requires y in Anc(a, x)
    ensures x in Desc(a, y)
    decreases x
  {
    DescBounds(a, x);
    if x != y {
      var p := a[x].parent.value;
      AncestorHasDescendant(a, p, y);
      var j :| 0 <= j < |a[p].children| && a[p].children[j] == x;
      DescBounds(a, x);
      ChildInDesc(a, p, j, x);
      DescBounds(a, y);
      DescTransitive(a, y, p, x);
    }
  }

  /** Two handles on one ancestor chain lie on one another's chains. */
  lemma {:induction false} AncChain(a: Arena, x: Id, y: Id, z: Id)
    requires WellFormed(a) && x < |a| && y < |a| && z < |a|
    requires y in Anc(a, x) && z in Anc(a, x)
    ensures y in Anc(a, z) || z in Anc(a, y)
    decreases x
  {
    if y != x && z != x {
      AncChain(a, a[x].parent.value, y, z);
    }
  }

  /** The subtrees of two different children of one node share no handle. */
  lemma SiblingsDisjoint(a: Arena, n: Id, i: nat, j: nat, x: Id)
    requires WellFormed(a) && n < |a| && i < j < |a[n].children|
    requires x in Desc(a, a[n].children[i])
    ensures x !in Desc(a, a[n].children[j])
  {
    var ci, cj := a[n].children[i], a[n].children[j];
    if x in Desc(a, cj) {
      AncestorIffDescendant(a, x, ci);
      AncestorIffDescendant(a, x, cj);
      AncChain(a, x, ci, cj);
      AncBounds(a, n);
    }
  }

  lemma NoDupsConcat<T>(s: seq<T>, t: seq<T>)
    requires NoDups(s) && NoDups(t)
    requires forall x :: x in s ==> x !in t
    ensures NoDups(s + t)
  {
    forall i, j | 0 <= i < j < |s + t| ensures (s + t)[i] != (s + t)[j] {
      if j < |s| {
        assert (s + t)[i] == s[i] && (s + t)[j] == s[j];
      } else if i < |s| {
        assert (s + t)[i] == s[i] && (s + t)[j] == t[j - |s|];
        assert s[i] in s && t[j - |s|] in t;
      } else {
        assert (s + t)[i] == t[i - |s|] && (s + t)[j] == t[j - |s|];
      }
    }
  }

  /** The preorder of a subtree visits each handle once. */
  lemma {:induction false} DescNoDups(a: Arena, n: Id)
    requires WellFormed(a) && n < |a|
    ensures NoDups(Desc(a, n))
    decreases |a| - n, |a[n].children| + 1
  {
    DescKidsNoDups(a, n, 0);
    NoDupsConcat([n], DescKids(a, n, 0));
  }

  lemma {:induction false} DescKidsNoDups(a: Arena, n: Id, i: nat)
    requires WellFormed(a) && n < |a| && i <= |a[n].children|
    ensures NoDups(DescKids(a, n, i))
    decreases |a| - n, |a[n].children| - i
  {
    var ch := a[n].children;
    if i < |ch| {
      DescNoDups(a, ch[i]);
      DescKidsNoDups(a, n, i + 1);
      forall x | x in Desc(a, ch[i]) ensures x !in DescKids(a, n, i + 1) {
        DescKidsMember(a, n, i + 1, x);
        forall j | i + 1 <= j < |ch| ensures x !in Desc(a, ch[j]) {
          SiblingsDisjoint(a, n, i, j, x);
        }
      }
      NoDupsConcat(Desc(a, ch[i]), DescKids(a, n, i + 1));
    }
  }

  /** A non-root node of a valid arena has a parent. */
  lemma {:induction false} OnlyRootIsParentless(a: Arena, x: Id)
    requires Valid(a) && 0 < x < |a|
    ensures a[x].parent.Some?
  {
    assert Range(0, |a|)[x] == x;
    assert x in Desc(a, 0);
    DescendantHasAncestor(a, x, 0);
  }
}
