/** The role universe and the two per-node summary types: the bitset `RoleSet`
    and the per-role counter `RoleCount` whose `support` plays the part of the
    Rust tuple field `.1`. */
module RoleSets {

  datatype Option<+T> = None | Some(value: T)

  /** Capacity of the role bitset. The role catalogue itself is external; the
      proofs do not depend on the particular width. */
  const NumRoles: nat := 130

  /** A role code: a small integer below the bitset capacity. */
  type Role = r: nat | r < NumRoles

  /** A bitset over the role universe, modelled as the set of roles whose bit is set.
      `role.into()` is `{role}`, `|=` is `+` and `contains(role.into())` is `in`. */
  type RoleSet = set<Role>

  ghost predicate StrictlyAscending(s: seq<Role>) {
    forall i, j :: 0 <= i < j < |s| ==> s[i] < s[j]
  }

  /** `role_iter` restricted to codes `lo` and above: scans the bit positions upwards. */
  function RoleIterFrom(s: RoleSet, lo: nat): (r: seq<Role>)
    requires lo <= NumRoles
    ensures StrictlyAscending(r)
    ensures forall x :: x in r <==> x in s && lo <= x
    decreases NumRoles - lo
  {
    if lo == NumRoles then []
    else if (lo as Role) in s then
      var rest := RoleIterFrom(s, lo + 1);
      assert forall k :: 0 <= k < |rest| ==> rest[k] in rest;
      [lo as Role] + rest
    else RoleIterFrom(s, lo + 1)
  }

  /** `RoleSet::role_iter`: the members of the set, in ascending role order. */
  function RoleIter(s: RoleSet): (r: seq<Role>)
    ensures StrictlyAscending(r)
    ensures forall x :: x in r <==> x in s
  {
    RoleIterFrom(s, 0)
  }

  /** In a strictly ascending sequence the head is the least member and the tail
      holds every other member. */
  lemma AscendingHead(x: seq<Role>, e: Role)
    requires StrictlyAscending(x) && x != []
    ensures e in x ==> x[0] <= e
    ensures e in x[1..] <==> e in x && e != x[0]
  {
    if e in x {
      var i :| 0 <= i < |x| && x[i] == e;
      if i > 0 {
        assert x[1..][i - 1] == e;
      }
    }
    assert x == [x[0]] + x[1..];
  }

  /** Two strictly ascending sequences holding the same roles are the same sequence. */
  lemma {:induction false} AscendingDetermined(x: seq<Role>, y: seq<Role>)
    requires StrictlyAscending(x) && StrictlyAscending(y)
    requires forall e :: e in x <==> e in y
    ensures x == y
    decreases |x|
  {
    if x != [] {
      assert x[0] in x && x[0] in y;
      AscendingHead(x, y[0]);
      AscendingHead(y, x[0]);
      assert x[0] == y[0];
      forall e
        ensures e in x[1..] <==> e in y[1..]
      {
        AscendingHead(x, e);
        AscendingHead(y, e);
      }
      AscendingDetermined(x[1..], y[1..]);
      assert x == [x[0]] + x[1..];
      assert y == [y[0]] + y[1..];
    } else {
      forall e ensures multiset(y)[e] == 0 {
        assert e !in y;
      }
      assert multiset(y) == multiset{};
    }
  }

  /** `RoleSetVecCount`: an occurrence count per role plus the bitset of roles whose
      count is non-zero. */
  datatype RoleCount = RoleCount(counts: seq<nat>, support: RoleSet)

  /** The support must always be exactly the set of roles with a non-zero count. */
  ghost predicate Consistent(c: RoleCount) {
    && |c.counts| == NumRoles
    && forall r: Role :: r in c.support <==> c.counts[r] > 0
  }

  /** `RoleSetVecCount::default()`: every count zero. */
  function EmptyCount(): (c: RoleCount)
    ensures Consistent(c)
    ensures c.support == {}
  {
    RoleCount(seq(NumRoles, _ => 0), {})
  }

  /** `RoleSetVecCount::add`: one more occurrence of `r`. */
  function Add(c: RoleCount, r: Role): (d: RoleCount)
    requires Consistent(c)
    ensures Consistent(d)
    ensures d.support == c.support + {r}
    ensures d.counts[r] == c.counts[r] + 1
    ensures forall q: Role :: q != r ==> d.counts[q] == c.counts[q]
  {
    RoleCount(c.counts[r := c.counts[r] + 1], c.support + {r})
  }
}
