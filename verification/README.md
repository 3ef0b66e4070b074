# Roleset-indexed arena tree

A model of the accessibility-tree core of `indextree-method-structural-nav`. An input tree
of roles (`A11yNode`) is loaded into an arena of nodes addressed by integer handles. Each
node carries a summary of the roles in its subtree:
- the `Tree` flavour keeps a role bitset;
- the `TreeCount` flavour keeps per-role counters together with their non-zero set `.1`.

Queries answer "first node with this role", "how many nodes with this role", "deepest
node", "which roles occur" and "which nodes are leaves". Each has several strategies:
- a plain preorder scan;
- a flat scan over the arena;
- a walk that uses the summaries to skip subtrees that cannot contain the role. This walk
  comes in two forms: the edge cursor `TraverseRole`/`DescendantsRole`, and an explicit
  stack.

The proofs show that every strategy agrees with the plain preorder scan.

Modules, one per file:
- `RoleSets` (`rolesets.dfy`): roles, the bitset `RoleSet` as a set of role codes,
  `role_iter`, and the counter summary `RoleCount` with its `support` set.
- `ArenaTree` (`arena.dfy`): arena slots (role, parent, children), well-formedness, and the
  `descendants` walk `Desc` and the `ancestors` walk `Anc`.
  - `Desc` is the preorder of a subtree, the node itself first.
  - `Anc` is the node itself, then its parent chain.
  - An arena is `Valid` when the preorder from handle 0 is exactly `0, 1, …, N-1`.
- `Construction` (`construction.dfy`): `from_a11y_node` / `from_root_node`. Loading is
  proved equal to a closed-form preorder layout. So the arena is valid, handle `k` holds
  the `k`-th input node in preorder, and the arena reads back as the input tree.
- `Index` (`index.dfy`): `build_rolesets` for both flavours, as loops over the preorder
  with an inner loop over the ancestor chain. Each is proved equal to a reference
  definition:
  - `Built` (role sets): a node's initial set united with the roles of its subtree and
    the initial sets of the nodes below it, since whole sets are ORed up the chain;
  - `BuiltSupport` (counters): a node's own initial support united with the roles of its
    subtree only, since only the visited node's role travels up the chain.

  From empty summaries both are exactly "the summary is the set of roles in the
  subtree" (`Indexed`).
- `Queries` (`queries.dfy`): the plain and flat-scan queries and `unique_roles_roleset`.
  - Each query is written once over (arena, role sets).
  - The `TreeCount` methods are the same queries applied to `Supports(counts)`, its `.1`
    projection.
  - The standalone binary's `Tree` in `src/main.rs` runs the same algorithms as the
    library `Tree`. Its `find_first`, `leafs`, `how_many`, `max_depth` and `unique_roles`
    map to `FindFirst`, `IterLeafs`, `HowMany`, `MaxDepth` and `UniqueRoles`.
- `Cursor` (`cursor.dfy`): the edge cursor `next_traverse_role`, `TraverseRole`,
  `DescendantsRole`, and the queries built on them.
  - `Tour` is the edge sequence the cursor emits, defined by structural recursion.
  - `PrunedDesc` is the preorder of the tree with every non-qualifying child subtree
    removed.
  - The binary's `find_first_no_stack_ext` is `FindFirstRoleset`.
- `StackSearch` (`stack.dfy`): `find_first_stack`, which is the binary's `find_first_roleset`.

All paths below are relative to the repository root. `lib.rs`, `indextree_ext.rs` and
`main.rs` live in `code/indextree-method-structural-nav/src/`.

## Model

| member | source | states |
|---|---|---|
| RoleSets.RoleIter | code/indextree-method-structural-nav/src/lib.rs:563-571 | the roles of a set listed strictly ascending, each role of the set exactly once and nothing else |
| RoleSets.AscendingDetermined | code/indextree-method-structural-nav/src/lib.rs:541-571 | two strictly ascending role lists with the same members are equal, so two sorted-and-deduplicated role lists of the same tree coincide as sequences |
| RoleSets.EmptyCount | code/indextree-method-structural-nav/src/lib.rs:61-72 | the default counter summary is consistent and its non-zero set is empty |
| RoleSets.Add | code/indextree-method-structural-nav/src/lib.rs:142-151 | adding a role raises that role's counter by one, leaves every other counter alone, keeps the summary consistent and puts the role into the non-zero set |
| ArenaTree.NextSiblingOfChild | code/indextree-method-structural-nav/src/indextree_ext.rs:67-79 | the next sibling of a child is the next entry of its parent's child list, and none after the last |
| ArenaTree.AncestorIffDescendant | code/indextree-method-structural-nav/src/lib.rs:392-412 | `y` is on the ancestor chain of `x` exactly when `x` is in the preorder of `y`'s subtree, which is why merging into ancestors builds subtree summaries |
| ArenaTree.OnlyRootIsParentless | code/indextree-method-structural-nav/src/indextree_ext.rs:75-78 | in a valid arena every node except handle 0 has a parent, so the cursor's missing-parent exit is reached only at the root |
| Construction.Append | code/indextree-method-structural-nav/src/lib.rs:368-379 | appending makes the child's parent the given node and adds the child at the end of that node's child list; every other field of those two nodes and every other slot is unchanged |
| Construction.InsertIsLayout | code/indextree-method-structural-nav/src/lib.rs:368-379 | loading a node allocates it before its children and appends the children in input order, giving exactly the closed-form preorder layout |
| Construction.LoadedArena | code/indextree-method-structural-nav/src/lib.rs:368-379 | loading into an empty arena yields handle 0, a valid arena whose preorder from the root is the arena order, the input's roles in preorder, and an arena that reads back as the input |
| Construction.FromRootNode | code/indextree-method-structural-nav/src/lib.rs:413-420 | the new `Tree` is valid and rooted at 0, has one slot per input node holding the input's roles in preorder, has all role sets empty, and reads back as the input |
| Construction.FromRootNodeCount | code/indextree-method-structural-nav/src/lib.rs:155-162 | as for `Tree`, with every counter summary consistent and empty |
| Index.FlavoursAgree | code/indextree-method-structural-nav/src/lib.rs:155-162 | both loaders build the same arena with the same empty summaries, and building either index leaves the same summaries for the queries |
| Index.BuildRolesets | code/indextree-method-structural-nav/src/lib.rs:392-412 | the arena is unchanged, and every node's role set becomes its initial set united with the roles of its subtree and the initial sets below it; from all-empty sets the result is the subtree index |
| Index.VisitNode | code/indextree-method-structural-nav/src/lib.rs:393-411 | visiting one node adds its role to its own set and merges the result into exactly the nodes on its ancestor chain; no other node changes |
| Index.OrIntoAncestors | code/indextree-method-structural-nav/src/lib.rs:403-410 | the inner loop ORs the leaf's set into exactly the ancestors of the leaf (the leaf included) and leaves every other node alone |
| Index.BuildRolesetsCount | code/indextree-method-structural-nav/src/lib.rs:134-154 | the arena is unchanged, every counter summary stays consistent, and every non-zero set becomes the reference subtree summary; from empty counters the non-zero sets are the subtree index |
| Index.VisitNodeCount | code/indextree-method-structural-nav/src/lib.rs:135-153 | visiting one node puts its role into the non-zero set of exactly the nodes on its ancestor chain (`AddAlongChain`), keeping every summary consistent |
| Index.AddToAncestors | code/indextree-method-structural-nav/src/lib.rs:145-152 | the inner loop puts the role into the non-zero set of exactly the ancestors of the node (`AddAlongChain`), keeping every summary consistent |
| Index.BuiltFromEmpty | code/indextree-method-structural-nav/src/lib.rs:392-420 | starting from the empty role sets that construction leaves, the build makes every node's set equal to the roles of that node and its descendants |
| Index.BuiltSupportFromEmpty | code/indextree-method-structural-nav/src/lib.rs:54-56 | starting from empty counters, the build makes every non-zero set (what `roleset()` returns) equal to the roles of the subtree |
| Index.BuiltIdempotent | code/indextree-method-structural-nav/src/lib.rs:392-412 | running the build a second time changes no role set |
| Queries.FirstWithRole | code/indextree-method-structural-nav/src/lib.rs:438-444 | `find_map` over a walk: none exactly when no node of the walk has the role, otherwise a node of the walk with the role and no earlier node with it |
| Queries.FirstIsHeadOfFilter | code/indextree-method-structural-nav/src/lib.rs:438-444 | the first node with the role is the head of the walk filtered by that role |
| Queries.FindFirst | code/indextree-method-structural-nav/src/main.rs:84-91 | none exactly when the role is absent from the subtree, otherwise a node of the subtree with that role before which no node of the preorder carries it |
| Queries.FirstCarrierPosition | code/indextree-method-structural-nav/src/lib.rs:529-540 | the first node of a walk with a role sits where the role first occurs in the walk's role list |
| Queries.ParFindFirst | code/indextree-method-structural-nav/src/lib.rs:445-452 | the lowest handle with the role, none exactly when no slot has it, and on a valid arena the node `find_first` returns |
| Queries.HowMany | code/indextree-method-structural-nav/src/lib.rs:498-504 | zero exactly when the role is absent from the subtree; the number of distinct subtree nodes with the role, which from the root of a valid arena is the number of arena slots with it |
| Queries.ParHowMany | code/indextree-method-structural-nav/src/lib.rs:505-510 | the number of arena slots with the role, and on a valid arena equal to `how_many` |
| Queries.CountRange | code/indextree-method-structural-nav/src/lib.rs:505-510 | filtering handles `0..hi` by role yields as many nodes as there are slots below `hi` with that role |
| Queries.IterLeafs | code/indextree-method-structural-nav/src/main.rs:76-80 | exactly the childless nodes of the subtree, each once, in preorder |
| Queries.ParIterLeafs | code/indextree-method-structural-nav/src/lib.rs:430-434 | exactly the slots without a first child, in ascending handle order, and on a valid arena the same sequence as `iter_leafs` |
| Queries.MaxDepth | code/indextree-method-structural-nav/src/lib.rs:511-517 | at least 1, reached by some node of the subtree, and no node's ancestor count exceeds it |
| Queries.ParentDepth | code/indextree-method-structural-nav/src/lib.rs:521-524 | the ancestor count of the parent, or 0 for the root, is one less than the node's own ancestor count |
| Queries.ParentDepthsMax | code/indextree-method-structural-nav/src/lib.rs:518-528 | the largest parent depth plus one is reached by some node's ancestor count and bounds all of them, and on a valid arena equals `max_depth` |
| Queries.ParMaxDepth | code/indextree-method-structural-nav/src/lib.rs:518-528 | the largest ancestor count over all slots, and on a valid arena equal to `max_depth` |
| Queries.DedupFold | code/indextree-method-structural-nav/src/lib.rs:534-539 | the fold that pushes unseen roles keeps each role of the input exactly once, in order of first occurrence |
| Queries.UniqueRoles | code/indextree-method-structural-nav/src/main.rs:134-145 | each role of the subtree exactly once, and nothing else, ordered by the preorder position of the role's first node |
| Queries.ChunkFolds | code/indextree-method-structural-nav/src/lib.rs:541-555 | the flattened per-chunk folds hold exactly the roles of the chunks |
| Queries.InsertSorted | code/indextree-method-structural-nav/src/lib.rs:559 | inserting into a sorted list keeps it sorted and adds exactly one copy of the role |
| Queries.SortRoles | code/indextree-method-structural-nav/src/lib.rs:559 | the sort returns a sorted permutation of its input |
| Queries.Dedup | code/indextree-method-structural-nav/src/lib.rs:560 | `dedup` keeps the same members and turns a sorted list into a strictly ascending one |
| Queries.ParUniqueRoles | code/indextree-method-structural-nav/src/lib.rs:541-562 | strictly ascending, and holding exactly the roles of the arena's slots, whatever the split into chunks |
| Queries.UniqueRolesRoleset | code/indextree-method-structural-nav/src/lib.rs:563-571 | strictly ascending, and holding exactly the roles of the root's role set |
| Queries.UniqueRolesAgree | code/indextree-method-structural-nav/src/lib.rs:529-571 | on an indexed valid arena `unique_roles_roleset` and `par_unique_roles` are the same sequence, and `unique_roles` has the same members |
| Cursor.NextTraverseRole | code/indextree-method-structural-nav/src/indextree_ext.rs:55-83 | after a childless start comes its end, after any other start comes an edge at its first child; after an end comes the parent's end or the start of a later sibling; every start produced qualifies; the walk stops only after leaving a parentless node |
| Cursor.NextOfNext | code/indextree-method-structural-nav/src/indextree_ext.rs:101-107 | the cursor ends exactly after leaving the root (or a parentless node) and otherwise takes the `next_traverse_role` step |
| Cursor.LeaveChild | code/indextree-method-structural-nav/src/indextree_ext.rs:67-79 | leaving the last child leaves the parent; leaving another child enters the next sibling if it qualifies, and otherwise continues as if that sibling had been left |
| Cursor.SiblingScan | code/indextree-method-structural-nav/src/indextree_ext.rs:67-79 | leaving a child leads to the first edge of the rest of the parent's tour, skipping non-qualifying siblings |
| Cursor.TourSteps | code/indextree-method-structural-nav/src/indextree_ext.rs:55-83 | each edge of the tour is followed by exactly the edge `next_traverse_role` produces |
| Cursor.TourEdge | code/indextree-method-structural-nav/src/indextree_ext.rs:101-107 | from any edge of the tour, `next_of_next` yields the following edge of the tour, and nothing after the last |
| Cursor.TraverseRole | code/indextree-method-structural-nav/src/indextree_ext.rs:158-167 | the edges emitted are the tour: they begin with the root's start whatever its set, end with the root's end, and every other start is at a qualifying node |
| Cursor.StartsQualify | code/indextree-method-structural-nav/src/indextree_ext.rs:59-66 | in any run of cursor steps, every start after the first is at a node whose set holds the role |
| Cursor.StartsOfTour | code/indextree-method-structural-nav/src/indextree_ext.rs:31-41 | the start nodes of the tour, in order, are the preorder of the tree with every non-qualifying child subtree removed |
| Cursor.DescendantsRole | code/indextree-method-structural-nav/src/indextree_ext.rs:31-41 | yields exactly the pruned preorder, as handles into the arena |
| Cursor.PrunedSound | code/indextree-method-structural-nav/src/indextree_ext.rs:31-41 | with the index built, the pruned preorder filtered by a role equals the full preorder filtered by that role |
| Cursor.SameFirst | code/indextree-method-structural-nav/src/lib.rs:453-459 | with the index built, the first node of the pruned preorder with the role is the node `find_first` returns |
| Cursor.FindFirstRoleset | code/indextree-method-structural-nav/src/lib.rs:453-459 | any node found has the role; the result is the first node of the pruned walk carrying it, and with the index built it is `find_first`'s |
| Cursor.HowManyRoleset | code/indextree-method-structural-nav/src/lib.rs:572-579 | the count is the number of distinct nodes of the pruned walk carrying the role, and with the index built it equals `how_many` |
| Cursor.ParFindFirstRoleset | code/indextree-method-structural-nav/src/lib.rs:460-475 | any node found has the role; nothing is found exactly when no node of the pruned walk carries it, else the result is the walk's first carrier; with the index built it is `find_first`'s |
| Cursor.ParHowManyRoleset | code/indextree-method-structural-nav/src/lib.rs:580-595 | the count is the number of distinct nodes of the pruned tree carrying the role, and with the index built it equals `how_many` |
| Cursor.PrunedNoDups | code/indextree-method-structural-nav/src/indextree_ext.rs:31-41 | the pruned walk visits each node at most once, and only nodes of the subtree it starts from |
| StackSearch.FindFirstStack | code/indextree-method-structural-nav/src/lib.rs:476-497 | returns the first node with the role in the pruned preorder, none when the pruned tree has none, and with the index built the node `find_first` returns |
| StackSearch.PushQualifying | code/indextree-method-structural-nav/src/lib.rs:486-494 | pushing the qualifying children in reverse to the front leaves them ahead of the old stack in left-to-right order |
| StackSearch.PopStep | code/indextree-method-structural-nav/src/main.rs:104-117 | one pop-and-push removes exactly the first node of the stack's remaining pruned forest, and the first match is the popped node or the first match of what remains |
| StackSearch.PrunedKidsIsForest | code/indextree-method-structural-nav/src/lib.rs:486-494 | the pruned preorders of a node's children are the pruned preorders of its qualifying children, concatenated in order |
| StackSearch.PrunedForestConcat | code/indextree-method-structural-nav/src/lib.rs:481-495 | the pruned forest of two stacks placed one after the other is the concatenation of their pruned forests |

## Left out

- The arena library and `role_set.rs` are not part of this model. The model uses the following abstractions:
  - `descendants` is the preorder of a subtree, the node first.
  - `ancestors` is the node, then its parent chain.
  - `append` updates the parent link and the child list.
  - `RoleSet` is a set of role codes. `role.into()` is the singleton, `|=` is union and `contains` is membership.
  - `RoleSetVecCount` is a counter sequence plus its non-zero set.
- RoleSets.RoleIter: the ascending order is an assumption about `role_set.rs`, which is not part of this model.
- `NumRoles` = 130 is a free capacity. No proof depends on its value.
- Thread scheduling is left out: rayon's `par_iter`, `by_exponential_blocks`, `walk_tree` and the parallel sort. Each parallel query is modelled by its sequential meaning:
  - a scan over the arena in slot order; or
  - for `par_*_roleset`, a preorder walk of the pruned tree. `walk_tree` is taken to visit in prefix order.
- Queries.ParUniqueRoles: how rayon splits the arena into fold chunks is not modelled. The split is a parameter, and the contract holds for every split.
- `TreeCount` exact counts are not stated. The ancestor walk includes the node itself, so a node's own role is counted twice in its own counter (`lib.rs:142` and `lib.rs:145-151`). Only the non-zero set is specified, and it is the only part the queries read.
- Queries.UniqueRoles equals the other two unique-roles variants only as a set. It is in first-occurrence order, while they are ascending. Comparing the sequences directly holds only when the first occurrences happen to be ascending.
- Queries.MaxDepth: the root counts as depth 1, because `ancestors` includes the node. `max_depth` and `par_max_depth` agree under this convention.
- Cursor.NextTraverseRole and the cursor: the target is a singleton role set. That is the only way the queries use the cursor.
- Cursor.TraverseRole returns the whole edge sequence at once. Being fused after the end is not modelled as iterator state.
- `SearchRole` in `indextree_ext.rs` is not modelled. Nothing calls it and it has no stated contract.
- `nodes()` is not modelled. It is the arena's slot count, `|a|`.
- `Display`/`fmt_with` are not modelled. They are display only.
- The `linux-atspi-tree` client is not modelled. It is D-Bus network I/O.
- The serde/JSON loading, the test fixtures, the command-line front ends, `main()` and the benchmarks are not modelled.
- The `expect`/`unwrap` panics on handle lookups are not modelled. Every handle the model uses is provably in the arena, so these panics cannot happen.

## Proof notes

- Index.VisitNodeCount and Index.AddToAncestors state the update of the non-zero sets as one equation, `Supports(out) == AddAlongChain(..)`. They do not use a formula quantified over every node. With Dafny 4.11, the quantified form `out[y].support == cs[y].support + (if y in Anc(a, k) then {a[k].role} else {})`, together with `Consistent` on every counter, lets the solver derive `false`. A contract in that form would then hold for any result. A one-node arena satisfies those premises, so the fault is in the verifier, not in the contract. The equation form avoids the pattern.
