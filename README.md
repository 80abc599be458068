# Nested-set trees for Sequel models

This project models the tree engine of the `sequel_sti_nested_set` plugin
(`lib/sequel_sti_nested_set.rb`). The plugin stores a forest in one table. Each row has a
key, a `parent_id`, and two integers `left < right`. A row's descendants are exactly the
rows whose interval lies strictly inside its own. The model covers four things:

- how a created row gets its bounds;
- the structural queries, which are plain comparisons on `left`/`right`/`parent_id`;
- `move_to` and its three entry points;
- the bulk conditional UPDATE by which `move_to` renumbers the table in one statement.

A table is a `seq<Row>`. The UPDATE runs in place over an `array<Row>`. The datasets come
back ordered by `left`, as the plugin's `order(left)` arranges.

Modules, one file each:

- `Forest` (`forest.dfy`): rows and the invariant the plugin maintains (`WellFormed`):
  - unique keys;
  - proper, laminar intervals;
  - endpoints exactly `1 .. 2N`;
  - every `parent_id` naming the innermost enclosing row.
- `Queries` (`queries.dfy`): the class-level `root` (a row or `None`) and `roots` (a list),
  and the instance accessors. Every instance accessor except `parent` returns `None`
  (Ruby's `nil`) when the node's key has no row. `parent` has no such guard: it returns
  `None` exactly when no row has the key `parent_id`.
- `QueryProperties` (`query_properties.dfy`): what the queries mean on a well-formed table.
- `Boundaries` (`boundaries.dfy`): the arithmetic of `move_to`. This covers the new bounds
  per position and direction, the window, `shift`, `updown`, and the CASE applied to one
  endpoint (`Plan.Remap`), with its inverse.
- `Moves` (`moves.dfy`): the checks and the UPDATE:
  - `Move`, on table values;
  - `BulkUpdate`, a loop over the array;
  - `MoveTo` and its wrappers.
- `MoveProperties` (`move_properties.dfy`):
  - which moves are refused;
  - where the subtree lands;
  - what the UPDATE leaves alone;
  - that a successful move keeps the table well-formed.
- `Lifecycle` (`lifecycle.dfy`): `before_create`. `NewNode` is the model object whose
  `left`/`right` fields it sets.
- `Scenarios` (`scenarios.dfy`): concrete tables from the plugin's own examples.

Three modelling choices:

- **Missing target.** The code calls `target.reload` on a target that may have no row.
  That raises Sequel's own error, not one of the plugin's three, so the model gives it its
  own error value `TargetNotFound`.
- **Check order.** The checks run in the code's order: not persisted, target missing,
  target inside the moved tree, unknown position.
- **Refusals change nothing.** Every refusal happens before the UPDATE, so a refused move
  leaves the table unchanged.

## Model

| member | source | states |
|---|---|---|
| Forest.Persisted | lib/sequel_sti_nested_set.rb:109 | `exists?`: some row of the table carries the node's key |
| Forest.IndexOf | lib/sequel_sti_nested_set.rb:204-213 | finds the row with a key exactly when the key is persisted (`exists?`) |
| Queries.Matches | lib/sequel_sti_nested_set.rb:67-188 | the WHERE clause of each query, with NULL compared as `IS NULL` |
| Queries.Where | lib/sequel_sti_nested_set.rb:108-188 | the filtered rows are exactly the table rows matching the WHERE clause |
| Queries.WhereCounts | lib/sequel_sti_nested_set.rb:108-188 | the filter keeps each matching row as often as the table holds it, and no other row |
| Queries.SelectCounts | lib/sequel_sti_nested_set.rb:22-26 | a scan holds each matching row as often as the table holds it, and no other row |
| Queries.Insert | lib/sequel_sti_nested_set.rb:22-26 | inserting into a `left`-ordered list keeps it ordered and adds exactly one element |
| Queries.SortByLeft | lib/sequel_sti_nested_set.rb:22-26 | the `order(left)` result is sorted and a permutation of its input |
| Queries.Select | lib/sequel_sti_nested_set.rb:22-26 | a dataset scan is sorted by `left`, has the matching rows and only them, each as often as in the table |
| Queries.Roots | lib/sequel_sti_nested_set.rb:71-73 | `roots` is the rows with NULL `parent_id`, ordered by `left` |
| Queries.Root | lib/sequel_sti_nested_set.rb:67-69 | `root` is `nil` exactly when every row has a parent; otherwise it is the root with the smallest `left` |
| Queries.Parent | lib/sequel_sti_nested_set.rb:88-90 | `parent` is `nil` exactly when no row has the key `parent_id`; otherwise it is that row |
| Queries.Ancestors | lib/sequel_sti_nested_set.rb:108-116 | `nil` unless persisted; otherwise exactly the rows enclosing the node, by `left` |
| Queries.SelfAndAncestors | lib/sequel_sti_nested_set.rb:118-126 | `nil` unless persisted; otherwise the rows whose interval contains the node's, by `left` |
| Queries.Siblings | lib/sequel_sti_nested_set.rb:128-136 | `nil` unless persisted; otherwise the other rows with the same `parent_id` (NULL matches NULL), by `left` |
| Queries.SelfAndSiblings | lib/sequel_sti_nested_set.rb:138-146 | `nil` unless persisted; otherwise the node's own key or the same `parent_id`, by `left` |
| Queries.Children | lib/sequel_sti_nested_set.rb:164-168 | `nil` unless persisted; otherwise the rows whose `parent_id` is the node's key, by `left` |
| Queries.AllChildren | lib/sequel_sti_nested_set.rb:170-178 | `nil` unless persisted; otherwise exactly the rows the node encloses, by `left` |
| Queries.FullSet | lib/sequel_sti_nested_set.rb:180-188 | `nil` unless persisted; otherwise the rows inside the node's interval, bounds included, by `left` |
| Queries.Level | lib/sequel_sti_nested_set.rb:148-156 | `nil` unless persisted, 0 for a NULL parent, otherwise the number of ancestors |
| Queries.ChildrenCount | lib/sequel_sti_nested_set.rb:158-162 | `nil` unless persisted; otherwise half the interior width, rounded down |
| QueryProperties.RootsAreUnenclosed | lib/sequel_sti_nested_set.rb:71-73 | on a well-formed table a row is among `roots` exactly when no row encloses it |
| QueryProperties.RootStartsAtOne | lib/sequel_sti_nested_set.rb:67-69 | a non-empty well-formed table has a `root`, and its `left` is 1 |
| QueryProperties.LevelCountsAncestors | lib/sequel_sti_nested_set.rb:148-156 | `level` equals the number of ancestors for roots too, so the two branches agree |
| QueryProperties.ParentIsLastAncestor | lib/sequel_sti_nested_set.rb:88-116 | a node with a parent has ancestors, and `parent` is the last of them (the innermost) |
| QueryProperties.ChildrenAreDirectDescendants | lib/sequel_sti_nested_set.rb:164-168 | a row is among `children` exactly when the node is its innermost encloser |
| QueryProperties.SiblingsAreApart | lib/sequel_sti_nested_set.rb:128-146 | siblings never nest with the node, and `self_and_siblings` adds exactly the node |
| QueryProperties.SelfAndQueriesAddSelf | lib/sequel_sti_nested_set.rb:108-188 | `self_and_ancestors` and `full_set` are the strict versions plus exactly the node itself |
| QueryProperties.CountInIsSetSize | lib/sequel_sti_nested_set.rb:158-162 | with distinct endpoints, counting the endpoints in a range gives the size of their set |
| QueryProperties.CountInIsTwiceDescendants | lib/sequel_sti_nested_set.rb:158-178 | when no row straddles a range, its endpoints number twice the rows inside it |
| QueryProperties.InteriorWidth | lib/sequel_sti_nested_set.rb:158-178 | on a well-formed table a row's interior width is twice its number of descendants |
| QueryProperties.ChildrenCountCountsDescendants | lib/sequel_sti_nested_set.rb:158-178 | `children_count` is the size of `all_children` (all descendants, not only children) |
| Boundaries.Plan.Remap | lib/sequel_sti_nested_set.rb:271-284 | the first-match CASE moves the subtree's endpoints by `shift` into the new bounds, keeps all other values out of them, maps the window onto itself and fixes values outside it |
| Boundaries.Plan.Unmap | lib/sequel_sti_nested_set.rb:271-284 | every value has a preimage under the CASE that lies in the window exactly when the value does |
| Boundaries.RemapMonotone | lib/sequel_sti_nested_set.rb:254-284 | outside the moved subtree the CASE preserves order in both directions |
| Boundaries.RemapInjective | lib/sequel_sti_nested_set.rb:254-284 | the CASE never maps two endpoints to one value |
| Boundaries.Plan.Extent | lib/sequel_sti_nested_set.rb:215 | `extent`, the subtree's width, is at least 1 and equals the width of the new bounds |
| Boundaries.Plan.BLeft | lib/sequel_sti_nested_set.rb:254 | `b_left` is the smaller of the current and the new `left` |
| Boundaries.Plan.BRight | lib/sequel_sti_nested_set.rb:255 | `b_right` is the larger of the current and the new `right` |
| Boundaries.Plan.Shift | lib/sequel_sti_nested_set.rb:257 | `shift` carries both current bounds onto the new ones |
| Boundaries.Plan.UpDown | lib/sequel_sti_nested_set.rb:259 | `updown` moves the rows in between by the subtree's width, against the subtree's direction |
| Boundaries.Overlaps | lib/sequel_sti_nested_set.rb:217-221 | an endpoint of the target lies in the subtree's bounds; for proper intervals the test fails exactly when the target lies wholly before, wholly after, or around the subtree |
| Boundaries.NewBounds | lib/sequel_sti_nested_set.rb:223-252 | a plan exists exactly for the three positions, keeps the current bounds and has the subtree's width |
| Boundaries.Placement | lib/sequel_sti_nested_set.rb:215-269 | after the CASE, the subtree sits right after the target's `left` (`:child`), right before it (`:left`) or right after it (`:right`); the window lies within the two intervals' span |
| Moves.PlanMove | lib/sequel_sti_nested_set.rb:202-269 | an unpersisted node or a missing target is refused first; success needs a known position and renumbers the subtree with its width |
| Moves.NewParent | lib/sequel_sti_nested_set.rb:261-269 | the target's key for `:child`, the target's `parent_id` (possibly NULL) otherwise |
| Moves.UpdatedRow | lib/sequel_sti_nested_set.rb:271-290 | the three CASE expressions on one row: the key never changes, `parent_id` changes only on the moved row, a row outside the window is untouched, a row inside the subtree moves by `shift` |
| Moves.UpdatedTable | lib/sequel_sti_nested_set.rb:271-291 | the UPDATE touches every row: same length, same keys, only the moved row's `parent_id` may change |
| Moves.Move | lib/sequel_sti_nested_set.rb:202-291 | `move_to` on a table value: it fails exactly when the plan is refused (unpersisted node first, then a missing target); on success every key stays, only the moved row's parent may change, and the position was a known one |
| Moves.Committed | lib/sequel_sti_nested_set.rb:206-295 | the transaction's outcome: on an error the table is unchanged, otherwise it is the moved table |
| MoveProperties.CommittedOutcome | lib/sequel_sti_nested_set.rb:206-295 | an error is reported exactly when the move is refused and then nothing is written; without error a well-formed table stays well-formed |
| Moves.BulkUpdate | lib/sequel_sti_nested_set.rb:271-291 | after the loop every array cell holds its old row through the three CASE expressions |
| Moves.MoveTo | lib/sequel_sti_nested_set.rb:202-296 | the array ends as `Move` prescribes: renumbered with no error, or untouched with the refusal |
| Moves.MoveToChildOf | lib/sequel_sti_nested_set.rb:190-192 | is `move_to` with `:child` |
| Moves.MoveToRightOf | lib/sequel_sti_nested_set.rb:194-196 | is `move_to` with `:right` |
| Moves.MoveToLeftOf | lib/sequel_sti_nested_set.rb:198-200 | is `move_to` with `:left` |
| Moves.SetParent | lib/sequel_sti_nested_set.rb:92-94 | `parent = node` is `move_to_child_of(node)` |
| MoveProperties.IndexOfUnique | lib/sequel_sti_nested_set.rb:205-213 | with unique keys a reload finds the row itself |
| MoveProperties.SuccessIsLegal | lib/sequel_sti_nested_set.rb:202-269 | a successful plan comes from two reloaded rows that do not overlap and a known position |
| MoveProperties.PairAfter | lib/sequel_sti_nested_set.rb:271-284 | the CASE keeps nesting between rows on the same side of the subtree, and puts a row outside the subtree around it only when that row's new interval spans the new bounds |
| MoveProperties.LegalMoveFacts | lib/sequel_sti_nested_set.rb:215-269 | in a legal move the CASE's first arm selects exactly the subtree, the target lies outside it, and the window lies within `1 .. 2N` |
| MoveProperties.ProperAfter | lib/sequel_sti_nested_set.rb:271-284 | every interval stays proper after the UPDATE |
| MoveProperties.LaminarAfter | lib/sequel_sti_nested_set.rb:271-284 | any two intervals still nest or are apart after the UPDATE |
| MoveProperties.UniqueIdsAfter | lib/sequel_sti_nested_set.rb:271-291 | the UPDATE keeps keys unique |
| MoveProperties.EndpointsAfterInRange | lib/sequel_sti_nested_set.rb:271-284 | no endpoint leaves `1 .. 2N` |
| MoveProperties.EndpointsAfterCover | lib/sequel_sti_nested_set.rb:271-284 | every value of `1 .. 2N` is still an endpoint |
| MoveProperties.GapFreeAfter | lib/sequel_sti_nested_set.rb:271-284 | the endpoints stay exactly `1 .. 2N` |
| MoveProperties.ParentAfterOutside | lib/sequel_sti_nested_set.rb:286-290 | a row outside the subtree keeps a correct `parent_id` |
| MoveProperties.ParentAfterInside | lib/sequel_sti_nested_set.rb:286-290 | a row strictly inside the subtree keeps a correct `parent_id` |
| MoveProperties.EnclosersOfMoved | lib/sequel_sti_nested_set.rb:271-284 | the rows around the moved node afterwards are those outside it whose new interval spans the new bounds |
| MoveProperties.EnclosersOfMovedSibling | lib/sequel_sti_nested_set.rb:232-247 | for `:left`/`:right` the moved node ends up inside exactly the rows that enclosed the target |
| MoveProperties.ParentAfterMoved | lib/sequel_sti_nested_set.rb:261-290 | `new_parent` (the target, or the target's parent) is the moved node's innermost encloser afterwards |
| MoveProperties.ParentsAfter | lib/sequel_sti_nested_set.rb:271-291 | every `parent_id` is correct after the UPDATE |
| MoveProperties.MovePreservesWellFormed | lib/sequel_sti_nested_set.rb:202-296 | a successful move on a well-formed table leaves a well-formed table |
| MoveProperties.OverlapsIffInside | lib/sequel_sti_nested_set.rb:217-221 | on a well-formed table the overlap test holds exactly for the node itself and its descendants |
| MoveProperties.MoveOutcome | lib/sequel_sti_nested_set.rb:217-252 | for persisted rows: moving into the node itself or its subtree is refused; otherwise an unknown position is refused; every other move succeeds |
| MoveProperties.MoveOutcomeOfRows | lib/sequel_sti_nested_set.rb:202-221 | moving one row relative to another is refused as impossible exactly when the target is the row itself or inside it, and succeeds exactly otherwise with a known position |
| MoveProperties.MovePlacement | lib/sequel_sti_nested_set.rb:223-290 | `:child` makes the node the target's first child; `:left`/`:right` put it immediately before/after the target under the target's parent; the width is kept |
| MoveProperties.MoveIsRigid | lib/sequel_sti_nested_set.rb:272-283 | every row of the moved subtree shifts by the same amount, keeps its parent and stays inside the moved node |
| MoveProperties.MoveFrame | lib/sequel_sti_nested_set.rb:271-291 | keys never change; only the moved row's `parent_id` changes; rows entirely before or after both intervals are untouched |
| Lifecycle.MaxRight | lib/sequel_sti_nested_set.rb:80 | `max(right)` is NULL on an empty table and otherwise some row's `right` that no row exceeds |
| Lifecycle.CreationLeft | lib/sequel_sti_nested_set.rb:80 | the new `left` is 1 on an empty table, otherwise one past the largest `right` |
| Lifecycle.NewNode.BeforeCreate | lib/sequel_sti_nested_set.rb:77-81 | sets `left` to `max(right).to_i + 1` and `right` to `left + 1`, leaving key and parent alone |
| Lifecycle.NewNode.Create | lib/sequel_sti_nested_set.rb:77-81 | saving a new object runs `before_create` and appends its row: the table is `Created` of the old one, and a parentless object with a fresh key keeps a well-formed table well-formed |
| Lifecycle.Created | lib/sequel_sti_nested_set.rb:77-81 | creating appends one row with bounds `(L, L+1)` and leaves the others |
| Lifecycle.CreationLeftOfWellFormed | lib/sequel_sti_nested_set.rb:77-81 | on a well-formed table the new row is `(2N+1, 2N+2)` |
| Lifecycle.CreatedApart | lib/sequel_sti_nested_set.rb:77-81 | the new row `(2N+1, 2N+2)` lies to the right of every old row, which stays as it was |
| Lifecycle.CreatedGapFree | lib/sequel_sti_nested_set.rb:77-81 | the endpoints after a create are exactly `1 .. 2(N+1)` |
| Lifecycle.CreatedParents | lib/sequel_sti_nested_set.rb:77-81 | every `parent_id` is still correct after a parentless create |
| Lifecycle.CreatePreservesWellFormed | lib/sequel_sti_nested_set.rb:77-81 | creating a parentless node with a fresh key keeps the table well-formed |
| Scenarios.CreateThree | spec/sequel_sti_nested_set_spec.rb:2038-2047 | three creates give `(1,2)`, `(3,4)`, `(5,6)` |
| Scenarios.CreateOnObject | lib/sequel_sti_nested_set.rb:77-81 | saving a fourth node object after three roots gives it `(7,8)` and appends it |
| Scenarios.FirstIntoSecond | spec/sequel_sti_nested_set_spec.rb:1477-1484 | `node1.move_to_child_of(node2)` from three roots gives node 2 `(1,4)`, node 1 `(2,3)`, node 3 `(5,6)` |
| Scenarios.ThirdBecomesFirstChild | spec/sequel_sti_nested_set_spec.rb:1747-1754 | `node3.parent = node1` beside an existing child gives `[node1, [node3, node2]]` |
| Scenarios.SameParentAgain | spec/sequel_sti_nested_set_spec.rb:1723-1730 | setting the same parent again changes nothing |
| Scenarios.ThirdLeftOfFirst | spec/sequel_sti_nested_set_spec.rb:1581-1587 | `node3.move_to_left_of(node1)` from three roots gives node 3 `(1,2)`, node 1 `(3,4)`, node 2 `(5,6)` |
| Scenarios.FirstRightOfThird | spec/sequel_sti_nested_set_spec.rb:1622-1628 | `node1.move_to_right_of(node3)` from three roots gives node 2 `(1,2)`, node 3 `(3,4)`, node 1 `(5,6)` |
| Scenarios.RefusedMoves | spec/sequel_sti_nested_set_spec.rb:1702-1712 | moving under itself or its own child is refused; so are an unpersisted node, a missing target and an unknown position |
| Scenarios.DescendantsOfParent | spec/sequel_sti_nested_set_spec.rb:1203-1207 | `all_children` of node 1 is `[node3, node2]` |
| Scenarios.ChainCountsAndLevels | spec/sequel_sti_nested_set_spec.rb:1349-1359 | on the chain `[node1, [node2, [node3]]]`, `children_count` is 2, 1, 0 and `level` of node 3 is 2 |
| Scenarios.CountAndLevel | spec/sequel_sti_nested_set_spec.rb:1191-1201 | `children_count` of node 1 is 2 and `level` of node 2 is 1 |

## Left out

- SQL generation, the transaction and the database are not modelled. The UPDATE is its
  row-by-row meaning; one `move_to` is assumed atomic and alone on the table.
- The final `target.reload` and `reload` are left out: they refresh in-memory objects only.
- Single-table inheritance is left out: the `sti_key` assignment in `before_create`, the
  `row_proc`, `inherited`, and the column-name options. The model uses one table with
  fixed column names, and `model.dataset` is the whole table.
- A query node is passed as its in-memory row, and its "existence" is the presence of its
  key in the table. A Ruby object never saved (nil key) is a key absent from the table.
- `Queries.Parent`: the database has no reference to the row a `parent_id` names; the
  model finds it by key in the table.
- `Lifecycle.Created`: the INSERT itself belongs to Sequel. The model appends the row that
  `before_create` prepared.
- `Lifecycle.CreatePreservesWellFormed`: the lemma requires a NULL `parent_id`. A create
  that presets a parent is not repaired by the plugin.
- `Moves.MoveTo`, `Moves.SetParent`: the target is a key (`int`), so a `nil` target
  (`node.parent = nil`) cannot be expressed. In the code that call fails at `nil.reload`
  inside the transaction, with Ruby's NoMethodError, and nothing is written.
- `destroy` and closing gaps are not part of this plugin's code and are not modelled.
- Integer columns are unbounded; database integer overflow is not modelled.
