# Family tree model

This project models the core of a family-tree viewer. It covers two parts.

- **The tree.** A set of people, each with an ordered list of typed links (`Family` records) to other people. The tree's operations are `connect`, `fix`, `explore`, `explore_blood`, `add`, `get`, `rename` and `search_names`.
- **The layout pass of `drawTree`.** It places the blood relatives of the head row by row. Each newcomer goes just left or just right of someone already placed, so every row stays a gap-free list.

## How the model is built

**The tree.**
- The people form an arena `People = map<int, Person>` keyed by id.
- The iteration order of the source's member set is a sequence `order` that lists every member once.
- A link names its target by id. A `Closed` arena has no dangling link.
- A ghost `rank` map witnesses that parent and child links contain no cycle anywhere in the tree: a child ranks strictly below its parent. `Sound` means closed and ranked. This is stronger than the source needs. The source's `while next_nodes` descendant floods (`explore`, `_explore_blood`) loop forever on a child-link cycle they reach. `get_child_row` recurses around such a cycle until Python raises `RecursionError`. The source does finish on two mutual `parent` links without children, and on a child cycle that nothing reaches. The model excludes those inputs too.
- Each member of `Tree` that updates the tree in place changes the fields of the `FamilyTree.Tree` class. It is proved equal to a value-level specification over `People`:
  - `ConnectNodes` for `connect`;
  - `FixSpec` for `fix`;
  - `BloodFrom`/`BloodSpec` for `explore_blood`;
  - `ExploreSpec` for `explore`;
  - `RenamePeople` for `rename`.
- The properties the source depends on are proved as lemmas about those functions:
  - every parent, child and spouse link is answered after `connect`;
  - re-connecting appends only the sibling list again;
  - the parent promotion in `fix` is idempotent and keeps every view;
  - with a level bound `k`, the blood set is the head together with the descendants of its ancestors 1 to `k` levels up;
  - without a bound, the blood set is the bounded one at a level count `k` where `k - 1` levels already give the same set. The traversal stops at the first pass that adds nobody new. Ancestors above that level are not reached, even when a larger bound would reach them. For example, take a head with parents `a` and `b`, where `b` has no parents and `a`'s only parent `g` is a child of `b`. The second pass finds only `g`, who was already seen as a descendant of `b`. So it adds nobody, and a second parent of `g` is never visited, although three levels would include it. `fix` sets its blood flags from this unbounded set;
  - a rename round-trips.

**The layout.**
- The `DrawTree.Layout` class holds the state of the layout pass:
  - the generation rows;
  - the `g` and `pos` attributes as maps;
  - the seen paths;
  - the `seen` set and the `next_add` worklist.
- Its invariant `Valid` says every row is indexed: the entry at index `i` of row `g` has position `i` and generation `g`, and every placed person sits in its row at its own index.
- `add_left` and `add_right` are proved to insert at the promised index and to shift exactly the later entries of that row.
- The anchors `add_parent` and `add_child` choose are stated as functions (`ParentAnchor`, `ChildAnchor`). The methods are proved to place at those anchors.
- The worklist loop is proved to keep the layout indexed and, when it finishes without an assertion failure:
  - to empty the worklist;
  - to keep every generation within the bounds it reports;
  - to place every blood relative (sibling, spouse, parent, child) of each person it expanded.

## Model

| member | source | states |
|---|---|---|
| Relationship.Classify | family_tree.py:45-65 | the class tag is the parent kind exactly for parent, adopted parent, father and mother; the child kind exactly for child, adopted child, son and daughter; the spouse kind exactly for spouse and partner |
| Relationship.ClassesDisjoint | family_tree.py:31-65 | no relation is in two of the three classes, and the relations in none are exactly sibling and step-sibling |
| Family.Targets | family_tree.py:177-207 | a view lists one target per link it keeps, never more than there are links, and an id appears in it exactly when some kept link targets it |
| Family.TargetsAppend | family_tree.py:177-207 | the view of two concatenated link lists is the concatenation of their views, so views keep link order |
| Family.TargetsSingle | family_tree.py:177-207 | a single link contributes its target to a view exactly when the view keeps its relation |
| Family.ParentCompleteIffTwoParentLinks | family_tree.py:169-171 | `parent_complete` holds exactly when there are two parent-kind links |
| Family.SiblingsExcludeStep | family_tree.py:201-207 | someone linked only by step-sibling links is not in the siblings view |
| Family.IdAllocator.constructor | family_tree.py:106-108 | the class-level counter starts at 0 with no ids seen |
| Family.IdAllocator.Register | family_tree.py:110-120 | an explicit id already seen fails with nothing changed; otherwise the explicit id or the counter becomes the id, joins the seen ids and is fresh; the counter moves past explicit ids and steps by one for automatic ones; more than two parent links fail after the id is recorded |
| Graph.TargetSetsAreViews | family_tree.py:177-191 | the child and parent target sets hold exactly the members of the children and parents views |
| Graph.ChildRanked | family_tree.py:312-317 | every child of a member is a member ranked strictly below it, so descending along children terminates |
| Graph.DescUnfold | family_tree.py:312-317 | the descendants of a person are the person plus the descendants of its children |
| Graph.DescOfPop | family_tree.py:313-317 | popping one person from the worklist and pushing its children loses none of the descendants still to collect and adds none |
| Graph.DescChildClosed | family_tree.py:312-317 | the descendants of a person are closed under taking children |
| Graph.DescOfInKeys | family_tree.py:312-317 | the descendants of any set are members of the tree |
| Graph.ExploreInKeys | family_tree.py:298-319 | `explore` returns members only |
| Graph.ExploreMonotone | family_tree.py:298-319 | more levels never return fewer people |
| Graph.ExploreStep | family_tree.py:303-319 | one more level keeps everyone the previous level found |
| Graph.ExploreHasHead | family_tree.py:298-319 | the head is in every `explore` result |
| Graph.RoundGrows | family_tree.py:306-319 | one round of `explore` keeps the set it started from |
| Graph.RoundInKeys | family_tree.py:306-319 | one round started from members yields members only |
| Graph.RoundChildClosed | family_tree.py:306-319 | the result of one round is closed under taking children |
| Graph.RoundHasParents | family_tree.py:306-311 | the result of one round contains every parent of the set it started from |
| Graph.ExploreChildClosed | family_tree.py:303-319 | from one level on, the `explore` result is closed under taking children |
| Graph.ExploreHasParents | family_tree.py:303-319 | level n of `explore` contains every parent of level n - 1 |
| Graph.BloodFromStep | family_tree.py:329-358 | one round of `_explore_blood` adds the descendants of the next ancestor level, then stops when no levels are left or nothing is new, and otherwise recurses on that level |
| Graph.BloodFromDone | family_tree.py:351-353 | without a level bound, the traversal returns the seen set once a pass adds nothing to it |
| Graph.BloodFromNext | family_tree.py:351-356 | otherwise its result is the recursion's result on the new seen set and next ancestor level, with one level fewer when bounded |
| Graph.UnseenShrinks | family_tree.py:351-354 | a pass that adds someone leaves fewer members unseen, so the unbounded recursion terminates |
| Graph.BloodLevels | family_tree.py:324-358 | with a level bound k the result is the seen set plus the descendants of every ancestor level from 1 to k |
| Graph.BloodMembers | family_tree.py:321-358 | a person is in `explore_blood(k)` exactly when it is the head or a descendant of an ancestor of the head between 1 and k levels up |
| Graph.BloodGrows | family_tree.py:324-358 | the result contains the seen set and only members |
| Graph.BloodMonotone | family_tree.py:324-358 | one more level never returns fewer people |
| Graph.BloodNoneOnePass | family_tree.py:351-354 | without a level bound, the result contains at least the people one round adds |
| Graph.BloodNoneIsSomeLevel | family_tree.py:324-358 | the unbounded traversal returns what the traversal bounded at some `k >= 1` returns, and `k - 1` levels return the same: it stops at a fixpoint of the passes |
| Graph.BloodSpecNoneIsSomeLevel | family_tree.py:321-358 | `explore_blood()` from the head equals `explore_blood(k)` for some `k >= 1` with `explore_blood(k) == explore_blood(k - 1)` |
| Graph.BloodNoneStops | family_tree.py:351-353 | a pass that adds nobody ends the unbounded traversal with the seen set, which is also what one level gives |
| Graph.BloodNoneGoesOn | family_tree.py:351-354 | a pass that adds someone: if the rest of the traversal stops at level `k1`, the whole one stops at level `k1 + 1` |
| Graph.BloodFromLevel | family_tree.py:355-356 | `k` levels from the seen set are `k - 1` levels from what one pass found, with the parents as the next frontier |
| Graph.Fewer | family_tree.py:351-356 | the bound for the next pass stays absent when absent, and is otherwise one less |
| Graph.BloodWithoutParents | family_tree.py:324-358 | a head without parents is its own whole blood set, bounded or not |
| Graph.BloodWithoutParentsLevels | family_tree.py:324-358 | the same, for any positive level bound |
| Connect.BackLinkInverts | family_tree.py:244-270 | parent, child, adopted-child and spouse kinds get a back-link; the back-link of a parent kind is a child kind, of a child kind a parent kind, of a spouse kind a spouse kind; son, daughter and the sibling kinds get none |
| FamilyTree.FiveTestsAreOneStep | family_tree.py:244-270 | the five tests of the back-link loop body, run one after another, act as one combined back-link step for any link |
| Connect.BackLinksAnswer | family_tree.py:241-270 | after a member's back-link pass, each of its links that needs an answer is answered by a link back to it |
| Connect.BackLinksAnsweredNoop | family_tree.py:241-270 | when every link of the member is already answered, the back-link pass changes nothing |
| Connect.BackLinksIdempotent | family_tree.py:241-270 | running a member's back-link pass twice is the same as once |
| Connect.BackLinksGrows | family_tree.py:241-270 | the back-link pass only appends links; no record changes otherwise |
| Connect.ConnectGrows | family_tree.py:240-286 | `connect` only appends links; names, genders, flags and existing links stay as they were |
| Connect.ConnectSound | family_tree.py:240-286 | `connect` keeps the tree closed and acyclic under the same rank |
| Connect.ConnectNodesAnswer | family_tree.py:240-286 | after the members processed so far, their links and every link appended since the start are answered |
| Connect.ConnectReciprocal | family_tree.py:240-286 | after `connect` every parent, child, adopted-child and spouse link is answered by a link back |
| Connect.SiblingListKinds | family_tree.py:272-286 | each link already in the sibling list targets another member of the order; it is a sibling link exactly when the two share two parents, and a step-sibling link exactly when they share one |
| Connect.SiblingListComplete | family_tree.py:272-286 | the sibling list holds a sibling link to a member exactly when it is another member of the order sharing two parent ids, and a step-sibling link exactly when they share one |
| Connect.SiblingPassComplete | family_tree.py:272-286 | after the sibling pass the member has a sibling link to every other member sharing two parent ids and a step-sibling link to every one sharing one |
| Connect.SiblingStepAppends | family_tree.py:273-286 | one sibling comparison appends at most to the member itself and keeps its parents |
| Connect.SiblingPassAppends | family_tree.py:272-286 | the sibling pass appends exactly the sibling list to the member and leaves everyone else alone |
| Connect.SiblingPassKeepsParents | family_tree.py:272-286 | no member's parents change during the sibling pass |
| Connect.SiblingListSame | family_tree.py:272-286 | the sibling list depends only on the members' parents views |
| Connect.SiblingPassTwice | family_tree.py:272-286 | a second sibling pass appends the same sibling list a second time |
| Connect.ReconnectOnlySiblings | family_tree.py:360-363 | on a tree whose links are all answered, re-running the per-member connect step adds nothing but another copy of that member's sibling list |
| Fixing.PromoteLink | family_tree.py:232-236 | promotion keeps the target and changes only an exact parent link |
| Fixing.PromoteKeepsClass | family_tree.py:232-236 | a promoted link keeps its target and belongs to exactly the views it belonged to before |
| Fixing.PromoteResult | family_tree.py:232-236 | after promotion, an exact parent link leads only to someone of other or unknown gender, and a promoted father or mother link leads to a male or a female member respectively; other links are untouched |
| Fixing.PromoteKeepsViews | family_tree.py:227-236 | promotion changes none of the parents, children, spouses or siblings views, nor `parent_complete` |
| Fixing.PromoteIdempotent | family_tree.py:228-236 | promoting twice is the same as once |
| Fixing.PromoteSound | family_tree.py:228-236 | promotion keeps the tree closed and acyclic |
| Fixing.PromoteReciprocal | family_tree.py:228-236 | promotion keeps every answered link answered |
| Fixing.SetBloodEffect | family_tree.py:237-238 | marking sets the blood flag of exactly the marked members, never clears a flag and touches nothing else |
| Fixing.FixEffect | family_tree.py:227-238 | after `fix` the head has the blood flag, as does everyone in its unbounded blood set; no flag is cleared; no view changed |
| Fixing.FixSound | family_tree.py:227-238 | `fix` keeps the members and keeps the tree closed and acyclic |
| Lookup.RenamePeople | family_tree.py:370-376 | after renaming `a` to `b`, the members are those before with `a` replaced by `b` |
| Lookup.RenameKeepsRecords | family_tree.py:370-376 | renaming changes ids only: every record keeps its name, gender, flags and each link's relation, and each link target is renamed |
| Lookup.RenameRoundTrip | family_tree.py:370-376 | renaming to an id no member uses or links to, then back, gives the original tree |
| Lookup.RenameClosed | family_tree.py:370-376 | renaming keeps the tree closed |
| Lookup.RenameRanked | family_tree.py:370-376 | renaming keeps the tree acyclic, with `b` taking the rank of `a` |
| FamilyTree.RenameKeepsValid | family_tree.py:370-376 | the renamed order still lists every renamed member once, the renamed tree is closed and acyclic, and the renamed head is a member |
| Lookup.Contains | family_tree.py:293 | Python's `name in node.name` holds exactly when the name occurs somewhere in the other string as a contiguous piece |
| Lookup.ContainsEdges | family_tree.py:293 | the empty name occurs in every name, and a longer string never does |
| FamilyTree.Tree.constructor | family_tree.py:212-216 | building a tree connects its members, then fixes them; the head is the first member in iteration order |
| FamilyTree.Tree.Head | family_tree.py:218-222 | the cached head if there is one, otherwise the first member, which is then cached; nothing else changes |
| FamilyTree.Tree.SetHead | family_tree.py:224-225 | the head becomes the given member and nothing else changes |
| FamilyTree.Tree.Connect | family_tree.py:240-286 | the members become `ConnectNodes` of the old members over the iteration order, and the tree stays closed and acyclic |
| FamilyTree.Tree.ConnectOne | family_tree.py:241-286 | one turn of the outer loop: the member's back-link pass, then its sibling pass |
| FamilyTree.Tree.LinkBack | family_tree.py:242-270 | the members become the back-link pass of the node's links over the old members, and the tree stays valid |
| FamilyTree.Tree.BackLinkLoop | family_tree.py:242-270 | the loop over the node's links computes exactly that back-link pass |
| FamilyTree.Tree.LinkBackOne | family_tree.py:243-270 | one link's five tests are one back-link step |
| FamilyTree.Tree.AppendIfMissing | family_tree.py:246-249 | appends a link to the node only when the target has no link to it yet |
| FamilyTree.Tree.AddSiblings | family_tree.py:272-286 | the members become the sibling pass of the node over the order, and the tree stays valid |
| FamilyTree.Tree.SiblingLoop | family_tree.py:272-286 | the loop over the order computes exactly that sibling pass |
| FamilyTree.Tree.AddSiblingOne | family_tree.py:273-286 | one comparison with another member is one sibling step |
| FamilyTree.Tree.Fix | family_tree.py:227-238 | the head is cached and the members become `FixSpec` of the old members: promotion, then the blood flags of the unbounded blood set |
| FamilyTree.Tree.PromoteParents | family_tree.py:228-236 | the first loop of `fix` promotes every member's links |
| FamilyTree.Tree.PromoteFamily | family_tree.py:229-236 | the inner loop promotes one link list |
| FamilyTree.Tree.MarkBlood | family_tree.py:237-238 | the second loop sets the blood flags of the given set |
| FamilyTree.Tree.Flood | family_tree.py:343-347 | the descendant worklist loop adds to the seen set exactly the descendants of its start set |
| FamilyTree.FloodStep | family_tree.py:343-347 | one pop of the worklist keeps the remaining descendants the same and strictly lowers the termination weight |
| FamilyTree.Tree.PushChildren | family_tree.py:346-347 | pushes exactly the children of the popped person |
| FamilyTree.Tree.ParentsOf | family_tree.py:337-340 | collects exactly the parents of the given set, all members |
| FamilyTree.Tree.AddParents | family_tree.py:338-340 | adds exactly the parents of one person to the collected set |
| FamilyTree.Tree.Explore | family_tree.py:298-319 | the result is `ExploreSpec` of the head and the level count |
| FamilyTree.Tree.ExploreBlood | family_tree.py:321-358 | the result is the blood set of the head; with a bound `k` it is the head plus the descendants of its ancestors 1 to `k` levels up; without one it equals the bounded result at a level count `k >= 1` where `k - 1` levels give the same set |
| FamilyTree.Tree.ExploreBloodFrom | family_tree.py:324-358 | the recursion computes `BloodFrom` of its seen set and top level |
| FamilyTree.Tree.BloodPass | family_tree.py:332-347 | one pass: the next frontier is exactly the parents of the frontier, and the seen set gains exactly their descendants |
| FamilyTree.Tree.Add | family_tree.py:360-363 | a new member joins the members, the iteration order becomes any order listing the old members and the newcomer once each (set growth may re-hash and permute the old members), then the tree is connected and fixed over that order; adding an id already present keeps the order and only reconnects and refixes |
| FamilyTree.Tree.Admit | family_tree.py:361 | the new member joins the members, the iteration order becomes the given enumeration of the grown set, and the tree stays valid |
| FamilyTree.Tree.Get | family_tree.py:365-368 | a member's record is found exactly when the id is a member; otherwise nothing is returned |
| FamilyTree.Tree.Rename | family_tree.py:370-376 | the members become `RenamePeople`, the order is renamed in place, the head is renamed, and the tree stays valid |
| FamilyTree.Tree.Rekey | family_tree.py:371-373 | the member with the old id is stored under the new id |
| FamilyTree.Tree.RelinkAll | family_tree.py:374-376 | every link to the old id now names the new id |
| FamilyTree.RenamedEnumerates | family_tree.py:370-373 | the renamed order lists every renamed member exactly once |
| FamilyTree.Tree.SearchNames | family_tree.py:288-296 | the result is exactly the members whose name contains the searched name |
| DrawTree.Insert | draw_tree.py:207 | `list.insert`: one longer, the new entry at the index, earlier entries kept and later ones shifted by one |
| DrawTree.InsertIndexed | draw_tree.py:202-218 | inserting an unplaced person into its row and shifting the later entries keeps every row indexed |
| DrawTree.BumpIsShift | draw_tree.py:208-209 | bumping the positions of the entries after the new one is the same as shifting every placed person of that row from the index on |
| DrawTree.ShiftKeepsOrder | draw_tree.py:208-209 | shifting keeps the left-to-right order of any two people of one row |
| DrawTree.ShiftEmptyRow | draw_tree.py:223-226 | placing into an empty row moves nobody |
| DrawTree.GenIndexed | draw_tree.py:452 | setting the generation of someone not yet placed keeps every row indexed |
| DrawTree.Best | draw_tree.py:280-285 | the leftmost or rightmost candidate: nothing exactly when there are no candidates, otherwise a candidate no other is more extreme than |
| DrawTree.BestSnoc | draw_tree.py:243-246 | a later candidate takes over only when strictly more extreme |
| DrawTree.BestFirst | draw_tree.py:280-285 | the chosen candidate is the first of the most extreme ones |
| DrawTree.Layout.constructor | draw_tree.py:190-200 | the head alone in row 0 with generation 0, position 0 and an empty seen path; the seen set and the worklist hold just the head |
| DrawTree.Layout.AddLeft | draw_tree.py:202-209 | the new person takes the anchor's index, and the anchor and everyone after it in the row move one right; a generation mismatch fails with nothing changed; the seen path is updated when asked |
| DrawTree.Layout.AddRight | draw_tree.py:211-218 | the new person goes just after the anchor, and everyone after that index moves one right; a generation mismatch fails with nothing changed; the seen path is updated when asked |
| DrawTree.Layout.InsertAt | draw_tree.py:207-209 | the insertion at an index keeps the layout indexed |
| DrawTree.Layout.Bumping | draw_tree.py:208-209 | the bump loop adds one to the position of each listed person |
| DrawTree.Layout.AppendFirst | draw_tree.py:223-226 | a newcomer to an empty row goes in at position 0 |
| DrawTree.Layout.Apply | draw_tree.py:202-226 | placing at an anchor: an empty row, left or right of a placed person, or nowhere (fails with nothing changed) |
| DrawTree.Layout.PlacedOf | draw_tree.py:229-231 | the listed people that have a position |
| DrawTree.Layout.FirstPlaced | draw_tree.py:229-238 | something is found exactly when one of the parents is placed, and then it is a placed parent |
| DrawTree.Layout.ExtremeParent | draw_tree.py:242-246 | the chosen parent of a row neighbour is placed |
| DrawTree.Layout.LeftScan | draw_tree.py:241-249 | the anchor found scanning left from the person is placed |
| DrawTree.Layout.RightScan | draw_tree.py:252-260 | the anchor found scanning right is placed |
| DrawTree.Layout.ParentAnchor | draw_tree.py:220-260 | the empty-row anchor only for an empty parent row; any other anchor is a placed person |
| DrawTree.Layout.RowAnchor | draw_tree.py:240-260 | the row-scan anchor is a placed person or nowhere |
| DrawTree.Layout.AddParent | draw_tree.py:220-260 | the parent is placed at the anchor `ParentAnchor` chooses, with the layout kept indexed and only the parent newly placed |
| DrawTree.Layout.FindParentAnchor | draw_tree.py:222-260 | computes exactly `ParentAnchor` |
| DrawTree.Layout.FindRowAnchor | draw_tree.py:240-260 | computes exactly `RowAnchor` |
| DrawTree.Layout.FindFirstPlaced | draw_tree.py:229-238 | computes exactly `FirstPlaced` |
| DrawTree.Layout.ScanLeft | draw_tree.py:241-249 | computes exactly `LeftScan` |
| DrawTree.Layout.ScanRight | draw_tree.py:252-260 | computes exactly `RightScan` |
| DrawTree.Layout.FindExtremeParent | draw_tree.py:243-246 | computes exactly `ExtremeParent` |
| DrawTree.Layout.ChildRow | draw_tree.py:262-285 | a result is a placed member of the requested row |
| DrawTree.Layout.Hits | draw_tree.py:275-279 | every hit is a placed member of the requested row |
| DrawTree.Layout.ChildRowDescends | draw_tree.py:262-285 | a result is a descendant of the person the search started from |
| DrawTree.Layout.HitsDescend | draw_tree.py:275-279 | every hit descends from one of the children searched |
| DrawTree.Layout.GetChildRow | draw_tree.py:262-285 | computes exactly `ChildRow` |
| DrawTree.Layout.ChildLeft | draw_tree.py:317-329 | the anchor found among the row to the left is placed in the child's row |
| DrawTree.Layout.ChildRight | draw_tree.py:331-344 | the anchor found among the row to the right is placed in the child's row |
| DrawTree.Layout.PathAnchor | draw_tree.py:429-440 | the seen-path anchor is placed in the child's row, or nowhere |
| DrawTree.Layout.ChildAnchor | draw_tree.py:287-440 | the empty-row anchor only for an empty child row; any other anchor is a placed person of the child's generation |
| DrawTree.Layout.AddChild | draw_tree.py:287-440 | the child is placed at the anchor `ChildAnchor` chooses and never hits a generation mismatch; the layout stays indexed and only the child is newly placed |
| DrawTree.Layout.FindChildAnchor | draw_tree.py:291-440 | computes exactly `ChildAnchor` |
| DrawTree.Layout.ScanChildLeft | draw_tree.py:317-329 | computes exactly `ChildLeft` |
| DrawTree.Layout.ScanChildRight | draw_tree.py:331-344 | computes exactly `ChildRight` |
| DrawTree.Layout.ScanPath | draw_tree.py:429-440 | computes exactly `PathAnchor` over the whole seen path |
| DrawTree.Layout.Prepare | draw_tree.py:483-485 | sets the relative's generation and seen path, and marks a parent as ignoring the tree |
| DrawTree.Layout.Dispatch | draw_tree.py:454-499 | siblings and spouses are always placed, on the side the person's gender decides; children never hit a generation mismatch |
| DrawTree.Layout.Beside | draw_tree.py:454-457 | a sibling or spouse of the same generation is always placed, directly left of the person or directly right of it |
| DrawTree.Layout.Record | draw_tree.py:460-461 | a placed relative joins the seen set, and the worklist unless it is a spouse |
| DrawTree.Layout.PlaceOne | draw_tree.py:447-503 | placing one relative keeps the layout indexed, gives it its role's generation, and when placed adds it to the seen set and (unless a spouse) to the worklist; failures leave the positions alone |
| DrawTree.Layout.PlaceRelatives | draw_tree.py:447-461 | one relative loop places every listed blood relative not yet seen, adds them to the worklist unless spouses, and keeps the generations of those already placed |
| DrawTree.Layout.PlaceLevel | draw_tree.py:447-476 | after the sibling and spouse loops every blood sibling and spouse is placed, and spouses share the person's generation |
| DrawTree.Layout.PlaceLines | draw_tree.py:478-503 | after the parent and child loops every blood parent and child is placed and on the worklist |
| DrawTree.Layout.Expand | draw_tree.py:447-503 | expanding a person places all four kinds of blood relatives and puts the newcomers other than spouses on the worklist |
| DrawTree.Layout.WorkStep | draw_tree.py:443-503 | one turn of the loop keeps its invariant: everyone placed and off the worklist has a generation within the reported bounds, and each of them not placed as a spouse has all its blood relatives placed |
| DrawTree.Layout.Turn | draw_tree.py:444-503 | a turn keeps the invariant and either places someone new or shrinks the worklist |
| DrawTree.Layout.Run | draw_tree.py:443-503 | the loop keeps the layout indexed; on success the worklist is empty, every placed generation lies between the smallest and largest reported, and everyone placed other than a spouse has all its blood relatives placed |
| DrawTree.Draw | draw_tree.py:187-503 | the layout is built over the blood set of the head within the level bound, starts from the head, and places only people of that set; on success the worklist is empty, every placed generation lies within the reported bounds, and everyone placed other than as a spouse has all its drawn siblings, spouses, parents and children placed |

## Left out

- Drawing, pygame, the `Vector` class, screen geometry, mouse handling and the image export (draw_tree.py from line 505 on, and lines 1-180) are left out. They are user interface with floating-point coordinates.
- `print` calls and debugging output have no effect on the model's state and are not modelled.
- Dates, sources, notes, `dob`/`dod`, `spouse_complete`, `double_check` and `ignore` carry no logic in the core. `child_complete` is kept only as a flag.
- `Person.generation`, `Person.path` and `__str__`/`__repr__` are not part of this model. They are not called by the core operations.
- out.py is not part of this model.
- The `person` object cache on `Family` links, filled in lazily by `fix`: links name their target by id, and `Closed` guarantees `get` finds every target.
- FamilyTree.Tree.constructor requires a non-empty tree. On an empty tree the source's `fix` fails inside `_explore_blood`, which reads the parents of the `None` head before any blood flag is set.
- FamilyTree.Tree.constructor and FamilyTree.Tree.Add require every link to lead to a member and parent/child links to have no cycle, witnessed by a rank. The requirements exclude more than the source needs:
  - `connect` reads the target's links only for the kinds its five tests handle. A dangling link fails there only when it is a parent kind (parent, adopted parent, father, mother), child, adopted child, or a spouse kind (spouse, partner).
  - A dangling `son`, `daughter`, `sibling` or `step_sibling` link passes `connect` and `fix`; `fix` reads the target's gender only for an exact `parent` link. Such a link fails later, and only when a descendant flood reaches a dangling child link or the layout expands its owner.
  - The descendant floods loop forever on a child-link cycle they reach, and `get_child_row` recurses around one until Python raises `RecursionError`. Cycles nothing reaches, and mutual `parent` links without children, are handled.
  - `Closed` and the rank exclude all of these tolerated inputs as well.
- FamilyTree.Tree.SetHead requires the new head to be a member. The source stores any object.
- FamilyTree.Tree.Rename and Lookup.RenamePeople require the new id to be unused or equal to the old one. The source has no such check, and its set would then hold two people with one id, which a map keyed by id cannot represent.
- The member set is a hashed set whose hash is the id, so a rename leaves it stale. The model keeps the renamed member at its old place in the iteration order.
- The iteration order of the member set is a parameter: the order in which the tree was given, and for `add` of a new id any order that lists the old members and the newcomer once each. A growing hashed set may re-hash and permute the old members, so the model does not assume their relative order survives. Which permutation the interpreter's hash table yields is not modelled.
- The order `next_add.pop()` and `next_nodes.pop()` pick in is not modelled. The model picks any element, and every contract holds whichever is picked.
- The assertions of the layout pass become `Outcome` values: `GenerationMismatch` for the check in `add_left`/`add_right`, `NoAnchor` for the `pos` check after `add_parent`/`add_child`. The loop stops at the first failure instead of raising.
- DrawTree.Layout.PlaceOne does not restate which anchor parents and children get. That is stated by DrawTree.Layout.AddParent and DrawTree.Layout.AddChild.
- `ignore_tree` is recorded for parents but never read. `add_child` calls `get_child_row` without an `ignore` argument, so the model keeps the flag and its branch of `get_child_row` without using them further.
- DrawTree.Layout.Run does not claim that every blood relative ends up placed. A person placed only as a spouse is not expanded in the source either.
- FamilyTree.Tree.Explore and FamilyTree.Tree.ExploreBlood take natural level counts. In the source a negative count never reaches 0, so the recursion goes on until Python raises `RecursionError`.
- DrawTree.Draw takes `generations` as a natural number. The source reads it from the command line, where a negative value would make `_explore_blood` recurse until Python raises `RecursionError`.
