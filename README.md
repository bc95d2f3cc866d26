# acts_as_list: the list engine, in Dafny

This project models the record-level list engine of acts_as_list. A model class
that `acts_as_list` keeps a position column, and a scope column that groups its
records into lists. The engine's instance methods read and write that column:
queries, moves, insertion at an index, removal, and the callbacks that place
new or re-scoped records. The class method `update_ordered_list` rewrites the
positions of one list in bulk.

The table is a map from record id to a row with a scope key and an optional
position. Positions are exact reals. A record whose position is absent is not
in the list. No two in-list records of a scope share a position. This is the
invariant (`DistinctPositions`) of the `ActsAsList.List` class. Every method
that models a public instance method, a callback or `update_ordered_list`
keeps it. The three low-level writers `SetListPosition`, `SwapPositionsWith`
and `ApplyUpdates` are stated by their effect on the table only, because they
may be handed a position that breaks the invariant.

Files, one module each:

- `store.dfy` (`Store`): the table, the in-list records of a scope, minimum and
  maximum, and sorting by ascending position with its uniqueness.
- `queries.dfy` (`Queries`): the read-only instance methods.
  - `top_position_in_list` and `bottom_position_in_list`;
  - `items_above`, `items_below`, `higher_items` and `lower_items`;
  - `higher_item` and `lower_item`;
  - `index_in_list`, `item_at_index`, `first?` and `last?`.
- `moves.dfy` (`Moves`): the single-record writes.
  - `set_list_position`, `swap_positions_with`, `move_lower` and `move_higher`;
  - `assume_*_position`, `move_to_*`, `add_to_list_*` and `remove_from_list`.
- `insertion.dfy` (`Insertion`): `take_position_between`, `insert_at_index`
  and `insert_at`, with the index they leave the record at.
- `callbacks.dfy` (`Callbacks`): `check_scope` and the `before_create`
  placement.
- `reorder.dfy` (`BulkReorder`): `update_ordered_list`.
  - The sanitising of the request (Ruby's `&` and `-` on arrays).
  - The zip loop that plans the writes.
  - The proof that the writes sort the list as requested.
- `list.dfy` (`ActsAsList`): the class `List`. It holds the table as a field,
  plus the `top_of_list` and `add_new_at` settings. Its methods update the
  table step by step, as the library does. Each method is proved to leave the
  table that the specification function of the same operation describes.

## Model

| member | source | states |
|---|---|---|
| Queries.Order | lib/acts_as_list/active_record/acts/list.rb:373-378 | the list ordered by position lists every in-list record of the scope exactly once, in strictly ascending position |
| Queries.TopPosition | lib/acts_as_list/active_record/acts/list.rb:305-309 | absent exactly when every in-list record of the scope is the excepted one; otherwise a position some candidate holds and no candidate is below |
| Queries.BottomPosition | lib/acts_as_list/active_record/acts/list.rb:297-303 | absent exactly when no candidate remains; otherwise a position some candidate holds and no candidate is above |
| Queries.Limited | lib/acts_as_list/active_record/acts/list.rb:392 | a SQL LIMIT returns all candidates when absent, otherwise the smaller of the limit and the number of candidates |
| Queries.ItemsAbove | lib/acts_as_list/active_record/acts/list.rb:386-400 | ascending records of the list below the position; the limit keeps the nearest ones (every left-out candidate is below every kept one); without a limit, all of them |
| Queries.ItemsBelow | lib/acts_as_list/active_record/acts/list.rb:402-407 | ascending records of the list above the position; the limit keeps the nearest ones; without a limit, all of them |
| Queries.HigherItems | lib/acts_as_list/active_record/acts/list.rb:219-223 | empty for a record not in the list, otherwise the items above its position |
| Queries.LowerItems | lib/acts_as_list/active_record/acts/list.rb:230-234 | empty for a record not in the list, otherwise the items below its position |
| Queries.HigherItem | lib/acts_as_list/active_record/acts/list.rb:214-217 | the in-list record positioned nearest before this one; absent exactly when the record is not in the list or nothing is before it |
| Queries.LowerItem | lib/acts_as_list/active_record/acts/list.rb:225-228 | the in-list record positioned nearest after this one; absent exactly when the record is not in the list or nothing is after it |
| Queries.IndexInList | lib/acts_as_list/active_record/acts/list.rb:245-249 | present exactly when the record is in the list, and then at least top_of_list |
| Queries.IndexCountsHigher | lib/acts_as_list/active_record/acts/list.rb:245-249 | the index is top_of_list plus the number of records of the list positioned strictly before this one |
| Queries.IndexInListPlace | lib/acts_as_list/active_record/acts/list.rb:245-249 | the index less top_of_list is the record's place in the ordered list |
| Queries.ItemAtIndex | lib/acts_as_list/active_record/acts/list.rb:373-378 | present exactly for offsets 0 to the list length less one, and then the record at that place of the order |
| Queries.ItemAtIndexRank | lib/acts_as_list/active_record/acts/list.rb:373-378 | the record found at offset i has exactly i records of the list before it |
| Queries.IsFirst | lib/acts_as_list/active_record/acts/list.rb:204-207 | true exactly when the record is in the list and no record of the list is positioned before it |
| Queries.IsLast | lib/acts_as_list/active_record/acts/list.rb:209-212 | true exactly when the record is in the list and no record of the list is positioned after it |
| Queries.OrderPlace | lib/acts_as_list/active_record/acts/list.rb:245-249 | a record at place j of the order has index top + j |
| Queries.ItemThenIndex | lib/acts_as_list/active_record/acts/list.rb:245-249 | the record item_at_index(i) finds reports index top + i (see also list.rb:373-378) |
| Queries.IndexThenItem | lib/acts_as_list/active_record/acts/list.rb:245-249 | a record reporting index top + i is the one item_at_index(i) finds (see also list.rb:373-378) |
| Queries.IndexItemRoundTrip | lib/acts_as_list/active_record/acts/list.rb:245-249 | item_at_index and index_in_list are inverse: found at offset i if and only if index top + i (see also list.rb:373-378) |
| Queries.FirstIffIndexTop | lib/acts_as_list/active_record/acts/list.rb:204-207 | first? holds if and only if the index is top_of_list (see also list.rb:245-249) |
| Queries.LastHasBottomIndex | lib/acts_as_list/active_record/acts/list.rb:209-212 | a last? record has index top + length - 1 (see also list.rb:245-249) |
| Queries.BottomIndexIsLast | lib/acts_as_list/active_record/acts/list.rb:209-212 | a record with index top + length - 1 is last? (see also list.rb:245-249) |
| Queries.LastIffIndexBottom | lib/acts_as_list/active_record/acts/list.rb:209-212 | last? holds if and only if the index is the last one of the list (see also list.rb:245-249) |
| Queries.HigherItemIndex | lib/acts_as_list/active_record/acts/list.rb:214-217 | the higher item's index is one less than the record's (see also list.rb:245-249) |
| Queries.LowerItemIndex | lib/acts_as_list/active_record/acts/list.rb:225-228 | the lower item's index is one more than the record's (see also list.rb:245-249) |
| Queries.HigherExistsInOrder | lib/acts_as_list/active_record/acts/list.rb:214-217 | the record at place t has a higher item if and only if t is not the first place |
| Queries.HigherIsPrevious | lib/acts_as_list/active_record/acts/list.rb:214-217 | the higher item of the record at place t > 0 is the record at place t - 1 |
| Queries.LowerExistsInOrder | lib/acts_as_list/active_record/acts/list.rb:225-228 | the record at place t has a lower item if and only if t is not the last place |
| Queries.LowerIsNext | lib/acts_as_list/active_record/acts/list.rb:225-228 | the lower item of the record at place t is the record at place t + 1 |
| Moves.SetPos | lib/acts_as_list/active_record/acts/list.rb:256-259 | writes the position of one record and nothing else |
| Moves.MembersAfterWrite | lib/acts_as_list/active_record/acts/list.rb:256-259 | after the write the record is in its scope's list exactly when a position was written |
| Moves.WriteKeepsDistinct | lib/acts_as_list/active_record/acts/list.rb:256-259 | writing a position no other record of the list holds keeps positions distinct |
| Moves.Swapped | lib/acts_as_list/active_record/acts/list.rb:263-269 | each of the two records takes the other's old position; no other record changes |
| Moves.SwapKeepsDistinct | lib/acts_as_list/active_record/acts/list.rb:263-269 | a swap within one scope keeps positions distinct |
| Moves.SwapTwice | lib/acts_as_list/active_record/acts/list.rb:263-269 | swapping the same two records twice restores the table |
| Moves.SwapSymmetric | lib/acts_as_list/active_record/acts/list.rb:263-269 | which record is named first does not matter to a swap |
| Moves.SwapKeepsMembers | lib/acts_as_list/active_record/acts/list.rb:263-269 | a swap of two in-list records keeps the set of in-list records |
| Moves.SwapKeepsPositions | lib/acts_as_list/active_record/acts/list.rb:263-269 | a swap of two in-list records keeps the list's set of positions |
| Moves.SwapNeighboursOrder | lib/acts_as_list/active_record/acts/list.rb:263-269 | swapping neighbours at places i and i + 1 keeps positions distinct and exchanges exactly those two places of the order |
| Moves.MovedLower | lib/acts_as_list/active_record/acts/list.rb:173-176 | keeps positions distinct; with no lower item nothing changes, otherwise only the record and its lower item are written |
| Moves.MovedHigher | lib/acts_as_list/active_record/acts/list.rb:178-181 | keeps positions distinct; with no higher item nothing changes, otherwise only the record and its higher item are written |
| Moves.MovedLowerIsSwap | lib/acts_as_list/active_record/acts/list.rb:173-176 | with a lower item, move_lower is the swap with it |
| Moves.MovedHigherIsSwap | lib/acts_as_list/active_record/acts/list.rb:178-181 | with a higher item, move_higher is the swap with it |
| Moves.MoveLowerExchanges | lib/acts_as_list/active_record/acts/list.rb:173-176 | move_lower on the record at place t exchanges places t and t + 1 of the order and nothing else |
| Moves.MoveHigherExchanges | lib/acts_as_list/active_record/acts/list.rb:178-181 | move_higher on the record at place t exchanges places t - 1 and t of the order and nothing else |
| Moves.MoveHigherIsLowerOfPrevious | lib/acts_as_list/active_record/acts/list.rb:173-181 | move_higher on a record is the same write as move_lower on its higher item |
| Moves.HigherAfterMoveLower | lib/acts_as_list/active_record/acts/list.rb:173-176 | after move_lower the old lower item is the record's higher item (see also list.rb:214-217) |
| Moves.HigherOfExchanged | lib/acts_as_list/active_record/acts/list.rb:214-217 | in an order with places t and t + 1 exchanged, the old record at t + 1 is the higher item of the old record at t |
| Moves.MovesKeepPositions | lib/acts_as_list/active_record/acts/list.rb:173-181 | move_lower and move_higher keep the set of positions of the record's list |
| Moves.MoveLowerThenHigherRestores | lib/acts_as_list/active_record/acts/list.rb:173-181 | move_lower then move_higher restores the table when there is a lower item |
| Moves.MoveHigherThenLowerRestores | lib/acts_as_list/active_record/acts/list.rb:173-181 | move_higher then move_lower restores the table when there is a higher item |
| Moves.LowerAfterMoveHigher | lib/acts_as_list/active_record/acts/list.rb:178-181 | after move_higher the old higher item is the record's lower item (see also list.rb:226-229) |
| Moves.LowerAfterMoveLowerOfPrevious | lib/acts_as_list/active_record/acts/list.rb:173-176 | after move_lower on the record at place t - 1, the record from place t is right above it |
| Moves.LowerOfExchanged | lib/acts_as_list/active_record/acts/list.rb:226-229 | in an order with places t and t + 1 exchanged, the old record at t is the lower item of the old record at t + 1 |
| Moves.MoveLowerAsWritten | lib/acts_as_list/active_record/acts/list.rb:173-176 | as written: fails exactly when there is no lower item; otherwise writes only the two records (see also list.rb:263-267) |
| Moves.MoveHigherAsWritten | lib/acts_as_list/active_record/acts/list.rb:178-181 | as written: fails exactly when there is no higher item; otherwise writes only the two records (see also list.rb:263-267) |
| Moves.AsWrittenAgrees | lib/acts_as_list/active_record/acts/list.rb:173-181 | where the code as written succeeds, it gives the same table as the corrected moves |
| Moves.NoNeighbourFailsAsWritten | lib/acts_as_list/active_record/acts/list.rb:173-181 | in a two-record list, move_lower on the last and move_higher on the first fail as written; the corrected moves leave the table as it was (see also list.rb:263-267) |
| Moves.AssumedBottom | lib/acts_as_list/active_record/acts/list.rb:311-321 | only the record is written; it ends in the list after every other record; with no other record its position is 0; otherwise its position becomes the other records' bottom + 1 when it was out of the list or not beyond that bottom, and the table is unchanged when it already was |
| Moves.AssumedTop | lib/acts_as_list/active_record/acts/list.rb:323-333 | only the record is written; it ends in the list before every other record; with no other record its position is 0; otherwise its position becomes the other records' top - 1 when it was out of the list or not before that top, and the table is unchanged when it already was |
| Moves.MovedToBottom | lib/acts_as_list/active_record/acts/list.rb:183-186 | for a record not in the list nothing changes; otherwise only it is written and it ends after every other record |
| Moves.MovedToTop | lib/acts_as_list/active_record/acts/list.rb:188-191 | for a record not in the list nothing changes; otherwise only it is written and it ends before every other record |
| Moves.MoveToBottomWhenLast | lib/acts_as_list/active_record/acts/list.rb:183-186 | move_to_bottom on the last of several records writes nothing (see also list.rb:318-320) |
| Moves.MoveToTopWhenFirst | lib/acts_as_list/active_record/acts/list.rb:188-191 | move_to_top on the first of several records writes nothing (see also list.rb:330-332) |
| Moves.AddedToBottom | lib/acts_as_list/active_record/acts/list.rb:285-292 | only the record is written; its position is the bottom of the other records of its scope + 1, or 0 when there are none; it is last?, and also first? when there are none. The code queries without excluding the record; its only callers (list.rb:115-117 and 380-384) run it while the record's row is not among that scope's rows, so the two agree |
| Moves.AddedToTop | lib/acts_as_list/active_record/acts/list.rb:276-283 | only the record is written; its position is the top of the other records of its scope - 1, or 0 when there are none; it is first?, and also last? when there are none. As for add_to_list_bottom, the record's own row is not among the rows the code queries |
| Moves.Removed | lib/acts_as_list/active_record/acts/list.rb:193-196 | only the record is written, and it is no longer in the list |
| Moves.BelowWithout | lib/acts_as_list/active_record/acts/list.rb:193-196 | leaving a record out of a set drops it, and only it, from the records below a position |
| Moves.RemovedBelow | lib/acts_as_list/active_record/acts/list.rb:193-196 | after removal, the records of a list below a position are one fewer exactly when the removed record was among them |
| Moves.RemoveShiftsIndex | lib/acts_as_list/active_record/acts/list.rb:193-196 | after remove_from_list, a record after the removed one in the same list has index one less; every other in-list record keeps its index (see also list.rb:245-249) |
| Insertion.TookPositionBetween | lib/acts_as_list/active_record/acts/list.rb:362-371 | fails with the no-gap error exactly when the two positions are equal; otherwise writes only the record, which lands strictly between them |
| Insertion.BetweenKeepsDistinct | lib/acts_as_list/active_record/acts/list.rb:362-371 | a position strictly between two neighbouring places of the order keeps positions distinct |
| Insertion.PlacedAbove | lib/acts_as_list/active_record/acts/list.rb:344-350 | placing above the found record succeeds and writes only the record, which ends in the list |
| Insertion.PlacedBelow | lib/acts_as_list/active_record/acts/list.rb:351-357 | placing below the found record succeeds and writes only the record, which ends in the list |
| Insertion.InsertedAtIndex | lib/acts_as_list/active_record/acts/list.rb:335-360 | when every other record of the scope is in the list, insert_at_index succeeds under distinct positions and writes only the record, which ends in the list |
| Insertion.InsertedAt | lib/acts_as_list/active_record/acts/list.rb:168-171 | when every other record of the scope is in the list, insert_at succeeds and writes only the record, which ends in the list |
| Insertion.Clamp | lib/acts_as_list/active_record/acts/list.rb:337-342 | the requested index limited to the range the list allows |
| Insertion.MembersAfterPlacing | lib/acts_as_list/active_record/acts/list.rb:335-360 | after a write placing the record, the list is the other records plus it |
| Insertion.RankAfterPlacing | lib/acts_as_list/active_record/acts/list.rb:245-249 | after a write that places only the record, index counts the other records positioned before its new position (see also list.rb:335-360) |
| Insertion.TopIndex | lib/acts_as_list/active_record/acts/list.rb:323-333 | a record that took the top has offset 0 |
| Insertion.BottomIndex | lib/acts_as_list/active_record/acts/list.rb:311-321 | a record that took the bottom has as offset the number of other records in the list |
| Insertion.BetweenIndex | lib/acts_as_list/active_record/acts/list.rb:362-371 | a record placed between places c - 1 and c has offset c, less one if it came from before them |
| Insertion.PlacedAboveIndex | lib/acts_as_list/active_record/acts/list.rb:344-350 | a record from below the found one, or from outside the list, lands at the requested offset |
| Insertion.PlacedBelowIndex | lib/acts_as_list/active_record/acts/list.rb:351-357 | a record from above the found one lands at the requested offset |
| Insertion.PlacedAtBottomIndex | lib/acts_as_list/active_record/acts/list.rb:352-354 | when the found record is last, a record from above it lands at the requested offset |
| Insertion.OthersCount | lib/acts_as_list/active_record/acts/list.rb:335-360 | the number of other records of the list is the list length, less one when the record is in it |
| Insertion.NotFoundIndex | lib/acts_as_list/active_record/acts/list.rb:337-342 | with no record at the offset, the record lands at the top for offsets up to 0 and at the bottom otherwise |
| Insertion.FoundOtherIndex | lib/acts_as_list/active_record/acts/list.rb:343-358 | with another record at the offset, the record lands at that offset |
| Insertion.InsertAtIndexPlaces | lib/acts_as_list/active_record/acts/list.rb:335-360 | after insert_at_index(i) the record's offset is i, limited to the range from 0 to the number of other records |
| Insertion.IndexFromTop | lib/acts_as_list/active_record/acts/list.rb:245-249 | an offset n from the top is the index top + n |
| Insertion.InsertAtPlaces | lib/acts_as_list/active_record/acts/list.rb:168-171 | after insert_at(i) the record's index_in_list is i, limited to the range from top_of_list to the last index the list allows |
| Callbacks.SameTop | lib/acts_as_list/active_record/acts/list.rb:305-309 | top_position_in_list only depends on the candidate records and their positions |
| Callbacks.SameBottom | lib/acts_as_list/active_record/acts/list.rb:297-303 | bottom_position_in_list only depends on the candidate records and their positions |
| Callbacks.Relocated | lib/acts_as_list/active_record/acts/list.rb:380-384 | giving the record a new row with a position unused in its scope keeps positions distinct and leaves the other candidates as they were |
| Callbacks.AddedAtEdge | lib/acts_as_list/active_record/acts/list.rb:382 | add_to_list_top makes the record first?, add_to_list_bottom makes it last?; only it is written |
| Callbacks.ScopeChanged | lib/acts_as_list/active_record/acts/list.rb:380-384 | with the scope unchanged nothing happens; with add_new_at nil a change fails; otherwise the record moves to the new scope at its bottom (old bottom + 1, or 0) or its top (old top - 1, or 0), and no other record changes |
| Callbacks.ScopeChangeKeepsOldList | lib/acts_as_list/active_record/acts/list.rb:380-384 | after a scope change the old list holds the other records it held before, at their positions |
| Callbacks.Created | lib/acts_as_list/active_record/acts/list.rb:115-117 | a new record without a position is added at the configured edge (last? at bottom + 1 or 0, first? at top - 1 or 0); one with a position, or with add_new_at nil, is stored as given; no other record changes |
| BulkReorder.IntersectFacts | lib/acts_as_list/active_record/acts/list.rb:140 | `new_ids & current_ids` lists the requested known ids, each once, in the order of their first occurrence in the request (a later id of the result never occurs in the request before an earlier one has) |
| BulkReorder.IntersectElems | lib/acts_as_list/active_record/acts/list.rb:140 | `&` keeps exactly the ids in both lists |
| BulkReorder.IntersectNoDuplicates | lib/acts_as_list/active_record/acts/list.rb:140 | `&` drops duplicates |
| BulkReorder.IntersectSubsequence | lib/acts_as_list/active_record/acts/list.rb:140 | `&` keeps the order of the request: the result is a subsequence of it |
| BulkReorder.IntersectFirstOccurrence | lib/acts_as_list/active_record/acts/list.rb:140 | `&` keeps a repeated requested id where it first occurs: wherever a later id of the result occurs in the request, an earlier one occurs before it |
| BulkReorder.RepeatedRequestKeepsFirst | lib/acts_as_list/active_record/acts/list.rb:140 | `[2, 1, 2] & [1, 2]` is `[2, 1]`, which is in first-occurrence order, and `[1, 2]` is not |
| BulkReorder.DifferenceFacts | lib/acts_as_list/active_record/acts/list.rb:141 | `current_ids - new_ids` keeps the current ids not requested, in current order |
| BulkReorder.DifferenceElems | lib/acts_as_list/active_record/acts/list.rb:141 | `-` keeps exactly the ids of the first list missing from the second |
| BulkReorder.DifferenceNoDuplicates | lib/acts_as_list/active_record/acts/list.rb:141 | `-` of a list free of duplicates is free of duplicates |
| BulkReorder.DifferenceSubsequence | lib/acts_as_list/active_record/acts/list.rb:141 | `-` keeps the order of the first list |
| BulkReorder.SanitizedPermutes | lib/acts_as_list/active_record/acts/list.rb:138-141 | the sanitised ids are a permutation of the current ids, whatever was requested |
| BulkReorder.SanitizedShape | lib/acts_as_list/active_record/acts/list.rb:140-141 | the sanitised ids are the requested known ids in the order of their first occurrence in the request, then the unrequested current ids in current order |
| BulkReorder.SanitizedKeepsPermutation | lib/acts_as_list/active_record/acts/list.rb:140-141 | a request that is already a permutation of the current ids is kept as it is |
| BulkReorder.SanitizedEmpty | lib/acts_as_list/active_record/acts/list.rb:140-141 | an empty request keeps the current order (test/test_list.rb:487-489) |
| BulkReorder.UnknownHeadDropped | lib/acts_as_list/active_record/acts/list.rb:140 | an unknown id at the head of the request is dropped |
| BulkReorder.UnknownIdsDropped | test/test_list.rb:483-485 | [5, 4, 3, 2, 1] over [1, 2, 3, 4] gives [4, 3, 2, 1] |
| BulkReorder.MissingIdsAppended | test/test_list.rb:479-481 | [4, 2, 1] over [1, 2, 3, 4] gives [4, 2, 1, 3] |
| BulkReorder.MissingIdsAppendedTopAddition | test/test_list.rb:508-510 | [1, 4, 3] over [4, 3, 2, 1] gives [1, 4, 3, 2] |
| BulkReorder.KnownPrefixThenOne | lib/acts_as_list/active_record/acts/list.rb:140-141 | a request of known ids that misses exactly one current id gets that id appended |
| BulkReorder.SanitizedKeepsKnown | lib/acts_as_list/active_record/acts/list.rb:140-141 | when the known part of the request is a permutation of the current ids, the result is that permutation |
| BulkReorder.PlanUpdates | lib/acts_as_list/active_record/acts/list.rb:143-150 | the zip loop plans, for each slot whose requested id differs from the current one, the current id's position for the requested id; nothing else is planned |
| BulkReorder.Applied | lib/acts_as_list/active_record/acts/list.rb:152-156 | the planned records get their planned positions; every other record is unchanged |
| BulkReorder.SlotPosition | lib/acts_as_list/active_record/acts/list.rb:146-156 | after the writes, the id requested at slot i holds the position the current order has at slot i; an id already at its slot is not written |
| BulkReorder.PlanInScope | lib/acts_as_list/active_record/acts/list.rb:146-150 | only records of the reordered list are planned |
| BulkReorder.AppliedMembers | lib/acts_as_list/active_record/acts/list.rb:152-156 | the writes keep the list's records, and records of other scopes are unchanged |
| BulkReorder.AppliedAscending | lib/acts_as_list/active_record/acts/list.rb:152-156 | after the writes, the requested ids are in ascending position |
| BulkReorder.AppliedDistinct | lib/acts_as_list/active_record/acts/list.rb:152-156 | the writes keep positions distinct |
| BulkReorder.AppliedOrder | lib/acts_as_list/active_record/acts/list.rb:152-158 | after the writes, the list's order is the returned ids |
| BulkReorder.AppliedPositions | lib/acts_as_list/active_record/acts/list.rb:152-156 | the list holds the same set of positions after the writes |
| BulkReorder.ZipWriteSortsRequested | lib/acts_as_list/active_record/acts/list.rb:143-158 | the writes keep positions distinct, order the list as returned, keep its set of positions, skip ids already at their slot, and leave other scopes unchanged |
| ActsAsList.List.constructor | lib/acts_as_list/active_record/acts/list.rb:39-41 | a list over a table with distinct positions and the given top_of_list and add_new_at |
| ActsAsList.List.SetListPosition | lib/acts_as_list/active_record/acts/list.rb:256-259 | the table becomes `SetPos` of the old table |
| ActsAsList.List.SwapPositionsWith | lib/acts_as_list/active_record/acts/list.rb:263-269 | two writes in sequence leave the table `Swapped` describes |
| ActsAsList.List.MoveLower | lib/acts_as_list/active_record/acts/list.rb:173-176 | keeps the invariant and leaves the table `MovedLower` describes |
| ActsAsList.List.MoveHigher | lib/acts_as_list/active_record/acts/list.rb:178-181 | keeps the invariant and leaves the table `MovedHigher` describes |
| ActsAsList.List.AssumeBottomPosition | lib/acts_as_list/active_record/acts/list.rb:311-321 | keeps the invariant and leaves the table `AssumedBottom` describes |
| ActsAsList.List.AssumeTopPosition | lib/acts_as_list/active_record/acts/list.rb:323-333 | keeps the invariant and leaves the table `AssumedTop` describes |
| ActsAsList.List.MoveToBottom | lib/acts_as_list/active_record/acts/list.rb:183-186 | keeps the invariant and leaves the table `MovedToBottom` describes |
| ActsAsList.List.MoveToTop | lib/acts_as_list/active_record/acts/list.rb:188-191 | keeps the invariant and leaves the table `MovedToTop` describes |
| ActsAsList.List.RemoveFromList | lib/acts_as_list/active_record/acts/list.rb:193-196 | keeps the invariant and leaves the table `Removed` describes |
| ActsAsList.List.AddToListTop | lib/acts_as_list/active_record/acts/list.rb:276-283 | keeps the invariant and leaves the table `AddedToTop` describes |
| ActsAsList.List.AddToListBottom | lib/acts_as_list/active_record/acts/list.rb:285-292 | keeps the invariant and leaves the table `AddedToBottom` describes |
| ActsAsList.List.TakePositionBetween | lib/acts_as_list/active_record/acts/list.rb:362-371 | reports the no-gap error, writing nothing, exactly when `TookPositionBetween` fails; otherwise leaves its table |
| ActsAsList.List.InsertAtIndex | lib/acts_as_list/active_record/acts/list.rb:335-360 | keeps the invariant and leaves the table `InsertedAtIndex` describes |
| ActsAsList.List.PlaceNextTo | lib/acts_as_list/active_record/acts/list.rb:343-358 | with another record at the offset, keeps the invariant and leaves the table `InsertedAtIndex` describes |
| ActsAsList.List.PlaceAbove | lib/acts_as_list/active_record/acts/list.rb:344-350 | keeps the invariant and leaves the table `PlacedAbove` describes |
| ActsAsList.List.PlaceBelow | lib/acts_as_list/active_record/acts/list.rb:351-357 | keeps the invariant and leaves the table `PlacedBelow` describes |
| ActsAsList.List.InsertAt | lib/acts_as_list/active_record/acts/list.rb:168-171 | keeps the invariant and leaves the table `InsertedAt` describes for the list's top_of_list |
| ActsAsList.List.CheckScope | lib/acts_as_list/active_record/acts/list.rb:380-384 | keeps the invariant; reports the error, writing nothing, exactly when `ScopeChanged` fails for the list's add_new_at; otherwise leaves its table |
| ActsAsList.List.Create | lib/acts_as_list/active_record/acts/list.rb:115-117 | keeps the invariant and leaves the table `Created` describes for the list's add_new_at |
| ActsAsList.List.ApplyUpdates | lib/acts_as_list/active_record/acts/list.rb:152-156 | writing the planned positions one record at a time leaves the table `Applied` describes |
| ActsAsList.List.UpdateOrderedList | lib/acts_as_list/active_record/acts/list.rb:121-159 | keeps the invariant; returns the sanitised ids; afterwards the list's order is the returned ids, no record is added or dropped, the list's set of positions is unchanged, and other scopes are unchanged |

## Left out

- ActiveRecord plumbing is not modelled, because the list logic does not depend on it.
  - The `class_eval` code generation and the configuration parsing (list.rb:39-108).
  - The scope selectors: a scope is one opaque key compared by equality (list.rb:43-83, 122-131).
  - The `in_list` scope and the SQL text of the queries.
- Callbacks.ScopeChanged and ActsAsList.List.CheckScope: model check_scope for symbol and array scopes only. For a string scope the generated `scope_changed?` is always false (list.rb:81), so the code never moves a record whose interpolated scope changes, while the model moves it.
- Callback registration is not modelled. `check_scope` (`CheckScope`) and the `before_create` placement (`Create`) are explicit methods.
- Transactions (list.rb:152, 265) are not modelled. Every operation is one atomic step on the table.
- Persistence is not modelled.
  - The in-memory record and its database row are one value; stale attributes are not modelled.
  - `save` and its validation are not modelled.
  - Record destruction is not modelled.
  - `move_within_scope` (list.rb:198-202) is not modelled: it only assigns the scope and calls `save!`, which runs `check_scope`.
- Queries.ItemAtIndex: covers in-list records only, and a negative offset finds nothing. The SQL query orders by position with an offset, and where records without a position sort depends on the database. Negative offsets are clamped or refused by the database as well.
- Floating point is not modelled. Positions are exact reals, so the underflow test `gap / 2.0 == 0` (list.rb:365) is not modelled. Only the equal-positions failure remains. Under distinct positions that failure cannot happen, because a record and its neighbour never share a position.
- There is no gap-repair or renumbering step, and no planner that minimises the number of writes. The model follows the code: bulk reorder is a slot-by-slot zip (list.rb:145-150), and a zero gap only raises (list.rb:365-368).
- BulkReorder.PlanUpdates and ActsAsList.List.UpdateOrderedList: they require every record of the scope to have a position (`AllInList`). The code sorts the current ids by position, and Ruby cannot compare an absent position with a present one.
- Callbacks.Created and ActsAsList.List.Create: require a position given on create to be unused in its list. For a symbol or array scope the library itself declares a uniqueness validation on the position column that allows nil (list.rb:47, 59), which refuses such a record. A string scope, including the default one, gets no validation, and there the precondition excludes a clash that the code accepts.
- Insertion.InsertedAtIndex, Insertion.InsertedAt, Insertion.InsertAtIndexPlaces, Insertion.InsertAtPlaces, ActsAsList.List.InsertAtIndex and ActsAsList.List.InsertAt: the offset counts only the in-list records of the scope, in position order. `item_at_index` (list.rb:373-378) queries every record of the scope, so on a database that sorts an absent position first its offset also counts the records without a position. The cited records and the resulting positions then differ, and when the record found has no position the comparison at list.rb:345 raises. What these members promise (success, the resulting offset) therefore holds for the code only when every other record of the scope is in the list.
- Queries.ItemsAbove and Queries.ItemsBelow: they are sequence functions over the table, not the SQL subquery the code builds.

## Findings

| source | as written | input that shows it | evidently intended | confidence | as-written member | corrected member |
|---|---|---|---|---|---|---|
| lib/acts_as_list/active_record/acts/list.rb:173-181 | `move_lower` and `move_higher` pass the neighbour straight to `swap_positions_with`, which calls a method on it; with no neighbour that is a call on nil, and the move raises | records 1 and 2 of one list at positions 1 and 2: `move_lower` on record 2, or `move_higher` on record 1 | the comments say "if one exists": with no neighbour the move does nothing | not executed | Moves.MoveLowerAsWritten, Moves.MoveHigherAsWritten, Moves.NoNeighbourFailsAsWritten | Moves.MovedLower, Moves.MovedHigher |
