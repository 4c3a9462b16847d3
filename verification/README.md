# A verified model of the EEBUS data engine and the components around it

The firmware speaks EEBUS (SHIP and SPINE) between a home energy manager, a grid operator's
control box and a heat pump. This project models the parts of it that carry the most state and
the most branching, and proves what they promise for every input, every schema and every run.

* **Data engine** (`Schema`, `Comparison`, `Elements`, `KeyedMerge`, `Keys`, `Stability`,
  `Received`, `EntityAddress`, `Identifiers`, `Masks`, `Merging`, `Selection`, `Selectors`,
  `Buffers`): configuration trees and the values they describe; deep write and
  comparison, field overlay, projection and removal, selectors, identifiers, and the two-pass
  keyed list merge. The value-level operations are recursive functions with the algebraic laws
  proved about them; `Buffers` has the in-place loops over structure and list buffers, each
  proved against those functions.
* **JSON trees** (`Json`, `JsonWalks`): the array-of-one-member-objects encoding and its
  inverse over every schema, with the loops that build and read it.
* **Dates and durations** (`Chrono`, `Calendar`, `Decimal`, `DurationText`, `MomentText`):
  carry arithmetic against an absolute Gregorian second count, and the text forms of section
  4.4.3.2 of ISO 8601:2004 with the sign of section 3.2.6 of XML Schema Part 2.
* **Queue** (`Queue`): the cyclic buffer with its two flags, as steps of a run and as an object.
* **Components** (`Ticks`, `Lpc`, `Wp`): callbacks and loop as events of a state machine on a
  wrapping 32-bit clock, and as classes whose methods are proved to take exactly those steps.
* **mDNS** (`MdnsTxt`): the TXT record parser, after section 6 of RFC 6763.

`dafny verify dfyconfig.toml` checks everything.

## What the proofs show about the code

Properties that hold only on part of the inputs are stated with the exact condition.

* The merge is exact precisely on schemas with safe keys: a flagged sequence may contain simple
  lists, but a keyed list only if that list's items are identifiers as a whole. Any other keyed
  list inside a key lets the second pass append an item the first pass did not count, behind the
  end of the buffer (`Stability.ExactExactlyWhenSafe`, `Stability.UnsafeKeyOverrunsBuffer`). Some
  of the values that show this have null list entries; on lists without empty lists and null
  entries, as they are received, the exact condition is the finer `Received.Sound`
  (`Received.ReceivedExactlyWhenSound`). The shipped entity description is neither: its address
  holds a keyed list of plain numbers, and the address [1, 2], received twice, overruns the
  buffer (`EntityAddress.EntityAddressOverruns`).
* Comparison never looks at the number of an alternative, so it is equality exactly when no choice
  has two alternatives it could confuse (`Comparison.ExactExactlyWhenDiscerning`).
* Projection through a mask fails exactly when a sequence it has to take apart faces a mask that is
  none, as in the shipped device description (`Elements.ReadFailsExactlyOnMisfit`).
* A choice that changes its alternative keeps its buffer for the new one. Tags, null leaves and
  structures with the same slots get away with it; a structure over a set tag, a leaf in too
  small a buffer or a structure over other slots does not, which the model calls `Mangled`, and a
  stub leaves the old buffer behind (`Schema.OverwriteIsExact`, `Schema.ChangedAlternative`).
* A duration with milliseconds but no seconds, or with a thousand milliseconds or more, prints to
  a text its own parser rejects (`DurationText.DurationRoundTrip`).
* Adding months can leave the calendar; years and milliseconds of a duration are not added at all
  (`Calendar.SumStaysOnCalendar`, `Calendar.DateTimeBuffer.AddDuration`).
* Clearing a full queue deallocates nothing, because the loop compares positions and not flags
  (`Queue.ClearDeallocatesUnlessFull`, `Queue.LeaksOnlyWhenClearedFull`).
* The LPC window and the service flag part exactly when the window is opened before the service
  exists; the heat-pump component closes its window at setup and has no such gap
  (`Lpc.OutOfSyncOnlyByEarlyWindow`, `Wp.EveryRunIsLegal`).
* A window opened in the last five minutes of the clock's cycle closes at any tick before the
  clock wraps; once it has wrapped, the window lasts its time (`Lpc.WindowLength`). The
  lost-heartbeat flag is never seen set, because applying the
  failsafe limit resets it (`Lpc.EveryRunAgrees`).
* Any prefix of a known TXT key is taken for that key, and so is the key with a NUL and anything
  behind it (`MdnsTxt.AcceptedMatches`).
* An empty list prints as an empty array and parses back as null (`Json.ListRoundTrip`).

## Reading the model

* A value is a tree with an explicit `Null` for the null pointer; a tag that is reset is `Null`.
  Offsets, copies of bytes and allocation failure do not appear. The one allocation that matters
  is of size zero: `DeleteListItems` takes as a parameter whether the host returns null for it.
* Assertions in the code are preconditions here: no identifiers, selectors or masks on choices.
* The read-only flag has the numeric value of both identifier flags together and therefore counts
  as an identifier, as in the code.
* Overflow of a signed 32-bit field is undefined in C, so `NoOverflow` and `Negatable` exclude it.
  `strtol` saturates as with the 32-bit `long` of the target, on which a pointer, a list size and
  an alternative number take one word each.
* The clock is read once per event and arrives as a parameter, as do the outcome of remote writes
  and of use-case creation. A wait on the queue that ends without room or message is a timeout.
* Watts are reals; the number of a load limit is the truncated value, as in the code.

## Model

| member | source | states |
|---|---|---|
| `KeyedMerge.GetItemMatching` | openeebus/src/common/eebus_data/eebus_data_list.c:454-462 | the search loop finds the first item carrying the source's identifiers, or none |
| `KeyedMerge.OverlaidKeepsMatches` | openeebus/src/common/eebus_data/eebus_data_list.c:496-502 | however many matching sources are written over an item, it matches exactly what it matched before |
| `KeyedMerge.LookupSurvivesMerge` | openeebus/src/common/eebus_data/eebus_data_list.c:496-498 | looking a source up among the partly merged items finds what looking it up among the original items finds |
| `KeyedMerge.MergeSnoc` | openeebus/src/common/eebus_data/eebus_data_list.c:494-507 | the whole-list description of the merge, one source at a time: overlay the first match in place, or append |
| `KeyedMerge.CountMerged` | openeebus/src/common/eebus_data/eebus_data_list.c:473-479 | the first pass computes the length of the merged list |
| `KeyedMerge.Place` | openeebus/src/common/eebus_data/eebus_data_list.c:496-507 | one turn of the second pass: the source goes over the first entry that matches it by then, or behind everything, and nothing else changes |
| `KeyedMerge.FillMerged` | openeebus/src/common/eebus_data/eebus_data_list.c:494-507 | the loop of the second pass, in a buffer with room for what it appends, fills in exactly what `SecondPass` describes and leaves the rest alone |
| `KeyedMerge.SecondPassIsMerge` | openeebus/src/common/eebus_data/eebus_data_list.c:494-507 | when a matching write changes no match, the second pass computes the merged list although it looks matches up among items it has already changed |
| `KeyedMerge.TwoSourcesOnOneItem` | openeebus/src/common/eebus_data/eebus_data_list.c:473-507 | what each pass makes of one item and two sources of which the first matches it |
| `KeyedMerge.CountsAgreeExactlyWhenStable` | openeebus/src/common/eebus_data/eebus_data_list.c:473-507 | for any matching and writing: the first pass counts what the second produces, on all lists, exactly when a matching write changes no match |
| `KeyedMerge.MergeKeeps` | openeebus/src/common/eebus_data/eebus_data_list.c:464-518 | what holds of all old and source items and survives a write holds of every merged item |
| `KeyedMerge.MergeWithUniqueKeys` | openeebus/src/common/eebus_data/eebus_data_list.c:464-518 | with unique keys on both sides the merge has unique keys, old keys in place, only source keys behind them, and every source absorbed |
| `KeyedMerge.MergeIsIdempotent` | openeebus/src/common/eebus_data/eebus_data_list.c:464-518 | merging the same source again changes nothing |
| `Keys.MatchedWriteKeepsMatches` | openeebus/src/common/eebus_data/eebus_data_sequence.c:233-256 | a matched partial write changes no identifier match of the item, with any other source, as long as no whole identifier of the source changes when written over itself |
| `Identifiers.IdentifiersAreMarks` | openeebus/src/common/eebus_data/eebus_data_sequence.c:157-175 | a value has identifiers exactly when something stands at one of the flagged places, reached through unflagged structures |
| `Identifiers.MatchComparesMarks` | openeebus/src/common/eebus_data/eebus_data_sequence.c:233-256 | what a match compares, place by place: a flagged leaf only if the source gives it; a flagged structure as a whole, null or not, once the structure around it has some identifier in the source |
| `Identifiers.PartialSourceMatches` | openeebus/src/common/eebus_data/eebus_data_base.c:153-164 | with leaves as identifiers an item matches exactly when it has every identifier the source gives; the ones the source leaves out do not count |
| `Identifiers.PartialTakesSource` | openeebus/src/common/eebus_data/eebus_data_sequence.c:358-394 | a partial write takes the source at every place where it has something, and writes keyed lists as lists |
| `Keys.KeylessNeverMatches` | openeebus/src/common/eebus_data/eebus_data_sequence.c:157-175 | a value without identifiers never satisfies a source that has some |
| `Keys.KeylessWriteAddsNoKey` | openeebus/src/common/eebus_data/eebus_data_sequence.c:358-394 | writing identifier-free content adds no identifier |
| `Keys.FlatPartialIsOverlay` | openeebus/src/common/eebus_data/eebus_data_base.c:174-181 | without keyed lists a partial write is a field overlay |
| `Keys.SelfWriteIsIdentity` | openeebus/src/common/eebus_data/eebus_data_sequence.c:358-394 | when every keyed list inside has items that are identifiers as a whole, a value partially written over itself is unchanged |
| `Keys.SelfMergeIsIdentity` | openeebus/src/common/eebus_data/eebus_data_list.c:464-518 | a list of such items merged into itself is unchanged, duplicates and nulls included |
| `Keys.SafeItemsAreStable` | openeebus/src/common/eebus_data/eebus_data_list.c:454-518 | on schemas with safe keys the second pass of the merge sees the matches the first pass counted |
| `Stability.HarmShows` | openeebus/src/common/eebus_data/eebus_data_list.c:431-452 | every other schema has a value that changes when written over itself: an identifier-free first item spreads over its list |
| `Stability.UnsafeKeyLosesMatch` | openeebus/src/common/eebus_data/eebus_data_sequence.c:233-256 | every schema with an unsafe key has a value that matches itself but not after being written over itself |
| `Stability.UnsafeKeyOverrunsBuffer` | openeebus/src/common/eebus_data/eebus_data_list.c:473-507 | a list holding that value, which may have null list entries in its key, merged with two copies of it: the first pass counts one entry, the second pass needs two, so it writes behind the buffer |
| `Stability.ExactExactlyWhenSafe` | openeebus/src/common/eebus_data/eebus_data_list.c:464-518 | on all lists of items, null list entries inside keys included, the second pass fills exactly what the first counted if and only if the schema has safe keys, and then it computes the merged list |
| `Received.CalmKeeps` | openeebus/src/common/eebus_data/eebus_data_sequence.c:358-394 | a value without empty lists and null entries, of a calm schema, is unchanged when partially written over itself |
| `Received.ValueStirs` | openeebus/src/common/eebus_data/eebus_data_list.c:431-452 | every schema that is not calm has such a value that changes |
| `Received.WriteStaysReceivable` | openeebus/src/common/eebus_data/eebus_data_sequence.c:358-394 | partial writes keep values free of empty lists and null entries |
| `Received.UnsoundKeyOverrunsBuffer` | openeebus/src/common/eebus_data/eebus_data_list.c:473-507 | every unsound schema has a value free of empty lists and null entries on which the second pass writes behind the buffer |
| `Received.ReceivedExactlyWhenSound` | openeebus/src/common/eebus_data/eebus_data_list.c:464-518 | on all lists free of empty lists and null entries the second pass fills exactly what the first counted if and only if the schema is sound, the finer condition this needs |
| `EntityAddress.EntityAddressOverruns` | openeebus/src/spine/model/network_management_types.inc:207-217 | the shipped entity description: any address whose first two numbers differ, such as [1, 2], received twice for a list that has it, counts as one entry and fills two |
| `Merging.MatchIsKeyEquality` | openeebus/src/common/eebus_data/eebus_data_base.c:153-164 | between values with all identifiers present, matching is equality of the extracted keys |
| `Merging.MatchedWriteKeepsKey` | openeebus/src/common/eebus_data/eebus_data_sequence.c:358-394 | a matching source leaves the item's key complete and unchanged |
| `Merging.TidyWrites` | openeebus/src/common/eebus_data/eebus_data_sequence.c:358-394 | with uniquely identified items in every nested keyed list, a partial write keeps them so, a second one of the same source changes nothing, and a value written over itself is unchanged |
| `Merging.ItemsAreKeyed` | openeebus/src/common/eebus_data/eebus_data_list.c:464-518 | list items whose nested keyed lists are uniquely identified meet everything the keyed merge asks for |
| `Merging.ItemMergeIsIdempotent` | openeebus/src/common/eebus_data/eebus_data_list.c:464-535 | merging uniquely identified items, nested keyed lists included, keeps identifiers unique and old ones in place, and merging twice is merging once |
| `Buffers.MergeBuffers` | openeebus/src/common/eebus_data/eebus_data_list.c:464-518 | count, allocate only when something is appended, move, fill: the resulting buffer is the merged list |
| `Buffers.ListBuffer.MergeData` | openeebus/src/common/eebus_data/eebus_data_list.c:464-518 | the in-place merge of a list slot: old items overlaid in place, unmatched sources appended in order, size updated, nothing overrun |
| `Buffers.ListBuffer.WritePartial` | openeebus/src/common/eebus_data/eebus_data_list.c:520-535 | merge when the first source item has identifiers, otherwise the first source item over every item |
| `Buffers.ListBuffer.CopyToSelectedData` | openeebus/src/common/eebus_data/eebus_data_list.c:398-429 | the first source item's fields go over exactly the selected items |
| `Elements.OverlayUnit` | openeebus/src/common/eebus_data/eebus_data_sequence.c:332-356 | null is a unit of the field overlay on both sides, at every depth |
| `Elements.OverlayAssociates` | openeebus/src/common/eebus_data/eebus_data_sequence.c:332-356 | overlaying a then b is overlaying the overlay of b onto a |
| `Elements.OverlayIdempotent` | openeebus/src/common/eebus_data/eebus_data_base.c:166-172 | a value overlaid on itself is itself |
| `Elements.OverlayAbsorbs` | openeebus/src/common/eebus_data/eebus_data_sequence.c:332-356 | overlaying the same source twice is overlaying it once |
| `Elements.ReadFailsExactlyOnMisfit` | openeebus/src/common/eebus_data/eebus_data_sequence.c:258-304 | projection fails if and only if a sequence at the top, or selected in part below an allocated structure, faces a mask that is no sequence |
| `Elements.ShapedMaskFits` | openeebus/src/common/eebus_data/eebus_data_sequence.c:258-262 | which never happens with a mask that is a sequence wherever the data is |
| `Elements.TagMaskFailsOnAddress` | openeebus/src/spine/model/network_management_types.inc:173-174 | an address structure masked by a tag, as in the shipped device description elements, cannot be read and is not deleted |
| `Elements.ReadAndDeletePartition` | openeebus/src/common/eebus_data/eebus_data_sequence.c:258-304 | without such a misfit the projection succeeds, and overlaying it onto what deletion with the same mask leaves restores the value |
| `Schema.NullAndEmptyValues` | openeebus/src/common/eebus_data/eebus_data_sequence.c:141-155 | null and empty told from the value alone: empty is an allocated structure with nothing but null fields, or a choice that holds one |
| `Masks.EmptyMaskIsAllOf` | openeebus/src/common/eebus_data/eebus_data_sequence.c:141-155 | so a mask selects everything exactly when it is allocated with every field null |
| `Masks.DeletionClearsChosen` | openeebus/src/common/eebus_data/eebus_data_sequence.c:396-425 | at every depth a deletion clears exactly the places the mask chooses, leaves every other as it was, and keeps structures allocated unless all of them is chosen |
| `Masks.ProjectionCopiesTaken` | openeebus/src/common/eebus_data/eebus_data_sequence.c:258-304 | at every depth a projection copies exactly the places it gets to and leaves every other of the destination alone |
| `Masks.ProjectionIsChosen` | openeebus/src/common/eebus_data/eebus_data_sequence.c:258-304 | into a null destination, it is what the mask chooses and no more |
| `Masks.OverlayTakesSource` | openeebus/src/common/eebus_data/eebus_data_sequence.c:332-356 | at every depth an overlay takes the source wherever it has something |
| `Elements.DeletedIsUnreadable` | openeebus/src/common/eebus_data/eebus_data_sequence.c:396-425 | reading the remainder of a deletion through the same mask yields no content |
| `Buffers.RecordBuffer.Write` | openeebus/src/common/eebus_data/eebus_data_sequence.c:306-330 | the field-by-field deep write of a structure slot |
| `Buffers.RecordBuffer.WriteElements` | openeebus/src/common/eebus_data/eebus_data_sequence.c:332-356 | the field-by-field overlay, allocating the structure when needed |
| `Buffers.RecordBuffer.WritePartial` | openeebus/src/common/eebus_data/eebus_data_sequence.c:358-394 | the field-by-field partial write |
| `Buffers.RecordBuffer.DeleteElements` | openeebus/src/common/eebus_data/eebus_data_sequence.c:396-425 | the in-place removal of the masked fields |
| `Buffers.RecordBuffer.ReadElements` | openeebus/src/common/eebus_data/eebus_data_sequence.c:258-304 | the projection into a destination slot, and exactly when it fails |
| `Schema.OverwriteIsExact` | openeebus/src/common/eebus_data/eebus_data_choice.c:221-239 | a write into a slot laid out for another alternative is exact exactly when every buffer it reuses suits: tags always, null leaves over anything but a set tag, other leaves by buffer size, structures slot by slot, stubs only over null |
| `Schema.WriteIsExact` | openeebus/src/common/eebus_data/eebus_data_list.c:360-396 | a deep write reproduces the source exactly under that condition |
| `Schema.AgreeingIsAligned` | openeebus/src/common/eebus_data/eebus_data_choice.c:221-239 | which holds whenever each choice is null or already on the source's alternative |
| `Schema.ChangedAlternative` | openeebus/src/common/eebus_data/eebus_data_choice.c:221-239 | what a changed alternative does, by the kinds of the old and the new one |
| `Schema.LeafOverLeaf` | openeebus/src/common/eebus_data/eebus_data_simple.c:69-86 | a leaf over another alternative's leaf: text needs text, anything else a buffer of its size |
| `Schema.LeafOverStructure` | openeebus/src/common/eebus_data/eebus_data_simple.c:69-86 | a leaf over a structure of pointers needs no more bytes than these take |
| `Schema.SetTagBlocksDeletion` | openeebus/src/common/eebus_data/eebus_data_sequence.c:427-441 | a set tag keeps a structure from being deleted as one with a pointer there |
| `Schema.CoveredIsAligned` | openeebus/src/common/eebus_data/eebus_data_tag.c:133-144 | structures of tags may be exchanged for ones with no more fields, at every depth, whatever the slot held |
| `Schema.TagIsNoBuffer` | openeebus/src/common/eebus_data/eebus_data_sequence.c:306-330 | a structure written over a set tag goes through a pointer that is none |
| `Schema.CompareIsEquality` | openeebus/src/common/eebus_data/eebus_data_sequence.c:104-134 | on choice-free schemas comparison is structural equality |
| `Schema.CompareIsReflexive` | openeebus/src/common/eebus_data/eebus_data_choice.c:133-153 | comparison is reflexive on every schema |
| `Comparison.DiscerningTells` | openeebus/src/common/eebus_data/eebus_data_choice.c:133-153 | when no choice inside has two alternatives that can be confused, only equal values compare equal |
| `Comparison.Confused` | openeebus/src/common/eebus_data/eebus_data_choice.c:133-153 | every other schema has two different values that compare equal |
| `Comparison.ExactExactlyWhenDiscerning` | openeebus/src/common/eebus_data/eebus_data_choice.c:133-153 | on every well-formed schema: comparison is equality if and only if no choice anywhere inside has two different alternatives of one interface, both structures, both lists, or one of them a stub |
| `Comparison.AlikeComparesExactly` | openeebus/src/common/eebus_data/eebus_data_sequence.c:104-134 | between configurations of one shape, under any names and flags, comparison is equality of the values |
| `Comparison.OthersCompareUnequal` | openeebus/src/common/eebus_data/eebus_data_simple.c:30-44 | leaves of different kinds, a leaf and a structure, and allocated structures with different numbers of fields never compare equal |
| `Comparison.ChoiceCompareIsCoarser` | openeebus/src/common/eebus_data/eebus_data_choice.c:133-153 | an instance: the same content, null or not, on two boolean alternatives compares equal |
| `Schema.WriteThenCompare` | openeebus/src/common/eebus_data/eebus_data_choice.c:221-239 | after an aligned write destination and source compare equal, whatever the destination held |
| `Schema.WriteCopies` | openeebus/src/common/eebus_data/eebus_data_simple.c:69-86 | choice-free writes are always exact |
| `Buffers.ListBuffer.Write` | openeebus/src/common/eebus_data/eebus_data_list.c:360-396 | the list write that reuses the old buffer when the size is right |
| `Buffers.ListBuffer.Compare` | openeebus/src/common/eebus_data/eebus_data_list.c:285-310 | the item-by-item loop decides deep comparison, the two sides of possibly different configurations |
| `Selectors.MatchDataIsFieldEquality` | openeebus/src/common/eebus_data/eebus_data_sequence.c:196-231 | matching data against data of the same schema: every non-null field is equal |
| `Selectors.SelectorsMatchByName` | openeebus/src/common/eebus_data/eebus_data_sequence.c:177-231 | for any selector configuration: an item is picked exactly when every selector field that is not null compares equal to the data field of its name, wherever that stands |
| `Selectors.SelectorsMatchIsEquality` | openeebus/src/common/eebus_data/eebus_data_sequence.c:196-231 | where the named fields have one shape, exactly when these are equal |
| `Selectors.UnknownSelectorsPickAll` | openeebus/src/common/eebus_data/eebus_data_sequence.c:219-223 | selectors that name no field of the data pick every item |
| `Selection.CountWhere` | openeebus/src/common/eebus_data/eebus_data_list.c:249-256 | the counting pass |
| `Selection.FillWhere` | openeebus/src/common/eebus_data/eebus_data_list.c:269-280 | the filling pass writes the order-preserving filter into a buffer of the counted size |
| `Selection.FilterPartitions` | openeebus/src/common/eebus_data/eebus_data_list.c:584-591 | selected and remaining items together are the list, with multiplicity |
| `Selection.RejectedHasNoMatch` | openeebus/src/common/eebus_data/eebus_data_list.c:551-599 | nothing selectable is left after a deletion |
| `Selection.FindMatching` | openeebus/src/common/eebus_data/eebus_data_list.c:758-775 | the search returns the first match from a position on |
| `Selection.MatchIterator.constructor` | openeebus/src/common/eebus_data/eebus_data_list.c:777-813 | a new iterator has the filtered list ahead of it |
| `Selection.MatchIterator.IsDone` | openeebus/src/common/eebus_data/eebus_data_list.c:823-825 | done exactly when no match remains |
| `Selection.MatchIterator.Get` | openeebus/src/common/eebus_data/eebus_data_list.c:815-821 | the current item is the first of the remaining matches |
| `Selection.MatchIterator.Next` | openeebus/src/common/eebus_data/eebus_data_list.c:827-838 | a step drops exactly the first remaining match |
| `Buffers.ListBuffer.CopyMatching` | openeebus/src/common/eebus_data/eebus_data_list.c:227-283 | the destination becomes the order-preserving filter of the items, null when nothing matches |
| `Buffers.ListBuffer.DeleteListItems` | openeebus/src/common/eebus_data/eebus_data_list.c:551-599 | the complement of the selection is kept in order; deleting every item does nothing where a zero-size allocation yields null |
| `Buffers.ListBuffer.DeleteListItemsElements` | openeebus/src/common/eebus_data/eebus_data_list.c:601-622 | the masked fields are removed from exactly the selected items |
| `Buffers.ListBuffer.DeletePartial` | openeebus/src/common/eebus_data/eebus_data_list.c:624-656 | items, fields of selected items, fields of all items, or nothing, by which of selectors and elements are null |
| `Json.LeafRoundTrip` | openeebus/src/common/eebus_data/eebus_data_enum.c:60-102 | a leaf returns from its JSON item exactly when it is in its domain: integers a double holds, enumeration values in an unambiguous table, date-times that print readably |
| `Json.ExactDoubleIsExact` | openeebus/src/common/eebus_data/eebus_data_numeric.c:35-47 | an integer survives the conversion to the nearest double and back exactly when it is a multiple of the spacing at its magnitude |
| `Json.SmallIntegersAreExact` | openeebus/src/common/eebus_data/eebus_data_numeric.c:35-47 | so do all integers up to 2^53 |
| `Json.EnumRoundTrip` | openeebus/src/common/eebus_data/eebus_data_enum.c:60-102 | a value survives its table exactly when the first entry with that value is also the first with its name |
| `Json.FieldFindsItself` | openeebus/src/common/json_impl_cjson.c:31-46 | with names distinct ignoring case, a field finds in the whole array what it wrote itself |
| `Json.SequenceIsOneMemberEach` | openeebus/src/common/eebus_data/eebus_data_sequence.c:80-102 | an encoded sequence is an array of objects with one member each, under the configured names of the non-null fields, or of the alternatives they hold, verbatim and in order |
| `Json.DocumentIsOneMember` | openeebus/src/common/eebus_data/eebus_data_base.c:94-110 | a printed document has one member under the configured name, or none for null |
| `Json.LeafReads` | openeebus/src/common/eebus_data/eebus_data_enum.c:60-83 | what each leaf takes from any JSON item: the integer part of numbers, the first code of a name, null for an unknown name, errors for other kinds |
| `Json.ShapesRead` | openeebus/src/common/eebus_data/eebus_data_list.c:156-170 | structures and lists are read from arrays only; from an empty one a structure is allocated with nothing in it and a list stays null |
| `Json.NearestDoubleIsNearest` | openeebus/src/common/eebus_data/eebus_data_numeric.c:45-47 | a number goes through the nearest double, ties to even |
| `Json.UlpScale` | openeebus/src/common/eebus_data/eebus_data_numeric.c:45-47 | with 53 significant bits |
| `Json.JsonRoundTrip` | openeebus/src/common/eebus_data/eebus_data_sequence.c:59-102 | on every schema with distinct names a value returns from its JSON tree exactly when it is in the round-trip domain |
| `Json.FieldRoundTrip` | openeebus/src/common/eebus_data/eebus_data_choice.c:92-131 | the same for a named field, choices included: a null choice returns exactly when it is on alternative 0 |
| `Json.ListRoundTrip` | openeebus/src/common/eebus_data/eebus_data_list.c:156-225 | a list returns exactly when it is non-empty and its items are non-null and return |
| `Json.DocumentRoundTrip` | openeebus/src/common/eebus_data/eebus_data_base.c:50-110 | parsing the printed root object gives the value back exactly on that domain, null included |
| `JsonWalks.FindItem` | openeebus/src/common/json_impl_cjson.c:31-46 | the lookup loop finds the first named member of any object in the array |
| `JsonWalks.FindName` | openeebus/src/common/eebus_data/eebus_data_enum.c:67-78 | the table search by name |
| `JsonWalks.FindCode` | openeebus/src/common/eebus_data/eebus_data_enum.c:92-98 | the table search by value |
| `JsonWalks.FieldsToJson` | openeebus/src/common/eebus_data/eebus_data_sequence.c:80-102 | the loop that appends field after field builds the tree form, or fails as a whole |
| `JsonWalks.FieldsFromJson` | openeebus/src/common/eebus_data/eebus_data_sequence.c:59-78 | the loop that reads field after field |
| `JsonWalks.ItemsToJson` | openeebus/src/common/eebus_data/eebus_data_list.c:192-225 | the loop that appends item after item; a null item fails |
| `JsonWalks.ItemsFromJson` | openeebus/src/common/eebus_data/eebus_data_list.c:156-190 | the loop that reads item after item; an empty array leaves null |
| `JsonWalks.ChoiceFromJson` | openeebus/src/common/eebus_data/eebus_data_choice.c:92-107 | the loop over alternatives takes the first present one |
| `Calendar.Normalize` | openeebus/src/common/eebus_date_time/eebus_date_time.c:97-111 | the carry with C's truncating remainder brings the field into range and keeps the total, within 32 bits |
| `Calendar.DateTimeBuffer.NormalizeMonths` | openeebus/src/common/eebus_date_time/eebus_date_time.c:113-117 | the month comes into 1..12 with the month count and the day unchanged |
| `Calendar.DateTimeBuffer.NormalizeDays` | openeebus/src/common/eebus_date_time/eebus_date_time.c:119-139 | the walk over months and leap years terminates on a calendar day with the same absolute day number |
| `Calendar.DateTimeBuffer.AddClock` | openeebus/src/common/eebus_date_time/eebus_date_time.c:150-156 | seconds, minutes, hours and days carried up move the absolute second count by exactly their sum |
| `Calendar.DateTimeBuffer.AddDuration` | openeebus/src/common/eebus_date_time/eebus_date_time.c:141-162 | invalid arguments are refused without effect; otherwise the date-time exactly the clock seconds away, then moved by whole months |
| `Calendar.AdvancedIsUnique` | openeebus/src/common/eebus_date_time/eebus_date_time.c:141-162 | that description determines the result |
| `Calendar.AdvancedMovesBySeconds` | openeebus/src/common/eebus_date_time/eebus_duration.c:339-355 | a month-free sum is on the calendar, and the absolute count moves by the duration's seconds exactly when it has no years and no whole second in its milliseconds |
| `Calendar.InvertedDurationUndoes` | openeebus/src/common/eebus_date_time/eebus_duration.c:46-59 | adding a month-free duration and then its inverse returns the original date-time |
| `Calendar.MonthsCanLeaveCalendar` | openeebus/src/common/eebus_date_time/eebus_date_time.c:157-159 | a month after 31 January is 31 February |
| `Calendar.SumStaysOnCalendar` | openeebus/src/common/eebus_date_time/eebus_date_time.c:157-159 | told from the arguments: the sum is a calendar date-time exactly when the month it is moved to has the day that lies the clock seconds away |
| `Calendar.EveryInstantIsShown` | openeebus/src/common/eebus_date_time/eebus_date.c:37-47 | every absolute count, negative ones too, belongs to a calendar date-time, which the model computes |
| `Calendar.DaysBeforeYearClosedForm` | openeebus/src/common/eebus_date_time/eebus_date.c:33-35 | the leap-year rule sums to the closed Gregorian day count, before year 0 as well |
| `Calendar.MonthLength` | openeebus/src/common/eebus_date_time/eebus_date.c:37-47 | the days-in-month rule is the distance between month starts, across year ends |
| `Calendar.MonthStartClosedForm` | openeebus/src/common/eebus_date_time/eebus_date.c:31-47 | the month table agrees with the closed formula for month starts |
| `Calendar.CalendarIsCounted` | openeebus/src/common/eebus_date_time/eebus_date.c:49-68 | the calendar is exactly the dates that some absolute day count belongs to |
| `Calendar.ValidMoments` | openeebus/src/common/eebus_date_time/eebus_date.c:49-68 | valid dates are the calendar dates of the years 0 to 2100, valid times those a second of the day is shown as |
| `Calendar.ValidDurations` | openeebus/src/common/eebus_date_time/eebus_duration.c:184-229 | valid durations are those without fields of opposite sign |
| `Calendar.SecondsOfDuration` | openeebus/src/common/eebus_date_time/eebus_duration.c:339-355 | the total in seconds, with years of 365 days and months of 30, cut toward zero |
| `Calendar.CompareIsChronological` | openeebus/src/common/eebus_date_time/eebus_date_time.c:195-204 | comparison orders date-times exactly as their absolute second counts, and is zero only on equal ones |
| `DurationText.LengthIsExact` | openeebus/src/common/eebus_date_time/eebus_duration.c:245-279 | the precomputed length is the printed length plus the terminator |
| `DurationText.PrintToBuffer` | openeebus/src/common/eebus_date_time/eebus_duration.c:281-321 | printing piece by piece into a buffer of that size leaves the whole text in it; exactly invalid durations give none |
| `DurationText.Parse` | openeebus/src/common/eebus_date_time/eebus_duration.c:117-182 | the parser's loop computes the recursive grammar |
| `DurationText.BodyParses` | openeebus/src/common/eebus_date_time/eebus_duration.c:61-115 | the printed components are read back as their magnitudes |
| `DurationText.TenthsAreRead` | openeebus/src/common/eebus_date_time/eebus_duration.c:61-93 | one digit behind the point is tenths of a second |
| `DurationText.HundredthsAreRead` | openeebus/src/common/eebus_date_time/eebus_duration.c:61-93 | two are hundredths |
| `DurationText.ThousandthsAreRead` | openeebus/src/common/eebus_date_time/eebus_duration.c:61-93 | three are thousandths, and reading stops there |
| `DurationText.SignedTexts` | openeebus/src/common/eebus_date_time/eebus_duration.c:122-140 | a leading plus is skipped, a leading minus negates every field |
| `DurationText.DurationRoundTrip` | openeebus/src/common/eebus_date_time/eebus_duration.c:117-321 | a valid duration survives print and parse exactly when its milliseconds are zero or come below a thousand with non-zero seconds; otherwise its own text is rejected |
| `MomentText.DateRoundTrip` | openeebus/src/common/eebus_date_time/eebus_date.c:70-125 | every valid date survives print and parse |
| `MomentText.TimeRoundTrip` | openeebus/src/common/eebus_date_time/eebus_time.c:57-125 | every valid time survives print and parse |
| `MomentText.DateFormat` | openeebus/src/common/eebus_date_time/eebus_date.c:108-125 | a printed date is ten characters: four digits, two, two, with hyphens |
| `MomentText.TimeFormat` | openeebus/src/common/eebus_date_time/eebus_time.c:108-125 | a printed time is nine: two digits each, with colons, and a Z |
| `MomentText.DateTimeFormat` | openeebus/src/common/eebus_date_time/eebus_date_time.c:68-95 | a printed date-time is one, a T and the other; invalid ones have no text |
| `MomentText.DateReads` | openeebus/src/common/eebus_date_time/eebus_date.c:70-106 | digits of any length between hyphens are read exactly when they make a valid date |
| `MomentText.TimeReads` | openeebus/src/common/eebus_date_time/eebus_time.c:57-106 | digits between colons, with any fraction, then nothing or a Z and anything, are read exactly when they make a valid time |
| `MomentText.SplitsAtT` | openeebus/src/common/eebus_date_time/eebus_date_time.c:44-56 | the text is split at its first T, and more than ten characters before it are refused |
| `MomentText.NeverBoth` | openeebus/src/common/eebus_data/eebus_data_date_time.c:68-83 | no text is both a duration and a date-time |
| `MomentText.DateTimeRoundTrip` | openeebus/src/common/eebus_date_time/eebus_date_time.c:39-95 | every valid date-time survives print and parse |
| `MomentText.DurationTextIsNoDateTime` | openeebus/src/common/eebus_data/eebus_data_date_time.c:68-83 | a duration text is never taken for a date-time |
| `MomentText.MomentRoundTrip` | openeebus/src/common/eebus_data/eebus_data_date_time.c:68-98 | an absolute-or-relative time returns with its tag and value, except an unreadable duration, which is rejected |
| `Decimal.StrtolReads` | openeebus/src/common/eebus_date_time/eebus_duration.c:150-157 | a digit string is read back whole, saturating, and reading stops behind it |
| `Decimal.StrtolReadsSigned` | openeebus/src/common/eebus_date_time/eebus_date.c:81-101 | spaces, one sign or none, then digits |
| `Queue.FlagsAreExact` | openeebus/src/common/eebus_queue/eebus_queue.c:326-332 | full and empty mean that many pending messages, although the two positions alone do not tell |
| `Queue.SentAppends` | openeebus/src/common/eebus_queue/eebus_queue.c:246-267 | a send appends at the young end, also across the wrap |
| `Queue.ReceivedRemovesOldest` | openeebus/src/common/eebus_queue/eebus_queue.c:289-310 | a receive takes the oldest pending message |
| `Queue.ClearDeallocatesUnlessFull` | openeebus/src/common/eebus_queue/eebus_queue.c:334-349 | a clear deallocates every pending message once, oldest first, exactly when the queue is not full; a full one is emptied without deallocating |
| `Queue.StepKeepsFifo` | openeebus/src/common/eebus_queue/eebus_queue.c:246-349 | every operation keeps: removed messages in order, then pending ones, are the accepted ones in order |
| `Queue.StepOnMessages` | openeebus/src/common/eebus_queue/eebus_queue.c:246-357 | an open queue takes a message exactly while it has room and gives out the oldest exactly while it has any; a closed one does neither; clearing and closing empty it |
| `Queue.RunsAreFifo` | openeebus/src/common/eebus_queue/eebus_queue.c:241-349 | over every run the removed messages are a prefix of the accepted ones, the rest is pending, and both flags are exact |
| `Queue.LeaksOnlyWhenClearedFull` | openeebus/src/common/eebus_queue/eebus_queue.c:334-357 | over every run a message is lost undelivered and unfreed exactly when a clear or destruction meets a full queue |
| `Queue.CreateQueue` | openeebus/src/common/eebus_queue/eebus_queue.c:108-169 | a queue is made empty and open, exactly unless its sizes are zero or overflow |
| `Queue.EebusQueue.Send` | openeebus/src/common/eebus_queue/eebus_queue.c:246-282 | result code, new ring state and pending messages of a send |
| `Queue.EebusQueue.Receive` | openeebus/src/common/eebus_queue/eebus_queue.c:289-324 | result code, new ring state and pending messages of a receive |
| `Queue.EebusQueue.Drain` | openeebus/src/common/eebus_queue/eebus_queue.c:334-344 | the loop hands over the slots from tail to head, cyclically |
| `Queue.EebusQueue.Clear` | openeebus/src/common/eebus_queue/eebus_queue.c:334-357 | the new state and the deallocator calls of a clear |
| `Queue.EebusQueue.Close` | openeebus/src/common/eebus_queue/eebus_queue.c:171-184 | destruction closes and clears |
| `Lpc.StepKeepsLimits` | components/eebus_lpc/eebus_lpc.cpp:231-242 | every event keeps limit state and fired triggers in agreement |
| `Lpc.EveryRunAgrees` | components/eebus_lpc/eebus_lpc.cpp:331-346 | in every run a limit is active exactly when the last trigger was an active one, with the value it carried, and no clearing follows a clearing |
| `Lpc.LimitUntouched` | components/eebus_lpc/eebus_lpc.cpp:348-357 | only limit messages, the watchdog and a disconnect touch the limit |
| `Lpc.TickIsTimely` | components/eebus_lpc/eebus_lpc.cpp:154-177 | after a tick an active limit has a heartbeat at most 60000 ms old modulo 2^32, an open window has time left, and a tripped watchdog has applied the failsafe value |
| `Lpc.TripsAfterAMinute` | components/eebus_lpc/eebus_lpc.cpp:159-166 | the watchdog trips exactly when a limit is active and more than a minute has really passed since the last heartbeat |
| `Lpc.TickOnLimit` | components/eebus_lpc/eebus_lpc.cpp:159-166 | a tick within a minute leaves the received limit as it is; a later one replaces an active limit by the failsafe value and fires its trigger |
| `Lpc.FailsafeStaysInForce` | components/eebus_lpc/eebus_lpc.cpp:159-166 | until a limit message or disconnect, over every run, the limit stays active with a failsafe value |
| `Lpc.StepKeepsSync` | components/eebus_lpc/eebus_lpc.cpp:281-287 | component window and service flag stay equal under every event except creating the service under an open window |
| `Lpc.OutOfSyncOnlyByEarlyWindow` | components/eebus_lpc/eebus_lpc.cpp:512-516 | a run stays in sync throughout exactly when its service is not created under an open window |
| `Lpc.EarlyWindowIsOutOfSync` | components/eebus_lpc/eebus_lpc.cpp:281-287 | a window opened before setup is open for the component and closed for the service |
| `Lpc.TrustAnswersAgreeAfterTick` | openeebus/src/service/service/eebus_service.c:249-253 | in sync, service and component give the trust query the same answer after every tick, and in between the service is at most more permissive |
| `Ticks.OpenWhileInTime` | components/eebus_lpc/eebus_lpc.cpp:168-176 | a window that ticks may close is open exactly when every tick so far was before its deadline on the clock |
| `Ticks.InTime` | components/eebus_lpc/eebus_lpc.cpp:281-287 | which ticks of one clock cycle are before the deadline, by the time really passed and by which of tick and deadline wrap |
| `Lpc.WindowOverRun` | components/eebus_lpc/eebus_lpc.cpp:168-176 | after any run that does not itself open or close it, a window is open exactly when every tick so far was before its deadline on the clock |
| `Lpc.WindowLength` | components/eebus_lpc/eebus_lpc.cpp:168-176 | a tick closes the window before its five minutes exactly when the deadline has wrapped and the clock has not, and leaves it open beyond them exactly when the clock has wrapped and the deadline has not |
| `Lpc.Component.Loop` | components/eebus_lpc/eebus_lpc.cpp:154-177 | the tick as one step of the machine |
| `Lpc.Component.StartService` | components/eebus_lpc/eebus_lpc.cpp:479-555 | service creation as one step |
| `Lpc.Component.OnRemoteSkiConnected` | components/eebus_lpc/eebus_lpc.cpp:198-229 | a connecting peer is known, just paired, asked about, or refused |
| `Lpc.Component.OnRemoteSkiDisconnected` | components/eebus_lpc/eebus_lpc.cpp:231-242 | a disconnect clears an active limit and its trigger fires |
| `Lpc.Component.OnShipStateUpdate` | components/eebus_lpc/eebus_lpc.cpp:244-267 | a valid peer that completes the handshake is paired and closes the window |
| `Lpc.Component.EnterPairingMode` | components/eebus_lpc/eebus_lpc.cpp:281-287 | opening the window as one step |
| `Lpc.Component.AcceptPairing` | components/eebus_lpc/eebus_lpc.cpp:289-302 | accepting the pending peer as one step |
| `Lpc.Component.RejectPairing` | components/eebus_lpc/eebus_lpc.cpp:304-313 | rejecting as one step |
| `Lpc.Component.ForgetPairing` | components/eebus_lpc/eebus_lpc.cpp:315-325 | forgetting a peer reopens the window |
| `Lpc.Component.OnPowerLimitReceive` | components/eebus_lpc/eebus_lpc.cpp:331-346 | a limit message as one step |
| `Lpc.Component.OnHeartbeatReceive` | components/eebus_lpc/eebus_lpc.cpp:353-357 | a heartbeat as one step |
| `Wp.EveryRunIsLegal` | components/eebus_wp/eebus_wp.cpp:344-426 | in every run the remembered limit is 0 or at least 4200 and only held while connected, every active limit sent is at least 4200, heartbeat and service start once in that order, and window and service flag agree |
| `Wp.LimitSent` | components/eebus_wp/eebus_wp.cpp:344-378 | what is sent and remembered for a limit, from the watts: nothing unless connected, no limit for zero or less, 4200 below it, the watts as given from there on |
| `Wp.AlarmAfterTwoMinutes` | components/eebus_wp/eebus_wp.cpp:286-311 | the alarm is on exactly when connected for two minutes with no heartbeat ever or for two minutes |
| `Wp.StepKeepsLimitsLegal` | components/eebus_wp/eebus_wp.cpp:344-378 | every event keeps the limits legal |
| `Wp.StepKeepsStartsAndSync` | components/eebus_wp/eebus_wp.cpp:664-706 | every event keeps the start order and the window in step with the service |
| `Wp.WindowOverRun` | components/eebus_wp/eebus_wp.cpp:312-320 | after any run without a completed handshake a window is open exactly when every tick so far was before its deadline on the clock |
| `Wp.Component.Loop` | components/eebus_wp/eebus_wp.cpp:286-321 | the tick as one step |
| `Wp.Component.SetLimit` | components/eebus_wp/eebus_wp.cpp:344-378 | clamping, sending and remembering a limit as one step |
| `Wp.Component.OnEntityConnect` | components/eebus_wp/eebus_wp.cpp:384-410 | a connect sends the inactive limit first |
| `Wp.Component.OnEntityDisconnect` | components/eebus_wp/eebus_wp.cpp:412-426 | a disconnect forgets the limit |
| `Wp.Component.StartEebusService` | components/eebus_wp/eebus_wp.cpp:560-658 | setup creates the service, closes any window opened before it, and may lack the use case |
| `Wp.Component.RefreshHeartbeat` | components/eebus_wp/eebus_wp.cpp:689-706 | the first time synchronisation starts heartbeat, then service |
| `MdnsTxt.ParseTxtRecord` | openeebus/src/ship/mdns/mdns_entry.c:209-244 | the loop stays inside the buffer, terminates, and computes the record-by-record parse |
| `MdnsTxt.NextRecord` | openeebus/src/ship/mdns/mdns_entry.c:213-231 | one record: the length, separator and size checks and the two slices |
| `MdnsTxt.TxtRoundTrip` | openeebus/src/ship/mdns/mdns_entry.c:171-244 | parsing the encoding of any list of full keys with non-empty NUL-free values succeeds and applies them in order |
| `MdnsTxt.LastSettingWins` | openeebus/src/ship/mdns/mdns_entry.c:192-206 | a field ends with the last value given for its key |
| `MdnsTxt.Unmentioned` | openeebus/src/ship/mdns/mdns_entry.c:192-206 | a field no record names keeps what it had |
| `MdnsTxt.AcceptedMatches` | openeebus/src/ship/mdns/mdns_entry.c:193-198 | for every key, NUL bytes included: the length-limited comparison accepts the prefixes of a known key, and the whole key followed by NUL and anything |
| `MdnsTxt.SetValueIsExact` | openeebus/src/ship/mdns/mdns_entry.c:192-206 | a key changes nothing when no table key accepts it; otherwise exactly the field of the first that does takes the value |
| `MdnsTxt.KnownKeysAreExact` | openeebus/src/ship/mdns/mdns_entry.c:181-206 | the same for the parser's own table, for every key |
| `MdnsTxt.FullKeySetsItsField` | openeebus/src/ship/mdns/mdns_entry.c:181-206 | each of the eight keys, given in full, sets its own field |
| `MdnsTxt.UpToNulIsPrefix` | openeebus/src/ship/mdns/mdns_entry.c:204-204 | the stored value is everything before the first NUL |
| `MdnsTxt.PrefixIsTakenForKey` | openeebus/src/ship/mdns/mdns_entry.c:192-198 | the key "t" sets txtvers |

## Left out

- JSON text: the parser and printer of the cJSON library; the model starts and ends at the tree, and lookup ignores ASCII letter case.
- Containers: the wrapper that forwards partial operations to its inner list; its own checks are null tests, and its list is modelled directly.
- Choice-root schemas and choices inside choices: mostly assertions and no-ops in the code.
- Nested buffers: a structure or list buffer holds its children as values, so aliasing between two parents of one child is not captured.
- Calls between buffer methods of nested structures: an element is updated through the value-level function its own method is proved against.
- JSON conversion updates of partly filled buffers: a decode that fails half way leaves fields behind in the code; here it is just an error.
- Numbers outside the field's type in JSON: the cast is undefined in C and refused here.
- Comparing a list with something that is not a list: the code does not guard it; the model answers unequal.
- Comparing numbers of different widths: the code compares bytes; the model compares the numbers.
- Match data that is a null pointer: the iterator is then done at once while the copy takes every item; both are modelled for match data that is present.
- Buffers.ListBuffer.WritePartial: does not cover a non-null source list of size zero onto a non-empty list, nor such lists inside the source items, where the code reads past the buffer.
- Buffers.ListBuffer.CopyToSelectedData: does not cover a non-null source list of size zero, where the code reads past the buffer.
- Stability.ExactExactlyWhenSafe: leaves out flagged lists and lists of lists, which the schema macros cannot declare, number types without values, and choices, on which the code asserts.
- Schema.OverwriteIsExact: looks at slots and sizes, not at bytes. A structure over slots of another kind, or text over a buffer that is not text, counts as a clash even where the bytes left behind happen to be zero and the code gets away with it. Each buffer is taken to have the size its current configuration allocates; one that was larger before, such as a 64-bit number's buffer reused for an 8-bit alternative and then for a 64-bit one again, is exact in the code and a clash here. What is leaked is not counted as a difference.
- Buffers.RecordBuffer.WritePartial: does not cover source lists that are allocated and empty, where the code reads past the buffer, nor schemas with unsafe keys, where the nested merge overruns its buffer.
- Buffers.ListBuffer.MergeData: does not cover schemas with unsafe keys, where it overruns its buffer, nor source items with allocated but empty keyed lists inside.
- Calendar.DateTimeBuffer.AddDuration: does not model wrap-around of 32-bit sums, which C leaves undefined.
- Duration comparison, current time, appending to and removing from lists by pointer: easy members.
- Threads, condition variables and timers: the queue's critical sections are atomic steps; fairness and wake-up order are not modelled.
- Persistence, certificates, logging, listeners and the status text of the components.
- WebSocket reassembly, TLS, SHIP handshake, SPINE model, use-case actors and the command line.
