# Ticket board store: a Dafny model

This project models the ticket store of a browser ticket board, *ticketflow*. The page keeps a list of tickets. Each ticket has:

- a numeric `id` and an optional external `ticketId`;
- title, owner, note and priority;
- a status (in progress or done);
- an elapsed-time label `age`;
- an `orderIndex` for the in-progress tab;
- a `lastSync` time.

A browser extension scrapes the external ticketing system (OTRS) and posts batches of records to the page. The page runs each batch through `mapOtrsToTickets` and then through a merge keyed by external id, or by `"local-<id>"` for a ticket without one. The result is sorted by `orderIndex`.

The user can add a blank ticket, delete a ticket, edit a row, drag rows into a new order, clear the whole table and undo the clear within 30 seconds. The two tabs show the tickets that match the search box: in-progress tickets by `orderIndex`, done tickets newest first.

The small helpers in `utils/` are modelled too:

- the priority rank and the two comparators;
- the age-label parser and the minute formatter;
- the translation of external priority labels;
- the done-status test;
- the blank-ticket constructor.

Module layout, following the source:

| file | module | models |
|---|---|---|
| `wrappers.dfy` | `Wrappers` | `Option`, for `null` and absent fields |
| `strings.dfy` | `Strings` | `toLowerCase` (ASCII), `includes`, number rendering and `parseInt` on digit runs |
| `seqs.dfy` | `Seqs` | `filter`, the stable `sort` with a numeric-key comparator, `indexOf` |
| `ticket.dfy` | `TicketTypes` | the ticket and external-record types, `Math.max` over ids and order positions |
| `ticket_status.dfy` | `TicketStatus` | `utils/ticketStatus.ts`, whose done list also stands for the page's `DONE_STATUSES`, and the page's in-progress test |
| `otrs_priority.dfy` | `OtrsPriority` | `utils/parseOTRSPriorityToTicket.ts` |
| `ticket_sorting.dfy` | `TicketSorting` | `utils/ticketSorting.ts` |
| `format_age.dfy` | `AgeLabel` | `utils/formatAge.ts`, and the round trip with the parser |
| `empty_ticket.dfy` | `EmptyTicket` | `utils/createEmptyTicket.ts` |
| `otrs_sync.dfy` | `OtrsSync` | `mapOtrsToTickets` and the sync merge of `app/page.tsx` |
| `store.dfy` | `StoreCommands` | add, delete, reorder and the undo merge of `app/page.tsx` |
| `table.dfy` | `TicketTableOps` | row update and drag-end guard of `components/TicketTable.tsx` |
| `view.dfy` | `TicketViews` | search filter and the two tabs of `app/page.tsx` |
| `board.dfy` | `Board` | the page state as a class `TicketBoard`, one method per handler |

The imperative parts keep their form:

- `MapOtrsToTickets` is a loop that advances the two counters.
- `SyncMerge` is the two loops over a `Map`, modelled as `TicketIndex`: a key sequence in insertion order plus a `map`.
- `ParseAgeToMinutes` accumulates into `minutes`.
- The page state is the class `TicketBoard`.

Each of these is proved equal to a specification function, and the lemmas are stated about those functions.

Points where the code's own evidence deserves a note:

- **Merge refresh.** In the sync merge, a ticket already in the store keeps everything except `age` and `lastSync`. The title, owner and priority that the mapper refreshed are discarded by `...(existing ?? incoming)` (app/page.tsx:58-62). A sync therefore keeps a stored ticket's status, id, external id, title, owner, priority, note and order position (`OtrsSync.MergeKeepsStoredTicket`, `OtrsSync.SyncKeepsStatus`), so a done ticket is never reopened. Its `age` and `lastSync` are still overwritten (`OtrsSync.FoldStamps`, `OtrsSync.SyncRefreshesAge`). The reopen dialog in `components/ReopenTicketsDialog.tsx` is not used by the page, so no reopen flow exists.
- **Undo after add.** The comment at app/page.tsx:212 says the tickets created after the clear are kept. Line 213 drops every current ticket whose id the snapshot uses, and a ticket added to the emptied store gets id 1 (app/page.tsx:169-177). This is listed under "## Findings"; the board runs the undo as written, and the corrected undo is modelled beside it.
- **Repeated sync.** Syncing the same batch again changes nothing but sync times when every record carries an external id (`OtrsSync.SyncTwiceOnlyRestamps`). A record without one is keyed by a fresh local id on every sync, so each repetition adds another copy of it (`OtrsSync.ResyncDuplicatesUnkeyedRecord`).
- **Stale ticket type.** `types/Ticket.ts` describes an older record: numeric `age`, no `ticketId` or `orderIndex`, and a `Finalizado` status. The store follows the record that `app/page.tsx` builds. `Finalizado` is kept as a status that is neither in progress nor done.

## Model

| member | source | states |
|---|---|---|
| Strings.Lower | app/page.tsx:264-269 | lower-casing keeps the length and lower-cases each ASCII letter and nothing else |
| Strings.LowerIdempotent | app/page.tsx:264-269 | lower-casing a lower-cased text changes nothing |
| Strings.Contains | app/page.tsx:266-269 | `includes` holds exactly when some window of the text equals the query |
| Strings.ContainsEmpty | app/page.tsx:266 | the empty query occurs in every text |
| Strings.NatToString | app/page.tsx:48 | a rendered natural number is a non-empty digit string, one digit long exactly below 10, with no leading zero |
| Strings.DigitsValue | utils/ticketSorting.ts:24 | defines `parseInt(s, 10)` on a run of decimal digits, most significant digit first |
| Strings.IntToString | app/page.tsx:48 | the rendering of a non-negative integer is its digits; a negative one gets a leading "-" |
| Strings.DigitsValueOfNatToString | utils/ticketSorting.ts:24 | `parseInt` of a rendered number gives the number back |
| Strings.NatToStringInjective | app/page.tsx:48 | distinct natural numbers render differently |
| Strings.IntToStringInjective | app/page.tsx:48 | distinct integers render differently, so `local-<id>` keys of distinct ids differ |
| Seqs.Filter | app/page.tsx:162 | `filter` keeps exactly the elements passing the test, drawn from the input |
| Seqs.FilterConcat | app/page.tsx:162 | filtering keeps relative order: it distributes over concatenation |
| Seqs.FilterDistinctBy | app/page.tsx:162 | filtering keeps any pairwise distinctness |
| Seqs.FilterAll | app/page.tsx:162 | a filter every element passes is the identity |
| Seqs.InsertBy | app/page.tsx:66 | inserting into a sorted list keeps it sorted and adds exactly the one element |
| Seqs.SortBy | app/page.tsx:66 | the comparator sort yields a sorted permutation of its input |
| Seqs.SortByMembership | app/page.tsx:66 | sorting loses and invents no element |
| Seqs.SortByDistinct | app/page.tsx:66 | sorting keeps pairwise distinctness |
| Seqs.SortBySorted | app/page.tsx:66 | sorting a list already ordered by the key returns it unchanged |
| Seqs.IndexOf | app/page.tsx:285 | `indexOf` is the first position of the element, or -1 exactly when it is absent |
| TicketTypes.MaxId | app/page.tsx:92 | `Math.max` over ids bounds every id |
| TicketTypes.MaxIdAttained | app/page.tsx:92 | the maximum id is the id of some ticket |
| TicketTypes.MaxOrderIndex | app/page.tsx:97 | `Math.max` over order positions bounds every order position |
| TicketTypes.MaxOrderIndexAttained | app/page.tsx:97 | the maximum order position is that of some ticket |
| TicketTypes.NextId | app/page.tsx:90-93 | the next id exceeds every stored id and is 1 for an empty store |
| TicketTypes.NextIdFollowsMax | app/page.tsx:90-93 | on a non-empty store the next id is one past an existing id |
| TicketTypes.SameIdsSameUniqueness | app/page.tsx:284-287 | two lists with the same id sequence agree on id uniqueness |
| TicketStatus.IsDoneStatus | utils/ticketStatus.ts:11-15 | done exactly for Encerrado, Movido and Desbloqueado (also used for the page's done test) |
| TicketStatus.IsInProgressStatus | app/page.tsx:240-246 | in progress exactly for Pendente, Em atendimento and Aguardando resposta |
| TicketStatus.DoneStatusesDistinct | utils/ticketStatus.ts:3-7 | the done list has exactly three distinct values |
| TicketStatus.StatusClassesDisjoint | utils/ticketStatus.ts:14 | no status is both in progress and done; the working statuses and Finalizado are not done |
| OtrsPriority.ParseOtrsPriorityToTicket | utils/parseOTRSPriorityToTicket.ts:3-12 | the result is Baixa or Incidente; it is Incidente exactly for "5 muito alto" in any case; "3 normal" gives Baixa |
| OtrsPriority.ParseIgnoresCase | utils/parseOTRSPriorityToTicket.ts:4 | a label and its lower-cased form translate alike |
| OtrsPriority.ParseExamples | utils/parseOTRSPriorityToTicket.ts:4-11 | upper- and mixed-case spellings of the two labels are recognised; "4 alto" gives Baixa |
| TicketSorting.PriorityOrder | utils/ticketSorting.ts:3-8 | every rank lies in 1..4 |
| TicketSorting.PriorityOrderRanks | utils/ticketSorting.ts:3-8 | Baixa < Média < Alta < Incidente, and the rank is injective |
| TicketSorting.SortByPriority | utils/ticketSorting.ts:10-12 | negative exactly when the first ticket is more severe, zero exactly for equal priorities |
| TicketSorting.SortByPriorityIsOrder | utils/ticketSorting.ts:10-12 | the comparator is antisymmetric and its "not after" relation is transitive |
| TicketSorting.DigitRun | utils/ticketSorting.ts:19-21 | the captured run is all digits and maximal |
| TicketSorting.SpaceRun | utils/ticketSorting.ts:19-21 | the `\s*` run is all whitespace and maximal |
| TicketSorting.UnitMatchesAt | utils/ticketSorting.ts:19-21 | defines when `(\d+)\s*<unit>` matches at the start of a text: a digit run, blanks, then the unit letter |
| TicketSorting.FirstUnitMatch | utils/ticketSorting.ts:19-21 | defines `age.match(/(\d+)\s*<unit>/)`: the captured number at the first matching position, or none |
| TicketSorting.FirstUnitMatchNone | utils/ticketSorting.ts:19-21 | `match` finds nothing exactly when no position matches the pattern |
| TicketSorting.NoMatchShift | utils/ticketSorting.ts:19-21 | no position of a text matches exactly when its front does not and no position of its tail does |
| TicketSorting.FirstUnitMatchIsLeftmost | utils/ticketSorting.ts:19-21 | a found number is the one captured at the leftmost matching position |
| TicketSorting.LeftmostShift | utils/ticketSorting.ts:19-21 | a leftmost match in the tail, behind a non-matching front, is a leftmost match of the whole text one place further on |
| TicketSorting.AgeToMinutes | utils/ticketSorting.ts:14-15 | a missing or empty label counts 0 minutes |
| TicketSorting.ParseAgeToMinutes | utils/ticketSorting.ts:14-36 | the accumulated count is non-negative and equals 1440·days + 60·hours + minutes of the first matches, 0 for absent parts |
| TicketSorting.SortByAge | utils/ticketSorting.ts:38-40 | negative exactly when the first ticket is older, zero exactly for equal minute counts |
| TicketSorting.SortByAgeAntisymmetric | utils/ticketSorting.ts:38-40 | swapping the tickets negates the comparison |
| TicketSorting.NoDigitsNoMatch | utils/ticketSorting.ts:19-21 | a text without digits never matches |
| TicketSorting.NumberThenUnit | utils/ticketSorting.ts:19-21 | a rendered number followed by a blank and a letter matches exactly for that letter's unit, and the scan continues otherwise |
| TicketSorting.BlankThenRest | utils/ticketSorting.ts:19-21 | a leading blank does not change the match |
| TicketSorting.ParseAgeDaysHoursExample | utils/ticketSorting.ts:14-36 | "2 d 3 h" is 3060 minutes |
| TicketSorting.ParseAgeMinutesExample | utils/ticketSorting.ts:14-36 | "45 min" is 45 minutes |
| TicketSorting.ParseAgeZeroExample | utils/ticketSorting.ts:14-36 | "0 min" is 0 minutes |
| AgeLabel.JsRem | utils/formatAge.ts:5-6 | JavaScript's `%` agrees with the Euclidean remainder for non-negative counts and is non-positive for negative ones |
| AgeLabel.SplitAge | utils/formatAge.ts:4-6 | for a non-negative count: days·1440 + hours·60 + mins with hours < 24 and mins < 60 |
| AgeLabel.DecomposeMinutes | utils/formatAge.ts:4-6 | the three quantities recompose the count |
| AgeLabel.FormatAge | utils/formatAge.ts:1-20 | "<n> min" below an hour, "<h> h <m> min" below a day, "<d> d <h> hrs" from a day on, the signed minutes for a negative count |
| AgeLabel.HoursLabelValue | utils/formatAge.ts:15 | an "<h> h <m> min" label parses back to 60·h + m |
| AgeLabel.DaysLabelValue | utils/formatAge.ts:10 | a "<d> d <h> hrs" label parses back to 1440·d + 60·h |
| AgeLabel.RoundTripMinutes | utils/formatAge.ts:18-19 | parsing the label of a count below 60 gives the count |
| AgeLabel.RoundTripHours | utils/formatAge.ts:13-16 | parsing the label of a count below a day gives the count |
| AgeLabel.RoundTripDays | utils/formatAge.ts:8-11 | from a day on, parsing the label gives the count rounded down to whole hours |
| AgeLabel.ParseFormatRoundTrip | utils/formatAge.ts:1-20 | parse(format(n)) is n below a day and n − n mod 60 from a day on |
| EmptyTicket.CreateEmptyTicket | utils/createEmptyTicket.ts:3-14 | the given id, Pendente, Baixa, empty texts and age 0, which renders "0 min" |
| OtrsSync.LastMatch | app/page.tsx:86-88 | the `Map` built from the store keeps the last stored ticket with the key, or none |
| OtrsSync.LookupByTicketId | app/page.tsx:86-88 | a hit is a stored ticket with that non-empty external id; a miss on a non-empty key means no stored ticket carries it |
| OtrsSync.LookupMisses | app/page.tsx:87 | an empty key never matches |
| OtrsSync.FirstOrderIndex | app/page.tsx:95-98 | the first order position handed out exceeds every stored one and is 0 for an empty store |
| OtrsSync.FirstOrderIndexFollowsMax | app/page.tsx:95-98 | on a non-empty store it is one past an existing order position |
| OtrsSync.Refreshed | app/page.tsx:103-111 | defines the matched branch: the stored ticket with the record's title, owner, translated priority, age and the sync time |
| OtrsSync.Fresh | app/page.tsx:114-124 | defines the unmatched branch: a Pendente ticket with the record's fields and the two counter values |
| OtrsSync.MapFrom | app/page.tsx:100-125 | one mapped ticket per record, counters advancing on unmatched records only |
| OtrsSync.MappedTickets | app/page.tsx:82-126 | defines `mapOtrsToTickets`: the mapping with both counters one past the store's maxima |
| OtrsSync.MapOtrsToTickets | app/page.tsx:82-126 | the counter loop returns one ticket per record and equals the mapping `MappedTickets` |
| OtrsSync.MapFromAt | app/page.tsx:100-124 | position i of the mapping is the refreshed stored ticket, or the fresh ticket with both counters advanced past the earlier unmatched records |
| OtrsSync.UnmatchedBeforeGrows | app/page.tsx:115-122 | the counters never go back, and strictly advance past every unmatched record |
| OtrsSync.MappedTicketFields | app/page.tsx:100-124 | every mapped ticket carries the record's external id, title, owner, translated priority and age, and the sync time |
| OtrsSync.MappedTicketMatched | app/page.tsx:101-111 | a matched record keeps the stored ticket's id, status, order position and note |
| OtrsSync.MappedTicketUnmatched | app/page.tsx:114-124 | an unmatched record becomes the pending ticket whose id and order position continue the counters |
| OtrsSync.MappedTicketUnmatchedFields | app/page.tsx:114-124 | the id is max id + 1 plus the number of earlier unmatched records, likewise the order position; status Pendente and empty note |
| OtrsSync.MappedTicketUnmatchedShape | app/page.tsx:114-124 | an unmatched record becomes a pending ticket whose id and order position exceed every stored one |
| OtrsSync.FreshIdsAreNew | app/page.tsx:90-93 | a fresh id exceeds every stored id and differs from every other mapped ticket's id |
| OtrsSync.KeyOf | app/page.tsx:48 | the key is the external id, or "local-<id>" when it is empty |
| OtrsSync.TicketIndex.Put | app/page.tsx:49 | `Map.set`: the entry is replaced; a new key goes to the end of the key order, an existing one keeps its place |
| OtrsSync.TicketIndex.Values | app/page.tsx:65 | `Map.values`: one value per key, in key insertion order |
| OtrsSync.Fill | app/page.tsx:47-50 | the first loop yields a well-formed map |
| OtrsSync.Stamped | app/page.tsx:58-62 | the stored value takes the incoming age and the sync time |
| OtrsSync.MergeStep | app/page.tsx:55-62 | one iteration of the second loop yields a well-formed map |
| OtrsSync.Fold | app/page.tsx:54-63 | the second loop yields a well-formed map |
| OtrsSync.MergedIndex | app/page.tsx:45-63 | the map after both loops is well formed |
| OtrsSync.Merged | app/page.tsx:65-66 | defines the merged store: the map's values sorted by order position |
| OtrsSync.SyncResult | app/page.tsx:44-67 | defines the store after a sync message: the merge of the store with the mapped batch |
| OtrsSync.SyncMerge | app/page.tsx:44-67 | the two map loops and the sort produce the merged store, sorted by order position |
| OtrsSync.FillLast | app/page.tsx:47-50 | the first loop keeps the last stored ticket under each key |
| OtrsSync.FoldKeeps | app/page.tsx:54-63 | a stored entry hit by incoming tickets changes only in age and sync time |
| OtrsSync.FoldUntouched | app/page.tsx:54-63 | an entry no incoming ticket hits is unchanged |
| OtrsSync.FoldStamps | app/page.tsx:58-62 | the last incoming ticket with a key sets that entry's age and sync time |
| OtrsSync.FoldInserts | app/page.tsx:56-62 | an incoming ticket under a new key is inserted as it is, with the sync time |
| OtrsSync.FoldIdsDistinct | app/page.tsx:54-63 | ids stay distinct when new keys bring ids no entry has |
| OtrsSync.MergedShape | app/page.tsx:65-66 | the merged store is sorted by order position and holds each key once |
| OtrsSync.MergeKeepsStoredTicket | app/page.tsx:54-62 | a stored ticket survives the merge with everything but age and sync time; one whose key is not hit survives unchanged |
| OtrsSync.SyncKeepsStatus | app/page.tsx:59 | a sync never changes a stored ticket's status, id or external id, so no done ticket is reopened |
| OtrsSync.LocalKeyInjective | app/page.tsx:48 | local keys of distinct ids differ |
| OtrsSync.MappedKey | app/page.tsx:55 | a mapped ticket's key is its record's id, or a local key of an id above every stored id |
| OtrsSync.SyncKeepsLocalTicket | app/page.tsx:45-50 | a ticket without external id survives a sync unchanged when no scraped id looks like a local key |
| OtrsSync.SyncAddsNewTicket | app/page.tsx:114-124 | an unknown scraped ticket appears as a pending ticket with empty note, an id above every stored id and an order position after every stored one |
| OtrsSync.SyncRefreshesAge | app/page.tsx:58-62 | the ticket of a scraped id shows the age of the last record with that id and the sync time |
| OtrsSync.SyncPreservesUniqueIds | app/page.tsx:44-67 | distinct ids stay distinct through a sync |
| OtrsSync.MergeStepSourced | app/page.tsx:56-62 | each entry after one iteration is a stored or incoming ticket with at most age and sync time replaced |
| OtrsSync.FoldSourced | app/page.tsx:54-63 | the second loop only ever stores a stored or incoming ticket, restamped |
| OtrsSync.MergedFrom | app/page.tsx:44-67 | the merge invents no ticket: each merged ticket is a stored or incoming one with at most age and sync time replaced |
| OtrsSync.SyncResultFrom | app/page.tsx:44-67 | every ticket after a sync is a stored ticket or the mapping of a scraped record, with at most age and sync time replaced |
| OtrsSync.FillDistinctKeys | app/page.tsx:47-50 | over tickets with distinct new keys, the first loop appends exactly their keys, in order |
| OtrsSync.FoldPresentKeys | app/page.tsx:54-63 | when every incoming key is already present, the second loop leaves the key order as it is |
| OtrsSync.MergedEntryOf | app/page.tsx:45-66 | every merged ticket is the map's entry under its own key |
| OtrsSync.MergedCoversBatch | app/page.tsx:45-66 | every incoming ticket's key is the key of some merged ticket |
| OtrsSync.BatchTicket | app/page.tsx:100-124 | a record with an external id maps to a ticket keyed by that id and carrying its age |
| OtrsSync.RefoldEntry | app/page.tsx:54-63 | folding a batch with the same keys and ages again over an entry the first fold produced changes only its sync time |
| OtrsSync.ResyncEntry | app/page.tsx:44-126 | after a second sync of the same batch, each ticket of the first result sits under its key, changed only in sync time |
| OtrsSync.ResyncBatchPresent | app/page.tsx:44-126 | every record of the batch is already keyed in the first sync's result |
| OtrsSync.ResyncKeys | app/page.tsx:44-126 | the second sync of the same batch adds no key and keeps the key order of the first result |
| OtrsSync.SyncTwiceOnlyRestamps | app/page.tsx:44-126 | with external ids on every record, syncing the same batch twice yields the first result again, position by position, except for sync times |
| OtrsSync.SyncUnkeyedIntoEmpty | app/page.tsx:114-124 | a record without external id synced into an empty store becomes ticket 1 at order position 0 |
| OtrsSync.ResyncUnkeyedAddsTicket | app/page.tsx:86-124 | that record synced again is not matched and is added beside it, giving two tickets |
| OtrsSync.ResyncDuplicatesUnkeyedRecord | app/page.tsx:44-126 | a record without external id, synced twice into an empty store, leaves one ticket and then two |
| StoreCommands.BlankTicket | app/page.tsx:129-142 | the given id and order position, Pendente, Baixa, empty texts, an age reading 0 minutes |
| StoreCommands.AddOrderIndex | app/page.tsx:173-176 | the added ticket's order position exceeds every stored one and is 1 for an empty store |
| StoreCommands.AddOrderIndexFollowsMax | app/page.tsx:173-176 | on a non-empty store it is one past an existing order position |
| StoreCommands.WithNewTicket | app/page.tsx:169-177 | exactly one ticket is appended, earlier tickets unchanged; it is the blank ticket with the next id and the next order position, both above all others (1 and 1 when empty) |
| StoreCommands.AddKeepsUniqueIds | app/page.tsx:169-177 | adding keeps ids distinct |
| StoreCommands.WithoutId | app/page.tsx:160-166 | exactly the tickets with the id are removed |
| StoreCommands.DeleteKeepsOrder | app/page.tsx:162 | the survivors keep their order |
| StoreCommands.DeleteAbsentId | app/page.tsx:162 | deleting an absent id changes nothing |
| StoreCommands.DeleteKeepsUniqueIds | app/page.tsx:162 | deleting keeps ids distinct |
| StoreCommands.Reordered | app/page.tsx:282-293 | a listed ticket's order position becomes the first position of its id; unlisted tickets, length and order are unchanged |
| StoreCommands.ReorderKeepsIds | app/page.tsx:284-287 | reordering keeps every id in place |
| StoreCommands.ReorderFollowsList | app/page.tsx:285-286 | two listed tickets get their positions in the list |
| StoreCommands.IdSet | app/page.tsx:210 | the set holds exactly the snapshot's ids |
| StoreCommands.UndoMerge | app/page.tsx:209-218 | the snapshot comes first, followed by exactly the current tickets whose id the snapshot lacks, in their current order |
| StoreCommands.UndoKeepsUniqueIds | app/page.tsx:209-218 | undo keeps ids distinct |
| StoreCommands.UndoAfterClearRestores | app/page.tsx:209-218 | undo with nothing added restores the snapshot |
| StoreCommands.UndoDropsTicketAddedAfterClear | app/page.tsx:212-213 | a ticket added after a clear gets id 1 and is dropped by undo when the snapshot has id 1 |
| StoreCommands.FreeIdBase | app/page.tsx:170-171 | an id above every id of the snapshot and of the current store |
| StoreCommands.UndoKeepingNew | app/page.tsx:209-218 | corrected undo: the snapshot, then every current ticket in order with all its fields, under its own id unless the snapshot uses it, and never under a snapshot id |
| StoreCommands.UndoKeepingNewKeepsUniqueIds | app/page.tsx:209-218 | the corrected undo keeps ids distinct |
| StoreCommands.UndoKeepingNewRestores | app/page.tsx:209-218 | the corrected undo with nothing added restores the snapshot |
| StoreCommands.UndoKeepsTicketAddedAfterClear | app/page.tsx:212 | the ticket added after a clear survives the corrected undo with all its fields, under an id no snapshot ticket has |
| TicketTableOps.ReplaceById | components/TicketTable.tsx:140-147 | every ticket with the edited id becomes the edit; the others, the length and the order stay |
| TicketTableOps.ReplaceAbsentIsIdentity | components/TicketTable.tsx:143 | an edit whose id no ticket has changes nothing |
| TicketTableOps.ReplaceKeepsIds | components/TicketTable.tsx:143 | editing keeps every id in place |
| TicketTableOps.ReplaceIdempotent | components/TicketTable.tsx:143 | applying an edit twice equals applying it once |
| TicketTableOps.ReplaceLastEditWins | components/TicketTable.tsx:143 | of two edits to one ticket the later wins |
| TicketTableOps.FindIndexById | components/TicketTable.tsx:133-134 | `findIndex` is the first position with the id, or -1 exactly when absent |
| TicketTableOps.DragEndRequest | components/TicketTable.tsx:127-138 | no request without a target or on a self-drop; otherwise the visible ids and the positions of the dragged and target rows |
| TicketViews.MatchesSearch | app/page.tsx:264-270 | defines the search test: the lower-cased title, owner, priority label or external id contains the lower-cased query |
| TicketViews.Searched | app/page.tsx:263-271 | the result holds exactly the matching tickets, drawn from the store |
| TicketViews.EmptySearchKeepsAll | app/page.tsx:263-271 | the empty search keeps every ticket in order |
| TicketViews.SearchIgnoresQueryCase | app/page.tsx:264 | search ignores the case of the query |
| TicketViews.SearchFindsTitlePiece | app/page.tsx:266 | any piece of a title finds its ticket |
| TicketViews.InProgressView | app/page.tsx:273-275 | the in-progress tab is sorted by order position and is a permutation of the matching in-progress tickets |
| TicketViews.DoneView | app/page.tsx:277-279 | the done tab is sorted by descending id and is a permutation of the matching done tickets |
| TicketViews.InProgressViewMembers | app/page.tsx:273-275 | a ticket shows in the in-progress tab iff it is stored, matches and is in progress |
| TicketViews.DoneViewMembers | app/page.tsx:277-279 | a ticket shows in the done tab iff it is stored, matches and is done |
| TicketViews.ViewsPartitionSearch | app/page.tsx:273-279 | the tabs are disjoint and together show every matching ticket except Finalizado ones |
| Board.TicketBoard.constructor | app/page.tsx:20-36 | the page starts from the stored list with no snapshot |
| Board.TicketBoard.Sync | app/page.tsx:44-67 | the store becomes the sync result, sorted and one ticket per key, ids staying distinct; undo state unchanged |
| Board.TicketBoard.AddTicket | app/page.tsx:169-177 | the store gains the blank ticket with the next id and order position; undo state unchanged |
| Board.TicketBoard.DeleteTicket | app/page.tsx:160-166 | the store loses the tickets with the id; undo state unchanged |
| Board.TicketBoard.ReorderInProgress | app/page.tsx:282-293 | the store takes the list's order positions, ids in place; undo state unchanged |
| Board.TicketBoard.UpdateTicket | app/page.tsx:151-157 | the row edit replaces the tickets with its id, ids in place; undo state unchanged |
| Board.TicketBoard.ResetUndo | app/page.tsx:223-237 | snapshot, banner, countdown and both timers are off; the store is unchanged |
| Board.TicketBoard.ClearTable | app/page.tsx:181-204 | the whole store becomes the only snapshot, the store empties, the countdown reads 30 and both timers run |
| Board.TicketBoard.UndoClear | app/page.tsx:206-221 | no-op without a snapshot; otherwise the store becomes the snapshot followed by the current tickets whose id it lacks, ids stay distinct, and the undo state is reset |
| Board.TicketBoard.Tick | app/page.tsx:193-201 | the countdown drops by one above 1; at 1 or below the undo state is reset; the window invariant holds |
| Board.TicketBoard.Expire | app/page.tsx:203 | the timeout resets the undo state; the window invariant holds |

## Left out

- Persistence: `localStorage` reads and writes and JSON (de)serialisation are not modelled. The store is plain state, and the constructor takes the stored list as a parameter.
- The `window` message listener and its type-tag check are not modelled. `Board.TicketBoard.Sync` is the handler's updater, called with the payload.
- Timers: `setInterval`, `setTimeout` and their cancellation are the events `Tick` and `Expire` plus two flags that say whether each timer runs. Real time and interleaving are not modelled.
- `Date.now()` is the parameter `now`.
- The `reorder` helper that `handleDragEnd` calls is not part of this model. `DragEndRequest` returns its arguments, and its result reaches the store through `ReorderInProgress` as an arbitrary id list.
- `utils/formatClosedDate.ts` (wall clock, time zone, locale) and the reopen dialog in `components/ReopenTicketsDialog.tsx` are not part of this model. The dialog is not wired into the page.
- The tab switch, the `isSearching` flag and the rendering, hooks and table and drag libraries are left out as presentation.
- `Strings.Lower`: lower-cases ASCII letters only, not the full Unicode mapping of `toLowerCase`.
- Numbers are unbounded integers. Floating-point ids or counts, and `Math.max` over very long argument lists, are not modelled.
- `OtrsSync.Fresh`: the mapper leaves `note` undefined for a new ticket; the model uses the empty string.
- `IN_PROGRESS_STATUSES` and `DONE_STATUSES` come from `constants/ticketStatuses`, which is not part of this model (app/page.tsx:12-15). The page's done test (app/page.tsx:248-252), which fills the done tab, is taken to use the list of utils/ticketStatus.ts:3-7 (Encerrado, Movido, Desbloqueado); the in-progress list is taken to be Pendente, Em atendimento and Aguardando resposta, the working statuses of the shared type. `TicketViews.DoneView`, `TicketViews.DoneViewMembers` and `TicketViews.ViewsPartitionSearch` rest on these assumptions.
- `Seqs.SortBy`: a stable insertion sort; the contract states sortedness and permutation but not stability.
- `OtrsSync.LookupByTicketId`: its contract states that a hit carries the key; that the hit is the last such stored ticket is stated by `OtrsSync.LastMatch`.
- `OtrsSync.SyncKeepsLocalTicket` assumes no scraped id starts with "local-". Such a record would collide with a local key, and the model does not describe that collision.
- `StoreCommands.UndoKeepingNew`: a sync during the undo window can bring back a snapshot ticket, with its external id, under a freshly assigned id. The corrected undo keeps both copies, so one external id can then appear twice; the model does not settle which copy should win.

## Findings

| source | as written | input that shows it | evidently intended | confidence | as-written member | corrected member |
|---|---|---|---|---|---|---|
| app/page.tsx:212-213 | undo drops every ticket added after the clear whose id the snapshot uses | clear a store holding id 1, add a ticket (it gets id 1), undo: the added ticket is lost | keep every ticket created after the clear, as the comment at line 212 says | not executed; high for the input, medium for the intended renumbering | StoreCommands.UndoDropsTicketAddedAfterClear | StoreCommands.UndoKeepsTicketAddedAfterClear |
