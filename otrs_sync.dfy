/**
 * The external sync of app/page.tsx: `mapOtrsToTickets` turns a scraped batch
 * into tickets, and the message handler folds them into the store through a
 * `Map` keyed by external id (or by "local-<id>"), then sorts by `orderIndex`.
 */
module OtrsSync {
  import opened Wrappers
  import opened Strings
  import opened Seqs
  import opened TicketTypes
  import opened OtrsPriority

  // ---------------------------------------------------------------------
  // mapOtrsToTickets
  // ---------------------------------------------------------------------

  /**
   * The position `new Map(entries)` keeps for `key`: building a `Map` from the
   * entries in store order overwrites earlier entries, so the last stored
   * ticket carrying `key` wins; -1 when none carries it.
   */
  function LastMatch(current: seq<Ticket>, key: string): (r: int)
    ensures -1 <= r < |current|
    ensures r >= 0 ==> current[r].ticketId == key
    ensures forall j :: r < j < |current| ==> current[j].ticketId != key
    decreases |current|
  {
    if |current| == 0 then -1
    else if current[|current| - 1].ticketId == key then |current| - 1
    else
      var n := |current| - 1;
      var r := LastMatch(current[..n], key);
      assert forall j :: 0 <= j < n ==> current[..n][j] == current[j];
      r
  }

  /**
   * `ticketMap.get(key)` where `ticketMap` holds the stored tickets that have a
   * non-empty `ticketId`, keyed by it.
   */
  function LookupByTicketId(current: seq<Ticket>, key: string): (r: Option<Ticket>)
    ensures r.Some? ==> key != "" && r.value.ticketId == key && r.value in current
    ensures r.None? && key != "" ==> forall i :: 0 <= i < |current| ==> current[i].ticketId != key
  {
    if key == "" then None
    else
      var k := LastMatch(current, key);
      if k < 0 then None else Some(current[k])
  }

  /** An empty key, or one no stored ticket carries, finds nothing. */
  lemma LookupMisses(current: seq<Ticket>, key: string)
    requires key == "" || forall i :: 0 <= i < |current| ==> current[i].ticketId != key
    ensures LookupByTicketId(current, key).None?
  {
  }

  /** The first `orderIndex` handed out: one past the largest, 0 for an empty store. */
  function FirstOrderIndex(s: seq<Ticket>): (r: int)
    ensures forall i :: 0 <= i < |s| ==> s[i].orderIndex < r
    ensures |s| == 0 ==> r == 0
  {
    if |s| > 0 then MaxOrderIndex(s) + 1 else 0
  }

  /** On a non-empty store the first handed-out order position is one past an existing one. */
  lemma FirstOrderIndexFollowsMax(s: seq<Ticket>)
    requires |s| > 0
    ensures exists i :: 0 <= i < |s| && s[i].orderIndex == FirstOrderIndex(s) - 1
  {
    MaxOrderIndexAttained(s);
  }

  /** A matched record refreshes title, owner, priority, age and sync time of the stored ticket. */
  function Refreshed(existing: Ticket, otrs: OtrsTicket, now: int): Ticket {
    existing.(title := otrs.title, owner := otrs.owner,
              priority := ParseOtrsPriorityToTicket(otrs.priority), age := otrs.age, lastSync := now)
  }

  /** An unmatched record becomes a pending ticket with the given id and order position. */
  function Fresh(otrs: OtrsTicket, id: int, orderIndex: int, now: int): Ticket {
    Ticket(id, otrs.ticketId, otrs.title, otrs.owner, "", ParseOtrsPriorityToTicket(otrs.priority),
           Pendente, otrs.age, orderIndex, now)
  }

  /** The mapping with the two counters at `nextId` and `nextOrder`. */
  function MapFrom(records: seq<OtrsTicket>, current: seq<Ticket>, nextId: int, nextOrder: int, now: int): (r: seq<Ticket>)
    ensures |r| == |records|
    decreases |records|
  {
    if records == [] then []
    else
      match LookupByTicketId(current, records[0].ticketId)
      case Some(existing) =>
        [Refreshed(existing, records[0], now)] + MapFrom(records[1..], current, nextId, nextOrder, now)
      case None =>
        [Fresh(records[0], nextId, nextOrder, now)] + MapFrom(records[1..], current, nextId + 1, nextOrder + 1, now)
  }

  /**
   * What `mapOtrsToTickets(records, current)` returns: the mapping with both
   * counters at their first values, one past the store's maxima.
   */
  function MappedTickets(records: seq<OtrsTicket>, current: seq<Ticket>, now: int): seq<Ticket> {
    MapFrom(records, current, NextId(current), FirstOrderIndex(current), now)
  }

  lemma MapFromUnfold(records: seq<OtrsTicket>, current: seq<Ticket>, nextId: int, nextOrder: int, now: int, i: nat)
    requires i < |records|
    ensures LookupByTicketId(current, records[i].ticketId).Some? ==>
      MapFrom(records[i..], current, nextId, nextOrder, now)
        == [Refreshed(LookupByTicketId(current, records[i].ticketId).value, records[i], now)]
           + MapFrom(records[i + 1..], current, nextId, nextOrder, now)
    ensures LookupByTicketId(current, records[i].ticketId).None? ==>
      MapFrom(records[i..], current, nextId, nextOrder, now)
        == [Fresh(records[i], nextId, nextOrder, now)] + MapFrom(records[i + 1..], current, nextId + 1, nextOrder + 1, now)
  {
    assert records[i..][0] == records[i] && records[i..][1..] == records[i + 1..];
  }

  /** `mapOtrsToTickets`: one pass over the batch with the counters `nextId` and `nextOrder`. */
  method MapOtrsToTickets(records: seq<OtrsTicket>, current: seq<Ticket>, now: int) returns (mapped: seq<Ticket>)
    ensures |mapped| == |records|
    ensures mapped == MappedTickets(records, current, now)
  {
    var nextId := NextId(current);
    var nextOrder := FirstOrderIndex(current);
    ghost var full := MapFrom(records, current, nextId, nextOrder, now);
    mapped := [];
    var i := 0;
    while i < |records|
      invariant 0 <= i <= |records|
      invariant mapped + MapFrom(records[i..], current, nextId, nextOrder, now) == full
    {
      var otrs := records[i];
      var existing := LookupByTicketId(current, otrs.ticketId);
      MapFromUnfold(records, current, nextId, nextOrder, now, i);
      if existing.Some? {
        var ticket := Refreshed(existing.value, otrs, now);
        assert (mapped + [ticket]) + MapFrom(records[i + 1..], current, nextId, nextOrder, now)
            == mapped + ([ticket] + MapFrom(records[i + 1..], current, nextId, nextOrder, now));
        mapped := mapped + [ticket];
      } else {
        var ticket := Fresh(otrs, nextId, nextOrder, now);
        assert (mapped + [ticket]) + MapFrom(records[i + 1..], current, nextId + 1, nextOrder + 1, now)
            == mapped + ([ticket] + MapFrom(records[i + 1..], current, nextId + 1, nextOrder + 1, now));
        mapped := mapped + [ticket];
        nextId := nextId + 1;
        nextOrder := nextOrder + 1;
      }
      i := i + 1;
    }
    assert records[i..] == [];
  }

  /** How many of the first `i` records found no stored ticket (how far the counters have moved). */
  function UnmatchedCount(records: seq<OtrsTicket>, current: seq<Ticket>, i: nat): nat
    requires i <= |records|
    decreases i
  {
    if i == 0 then 0
    else (if LookupByTicketId(current, records[0].ticketId).None? then 1 else 0)
         + UnmatchedCount(records[1..], current, i - 1)
  }

  /**
   * How far the two counters have moved when record `i` is reached. Kept
   * non-recursive on top of `UnmatchedCount` so that the lemmas about the
   * mapping can mention it without the verifier unfolding the count.
   */
  function UnmatchedBefore(records: seq<OtrsTicket>, current: seq<Ticket>, i: nat): nat
    requires i <= |records|
  {
    UnmatchedCount(records, current, i)
  }

  lemma {:induction false} MapFromAt(records: seq<OtrsTicket>, current: seq<Ticket>, nextId: int, nextOrder: int, now: int, i: nat)
    requires i < |records|
    ensures LookupByTicketId(current, records[i].ticketId).Some? ==>
      MapFrom(records, current, nextId, nextOrder, now)[i]
        == Refreshed(LookupByTicketId(current, records[i].ticketId).value, records[i], now)
    ensures LookupByTicketId(current, records[i].ticketId).None? ==>
      MapFrom(records, current, nextId, nextOrder, now)[i]
        == Fresh(records[i], nextId + UnmatchedBefore(records, current, i),
                 nextOrder + UnmatchedBefore(records, current, i), now)
    decreases i
  {
    if i > 0 {
      var step := if LookupByTicketId(current, records[0].ticketId).None? then 1 else 0;
      assert records[1..][i - 1] == records[i];
      MapFromAt(records[1..], current, nextId + step, nextOrder + step, now, i - 1);
    }
  }

  /** The counter has moved strictly past an unmatched record by any later position. */
  lemma {:induction false} UnmatchedBeforeGrows(records: seq<OtrsTicket>, current: seq<Ticket>, i: nat, j: nat)
    requires i < j <= |records|
    ensures UnmatchedBefore(records, current, i) <= UnmatchedBefore(records, current, j)
    ensures LookupByTicketId(current, records[i].ticketId).None? ==>
      UnmatchedBefore(records, current, i) < UnmatchedBefore(records, current, j)
    decreases i
  {
    if i > 0 {
      assert records[1..][i - 1] == records[i];
      UnmatchedBeforeGrows(records[1..], current, i - 1, j - 1);
    } else {
      UnmatchedBeforeNonNegative(records[1..], current, j - 1);
    }
  }

  lemma UnmatchedBeforeNonNegative(records: seq<OtrsTicket>, current: seq<Ticket>, i: nat)
    requires i <= |records|
    ensures UnmatchedBefore(records, current, i) >= 0
  {
  }

  /**
   * `mapOtrsToTickets` returns one ticket per record, in record order, carrying
   * the record's external id, title, owner, translated priority and age.
   */
  lemma MappedTicketFields(records: seq<OtrsTicket>, current: seq<Ticket>, now: int, i: nat)
    requires i < |records|
    ensures |MappedTickets(records, current, now)| == |records|
    ensures var t := MappedTickets(records, current, now)[i];
      && t.ticketId == records[i].ticketId && t.title == records[i].title && t.owner == records[i].owner
      && t.priority == ParseOtrsPriorityToTicket(records[i].priority)
      && t.age == records[i].age && t.lastSync == now
  {
    var t := MappedTickets(records, current, now)[i];
    var found := LookupByTicketId(current, records[i].ticketId);
    MapFromAt(records, current, NextId(current), FirstOrderIndex(current), now, i);
    if found.Some? {
      assert t == Refreshed(found.value, records[i], now);
    } else {
      assert t == Fresh(records[i], NextId(current) + UnmatchedBefore(records, current, i),
                        FirstOrderIndex(current) + UnmatchedBefore(records, current, i), now);
    }
  }

  /**
   * A record whose `ticketId` matches a stored ticket keeps that ticket's id,
   * status, order position and note.
   */
  lemma MappedTicketMatched(records: seq<OtrsTicket>, current: seq<Ticket>, now: int, i: nat, e: Ticket)
    requires i < |records|
    requires LookupByTicketId(current, records[i].ticketId) == Some(e)
    ensures e in current && e.ticketId == records[i].ticketId
    ensures var t := MappedTickets(records, current, now)[i];
      t.id == e.id && t.status == e.status && t.orderIndex == e.orderIndex && t.note == e.note
  {
    MapFromAt(records, current, NextId(current), FirstOrderIndex(current), now, i);
  }

  /**
   * A record with no stored match becomes the fresh pending ticket whose id
   * and order position continue the two counters past the unmatched records
   * before it.
   */
  lemma MappedTicketUnmatched(records: seq<OtrsTicket>, current: seq<Ticket>, now: int, i: nat)
    requires i < |records|
    requires LookupByTicketId(current, records[i].ticketId).None?
    ensures MappedTickets(records, current, now)[i]
      == Fresh(records[i], NextId(current) + UnmatchedBefore(records, current, i),
               FirstOrderIndex(current) + UnmatchedBefore(records, current, i), now)
  {
    MapFromAt(records, current, NextId(current), FirstOrderIndex(current), now, i);
  }

  lemma FreshFields(otrs: OtrsTicket, id: int, orderIndex: int, now: int)
    ensures var f := Fresh(otrs, id, orderIndex, now);
      && f.id == id && f.orderIndex == orderIndex && f.ticketId == otrs.ticketId
      && f.status == Pendente && f.note == ""
  {
  }

  /** The fields an unmatched record's ticket receives, the two counters included. */
  lemma MappedTicketUnmatchedFields(records: seq<OtrsTicket>, current: seq<Ticket>, now: int, i: nat)
    requires i < |records|
    requires LookupByTicketId(current, records[i].ticketId).None?
    ensures var t := MappedTickets(records, current, now)[i];
      && t.id == NextId(current) + UnmatchedBefore(records, current, i)
      && t.orderIndex == FirstOrderIndex(current) + UnmatchedBefore(records, current, i)
      && t.ticketId == records[i].ticketId && t.status == Pendente && t.note == ""
  {
    MappedTicketUnmatched(records, current, now, i);
    var u := UnmatchedBefore(records, current, i);
    FreshFields(records[i], NextId(current) + u, FirstOrderIndex(current) + u, now);
  }

  /** An unmatched record becomes a pending, note-less ticket placed after every stored one. */
  lemma MappedTicketUnmatchedShape(records: seq<OtrsTicket>, current: seq<Ticket>, now: int, i: nat)
    requires i < |records|
    requires LookupByTicketId(current, records[i].ticketId).None?
    ensures var t := MappedTickets(records, current, now)[i];
      && t.ticketId == records[i].ticketId && t.status == Pendente && t.note == ""
      && forall k :: 0 <= k < |current| ==> current[k].id < t.id && current[k].orderIndex < t.orderIndex
  {
    MappedTicketUnmatchedFields(records, current, now, i);
    UnmatchedBeforeNonNegative(records, current, i);
  }

  /** An id taken from a stored ticket is below the next id. */
  lemma MappedTicketMatchedId(records: seq<OtrsTicket>, current: seq<Ticket>, now: int, j: nat)
    requires j < |records|
    requires LookupByTicketId(current, records[j].ticketId).Some?
    ensures MappedTickets(records, current, now)[j].id < NextId(current)
  {
    var e := LookupByTicketId(current, records[j].ticketId).value;
    MappedTicketMatched(records, current, now, j, e);
    var k :| 0 <= k < |current| && current[k] == e;
  }

  lemma FreshIdDiffers(records: seq<OtrsTicket>, current: seq<Ticket>, now: int, i: nat, j: nat)
    requires i < |records| && j < |records| && i != j
    requires LookupByTicketId(current, records[i].ticketId).None?
    ensures MappedTickets(records, current, now)[j].id != MappedTickets(records, current, now)[i].id
  {
    MappedTicketUnmatchedFields(records, current, now, i);
    UnmatchedBeforeNonNegative(records, current, i);
    if LookupByTicketId(current, records[j].ticketId).None? {
      MappedTicketUnmatchedFields(records, current, now, j);
      if j < i {
        UnmatchedBeforeGrows(records, current, j, i);
      } else {
        UnmatchedBeforeGrows(records, current, i, j);
      }
    } else {
      MappedTicketMatchedId(records, current, now, j);
    }
  }

  /**
   * Ids given to unmatched records are larger than every stored id and differ
   * from the id of every other mapped ticket.
   */
  lemma FreshIdsAreNew(records: seq<OtrsTicket>, current: seq<Ticket>, now: int, i: nat)
    requires i < |records|
    requires LookupByTicketId(current, records[i].ticketId).None?
    ensures forall k :: 0 <= k < |current| ==> current[k].id < MappedTickets(records, current, now)[i].id
    ensures forall j :: 0 <= j < |records| && j != i ==>
      MappedTickets(records, current, now)[j].id != MappedTickets(records, current, now)[i].id
  {
    MappedTicketUnmatchedFields(records, current, now, i);
    UnmatchedBeforeNonNegative(records, current, i);
    forall j | 0 <= j < |records| && j != i
      ensures MappedTickets(records, current, now)[j].id != MappedTickets(records, current, now)[i].id
    {
      FreshIdDiffers(records, current, now, i, j);
    }
  }

  // ---------------------------------------------------------------------
  // The merge in the message handler
  // ---------------------------------------------------------------------

  /** The merge key: the external id, or "local-<id>" for a ticket without one. */
  function KeyOf(t: Ticket): (r: string)
    ensures t.ticketId != "" ==> r == t.ticketId
    ensures t.ticketId == "" ==> r == "local-" + IntToString(t.id) && StartsWith(r, "local-")
  {
    if t.ticketId != "" then t.ticketId else "local-" + IntToString(t.id)
  }

  /**
   * A JavaScript `Map<string, Ticket>`: the entries, and the keys in first
   * insertion order (the order `Map.prototype.values` yields).
   */
  datatype TicketIndex = TicketIndex(keys: seq<string>, entries: map<string, Ticket>)
  {
    ghost predicate Valid() {
      && (forall i, j :: 0 <= i < j < |keys| ==> keys[i] != keys[j])
      && (forall k :: k in entries <==> k in keys)
    }

    /** `map.set(k, t)`: a new key goes to the end, an existing one keeps its place. */
    function Put(k: string, t: Ticket): (r: TicketIndex)
      requires Valid()
      ensures r.Valid()
      ensures r.entries == entries[k := t]
      ensures k in entries ==> r.keys == keys
      ensures k !in entries ==> r.keys == keys + [k]
    {
      if k in entries then TicketIndex(keys, entries[k := t])
      else TicketIndex(keys + [k], entries[k := t])
    }

    /** `Array.from(map.values())`. */
    function Values(): (r: seq<Ticket>)
      requires Valid()
      ensures |r| == |keys|
      ensures forall i :: 0 <= i < |keys| ==> keys[i] in entries && r[i] == entries[keys[i]]
    {
      seq(|keys|, i requires 0 <= i < |keys| => assert keys[i] in keys; entries[keys[i]])
    }
  }

  const EmptyIndex := TicketIndex([], map[])

  lemma EmptyIndexValid()
    ensures EmptyIndex.Valid() && EmptyIndex.entries == map[]
  {
  }

  /** The first loop: every stored ticket put under its key, in store order. */
  function Fill(m: TicketIndex, s: seq<Ticket>): (r: TicketIndex)
    requires m.Valid()
    ensures r.Valid()
    decreases |s|
  {
    if s == [] then m else Fill(m.Put(KeyOf(s[0]), s[0]), s[1..])
  }

  /** The value stored for an incoming ticket: the stored one (or the incoming one), with fresh age and sync time. */
  function Stamped(base: Ticket, incoming: Ticket, now: int): (r: Ticket)
    ensures r.age == incoming.age && r.lastSync == now
  {
    base.(age := incoming.age, lastSync := now)
  }

  /** One iteration of the second loop. */
  function MergeStep(m: TicketIndex, incoming: Ticket, now: int): (r: TicketIndex)
    requires m.Valid()
    ensures r.Valid()
  {
    var key := KeyOf(incoming);
    var existing := if key in m.entries then Some(m.entries[key]) else None;
    m.Put(key, Stamped(existing.GetOr(incoming), incoming, now))
  }

  /** The second loop: every mapped ticket merged in, in batch order. */
  function Fold(m: TicketIndex, s: seq<Ticket>, now: int): (r: TicketIndex)
    requires m.Valid()
    ensures r.Valid()
    decreases |s|
  {
    if s == [] then m else Fold(MergeStep(m, s[0], now), s[1..], now)
  }

  /** The index after both loops. */
  function MergedIndex(prev: seq<Ticket>, mapped: seq<Ticket>, now: int): (r: TicketIndex)
    ensures r.Valid()
  {
    EmptyIndexValid();
    Fold(Fill(EmptyIndex, prev), mapped, now)
  }

  /** The merged store: the index's values sorted by `orderIndex`. */
  function Merged(prev: seq<Ticket>, mapped: seq<Ticket>, now: int): seq<Ticket> {
    SortBy(MergedIndex(prev, mapped, now).Values(), OrderIndexOf)
  }

  /** The store after a sync message carrying `records`. */
  function SyncResult(prev: seq<Ticket>, records: seq<OtrsTicket>, now: int): seq<Ticket> {
    Merged(prev, MappedTickets(records, prev, now), now)
  }

  /** The merge as the handler writes it: two loops over a map, then a sort. */
  method SyncMerge(prev: seq<Ticket>, mapped: seq<Ticket>, now: int) returns (merged: seq<Ticket>)
    ensures merged == Merged(prev, mapped, now)
    ensures SortedBy(merged, OrderIndexOf)
  {
    EmptyIndexValid();
    var prevMap := EmptyIndex;
    for i := 0 to |prev|
      invariant prevMap.Valid()
      invariant Fill(prevMap, prev[i..]) == Fill(EmptyIndex, prev)
    {
      assert prev[i..][0] == prev[i] && prev[i..][1..] == prev[i + 1..];
      var ticket := prev[i];
      prevMap := prevMap.Put(KeyOf(ticket), ticket);
    }
    assert prev[|prev|..] == [];
    for j := 0 to |mapped|
      invariant prevMap.Valid()
      invariant Fold(prevMap, mapped[j..], now) == MergedIndex(prev, mapped, now)
    {
      assert mapped[j..][0] == mapped[j] && mapped[j..][1..] == mapped[j + 1..];
      var incoming := mapped[j];
      var key := KeyOf(incoming);
      var existing := if key in prevMap.entries then Some(prevMap.entries[key]) else None;
      prevMap := prevMap.Put(key, Stamped(existing.GetOr(incoming), incoming, now));
    }
    assert mapped[|mapped|..] == [];
    merged := SortBy(prevMap.Values(), OrderIndexOf);
  }

  // ---------------------------------------------------------------------
  // Facts about the two loops
  // ---------------------------------------------------------------------

  /** `a` is `b` with at most its age and sync time replaced. */
  predicate SameExceptSync(a: Ticket, b: Ticket) {
    a == b.(age := a.age, lastSync := a.lastSync)
  }

  /** Every entry sits under its own key. */
  ghost predicate KeysConsistent(m: TicketIndex) {
    forall k :: k in m.entries ==> KeyOf(m.entries[k]) == k
  }

  /** Every entry is one of the tickets of `src`. */
  ghost predicate ValuesIn(m: TicketIndex, src: seq<Ticket>) {
    forall k :: k in m.entries ==> m.entries[k] in src
  }

  /** Entries under different keys have different ids. */
  ghost predicate IdsDistinct(m: TicketIndex) {
    forall k1, k2 :: k1 in m.entries && k2 in m.entries && k1 != k2 ==> m.entries[k1].id != m.entries[k2].id
  }

  lemma {:induction false} FillConsistent(m: TicketIndex, s: seq<Ticket>, src: seq<Ticket>)
    requires m.Valid() && KeysConsistent(m) && ValuesIn(m, src)
    requires forall i :: 0 <= i < |s| ==> s[i] in src
    ensures KeysConsistent(Fill(m, s)) && ValuesIn(Fill(m, s), src)
    decreases |s|
  {
    if s != [] {
      var next := m.Put(KeyOf(s[0]), s[0]);
      assert Fill(m, s) == Fill(next, s[1..]);
      FillConsistent(next, s[1..], src);
    }
  }

  lemma {:induction false} FillCovers(m: TicketIndex, s: seq<Ticket>)
    requires m.Valid()
    ensures forall k :: k in m.entries ==> k in Fill(m, s).entries
    ensures forall i :: 0 <= i < |s| ==> KeyOf(s[i]) in Fill(m, s).entries
    decreases |s|
  {
    if s != [] {
      var next := m.Put(KeyOf(s[0]), s[0]);
      assert Fill(m, s) == Fill(next, s[1..]);
      FillCovers(next, s[1..]);
      forall i | 0 <= i < |s| ensures KeyOf(s[i]) in Fill(m, s).entries {
        if i > 0 {
          assert s[i] == s[1..][i - 1];
        }
      }
    }
  }

  /** The first loop keeps keys consistent, draws values from the store and covers every stored key. */
  lemma FillFacts(m: TicketIndex, s: seq<Ticket>, src: seq<Ticket>)
    requires m.Valid() && KeysConsistent(m) && ValuesIn(m, src)
    requires forall i :: 0 <= i < |s| ==> s[i] in src
    ensures KeysConsistent(Fill(m, s)) && ValuesIn(Fill(m, s), src)
    ensures forall k :: k in m.entries ==> k in Fill(m, s).entries
    ensures forall i :: 0 <= i < |s| ==> KeyOf(s[i]) in Fill(m, s).entries
  {
    FillConsistent(m, s, src);
    FillCovers(m, s);
  }

  lemma {:induction false} FillUntouched(m: TicketIndex, s: seq<Ticket>, k: string)
    requires m.Valid() && k in m.entries
    requires forall i :: 0 <= i < |s| ==> KeyOf(s[i]) != k
    ensures k in Fill(m, s).entries && Fill(m, s).entries[k] == m.entries[k]
    decreases |s|
  {
    if s != [] {
      var next := m.Put(KeyOf(s[0]), s[0]);
      assert Fill(m, s) == Fill(next, s[1..]);
      FillUntouched(next, s[1..], k);
    }
  }

  /** The last stored ticket with a given key is the one the first loop keeps. */
  lemma {:induction false} FillLast(m: TicketIndex, s: seq<Ticket>, i: nat)
    requires m.Valid() && i < |s|
    requires forall j :: i < j < |s| ==> KeyOf(s[j]) != KeyOf(s[i])
    ensures KeyOf(s[i]) in Fill(m, s).entries && Fill(m, s).entries[KeyOf(s[i])] == s[i]
    decreases |s|
  {
    var next := m.Put(KeyOf(s[0]), s[0]);
    assert Fill(m, s) == Fill(next, s[1..]);
    if i == 0 {
      FillUntouched(next, s[1..], KeyOf(s[0]));
    } else {
      assert s[1..][i - 1] == s[i];
      FillLast(next, s[1..], i - 1);
    }
  }

  lemma {:induction false} FoldConsistent(m: TicketIndex, xs: seq<Ticket>, now: int)
    requires m.Valid() && KeysConsistent(m)
    ensures KeysConsistent(Fold(m, xs, now))
    decreases |xs|
  {
    if xs != [] {
      var next := MergeStep(m, xs[0], now);
      assert Fold(m, xs, now) == Fold(next, xs[1..], now);
      FoldConsistent(next, xs[1..], now);
    }
  }

  lemma {:induction false} FoldCovers(m: TicketIndex, xs: seq<Ticket>, now: int)
    requires m.Valid()
    ensures forall k :: k in m.entries ==> k in Fold(m, xs, now).entries
    ensures forall i :: 0 <= i < |xs| ==> KeyOf(xs[i]) in Fold(m, xs, now).entries
    decreases |xs|
  {
    if xs != [] {
      var next := MergeStep(m, xs[0], now);
      assert Fold(m, xs, now) == Fold(next, xs[1..], now);
      FoldCovers(next, xs[1..], now);
      forall i | 0 <= i < |xs| ensures KeyOf(xs[i]) in Fold(m, xs, now).entries {
        if i > 0 {
          assert xs[i] == xs[1..][i - 1];
        }
      }
    }
  }

  /** The second loop keeps keys consistent and loses no key. */
  lemma FoldFacts(m: TicketIndex, xs: seq<Ticket>, now: int)
    requires m.Valid() && KeysConsistent(m)
    ensures KeysConsistent(Fold(m, xs, now))
    ensures forall k :: k in m.entries ==> k in Fold(m, xs, now).entries
    ensures forall i :: 0 <= i < |xs| ==> KeyOf(xs[i]) in Fold(m, xs, now).entries
  {
    FoldConsistent(m, xs, now);
    FoldCovers(m, xs, now);
  }

  /** A stored entry survives the second loop, changed at most in age and sync time. */
  lemma {:induction false} FoldKeeps(m: TicketIndex, xs: seq<Ticket>, now: int, k: string)
    requires m.Valid() && k in m.entries
    ensures k in Fold(m, xs, now).entries && SameExceptSync(Fold(m, xs, now).entries[k], m.entries[k])
    decreases |xs|
  {
    if xs != [] {
      var next := MergeStep(m, xs[0], now);
      assert Fold(m, xs, now) == Fold(next, xs[1..], now);
      assert SameExceptSync(next.entries[k], m.entries[k]);
      FoldKeeps(next, xs[1..], now, k);
    }
  }

  lemma {:induction false} FoldUntouched(m: TicketIndex, xs: seq<Ticket>, now: int, k: string)
    requires m.Valid() && k in m.entries
    requires forall i :: 0 <= i < |xs| ==> KeyOf(xs[i]) != k
    ensures k in Fold(m, xs, now).entries && Fold(m, xs, now).entries[k] == m.entries[k]
    decreases |xs|
  {
    if xs != [] {
      var next := MergeStep(m, xs[0], now);
      assert Fold(m, xs, now) == Fold(next, xs[1..], now);
      FoldUntouched(next, xs[1..], now, k);
    }
  }

  /** The last incoming ticket with a given key sets that entry's age and sync time. */
  lemma {:induction false} FoldStamps(m: TicketIndex, xs: seq<Ticket>, now: int, i: nat)
    requires m.Valid() && i < |xs|
    requires forall j :: i < j < |xs| ==> KeyOf(xs[j]) != KeyOf(xs[i])
    ensures KeyOf(xs[i]) in Fold(m, xs, now).entries
    ensures Fold(m, xs, now).entries[KeyOf(xs[i])].age == xs[i].age
    ensures Fold(m, xs, now).entries[KeyOf(xs[i])].lastSync == now
    decreases |xs|
  {
    var next := MergeStep(m, xs[0], now);
    assert Fold(m, xs, now) == Fold(next, xs[1..], now);
    if i == 0 {
      FoldUntouched(next, xs[1..], now, KeyOf(xs[0]));
    } else {
      assert xs[1..][i - 1] == xs[i];
      FoldStamps(next, xs[1..], now, i - 1);
    }
  }

  /** The first incoming ticket under a key the store lacks is the one inserted. */
  lemma {:induction false} FoldInserts(m: TicketIndex, xs: seq<Ticket>, now: int, i: nat)
    requires m.Valid() && i < |xs|
    requires KeyOf(xs[i]) !in m.entries
    requires forall j :: 0 <= j < i ==> KeyOf(xs[j]) != KeyOf(xs[i])
    ensures KeyOf(xs[i]) in Fold(m, xs, now).entries
    ensures SameExceptSync(Fold(m, xs, now).entries[KeyOf(xs[i])], xs[i])
    decreases |xs|
  {
    var next := MergeStep(m, xs[0], now);
    assert Fold(m, xs, now) == Fold(next, xs[1..], now);
    if i == 0 {
      FoldKeeps(next, xs[1..], now, KeyOf(xs[0]));
    } else {
      assert xs[1..][i - 1] == xs[i];
      FoldInserts(next, xs[1..], now, i - 1);
    }
  }

  /** Incoming tickets whose key is new carry ids no entry and no other incoming ticket has. */
  ghost predicate NewIdsFresh(m: TicketIndex, xs: seq<Ticket>) {
    forall j :: 0 <= j < |xs| && KeyOf(xs[j]) !in m.entries ==>
      && (forall k :: k in m.entries ==> m.entries[k].id != xs[j].id)
      && (forall l :: 0 <= l < |xs| && l != j ==> xs[l].id != xs[j].id)
  }

  lemma {:induction false} FoldIdsDistinct(m: TicketIndex, xs: seq<Ticket>, now: int)
    requires m.Valid() && IdsDistinct(m) && NewIdsFresh(m, xs)
    ensures IdsDistinct(Fold(m, xs, now))
    decreases |xs|
  {
    if xs != [] {
      var next := MergeStep(m, xs[0], now);
      var key := KeyOf(xs[0]);
      assert Fold(m, xs, now) == Fold(next, xs[1..], now);
      var v := next.entries[key];
      assert v.id == if key in m.entries then m.entries[key].id else xs[0].id;
      assert IdsDistinct(next);
      forall j | 0 <= j < |xs[1..]| && KeyOf(xs[1..][j]) !in next.entries
        ensures forall k :: k in next.entries ==> next.entries[k].id != xs[1..][j].id
        ensures forall l :: 0 <= l < |xs[1..]| && l != j ==> xs[1..][l].id != xs[1..][j].id
      {
        assert xs[1..][j] == xs[j + 1];
        assert KeyOf(xs[j + 1]) !in m.entries;
        forall l | 0 <= l < |xs[1..]| && l != j ensures xs[1..][l].id != xs[1..][j].id {
          assert xs[1..][l] == xs[l + 1];
        }
      }
      assert NewIdsFresh(next, xs[1..]);
      FoldIdsDistinct(next, xs[1..], now);
    }
  }

  /** Every entry of a valid index is among its values. */
  lemma IndexValuesMember(m: TicketIndex, k: string)
    requires m.Valid() && k in m.entries
    ensures m.entries[k] in m.Values()
  {
    assert k in m.keys;
    var i :| 0 <= i < |m.keys| && m.keys[i] == k;
    assert m.Values()[i] == m.entries[k];
  }

  /** The values of a consistent index hold each key once, and each id once when ids are distinct. */
  lemma IndexValuesDistinct(m: TicketIndex)
    requires m.Valid() && KeysConsistent(m)
    ensures DistinctBy(m.Values(), KeyOf)
    ensures IdsDistinct(m) ==> UniqueIds(m.Values())
  {
    var vs := m.Values();
    forall i, j | 0 <= i < j < |vs| ensures KeyOf(vs[i]) != KeyOf(vs[j]) {
      assert KeyOf(vs[i]) == m.keys[i] && KeyOf(vs[j]) == m.keys[j];
    }
    if IdsDistinct(m) {
      forall i, j | 0 <= i < j < |vs| ensures IdOf(vs[i]) != IdOf(vs[j]) {
        assert m.keys[i] != m.keys[j];
      }
    }
  }

  // ---------------------------------------------------------------------
  // What a sync does to the store
  // ---------------------------------------------------------------------

  lemma MergedHas(prev: seq<Ticket>, mapped: seq<Ticket>, now: int, k: string)
    requires k in MergedIndex(prev, mapped, now).entries
    ensures MergedIndex(prev, mapped, now).entries[k] in Merged(prev, mapped, now)
  {
    var m := MergedIndex(prev, mapped, now);
    IndexValuesMember(m, k);
    var i :| 0 <= i < |m.Values()| && m.Values()[i] == m.entries[k];
    SortByMembership(m.Values(), OrderIndexOf);
  }

  /** The merged store is ordered by `orderIndex` and holds no merge key twice. */
  lemma MergedShape(prev: seq<Ticket>, mapped: seq<Ticket>, now: int)
    ensures SortedBy(Merged(prev, mapped, now), OrderIndexOf)
    ensures DistinctBy(Merged(prev, mapped, now), KeyOf)
  {
    EmptyIndexValid();
    FillFacts(EmptyIndex, prev, prev);
    FoldFacts(Fill(EmptyIndex, prev), mapped, now);
    IndexValuesDistinct(MergedIndex(prev, mapped, now));
    SortByDistinct(MergedIndex(prev, mapped, now).Values(), OrderIndexOf, KeyOf);
  }

  /**
   * A merge never drops a stored ticket (the last one under its key) and never
   * changes anything of it except its age and sync time: status, note, title,
   * owner, priority and order position all stay. A stored ticket no incoming
   * ticket shares a key with comes through untouched.
   */
  lemma MergeKeepsStoredTicket(prev: seq<Ticket>, mapped: seq<Ticket>, now: int, i: nat)
    requires i < |prev|
    requires forall j :: i < j < |prev| ==> KeyOf(prev[j]) != KeyOf(prev[i])
    ensures exists t :: t in Merged(prev, mapped, now) && SameExceptSync(t, prev[i])
    ensures (forall j :: 0 <= j < |mapped| ==> KeyOf(mapped[j]) != KeyOf(prev[i])) ==>
              prev[i] in Merged(prev, mapped, now)
  {
    EmptyIndexValid();
    var filled := Fill(EmptyIndex, prev);
    var key := KeyOf(prev[i]);
    FillLast(EmptyIndex, prev, i);
    FoldKeeps(filled, mapped, now, key);
    MergedHas(prev, mapped, now, key);
    var t := MergedIndex(prev, mapped, now).entries[key];
    assert t in Merged(prev, mapped, now) && SameExceptSync(t, prev[i]);
    if forall j :: 0 <= j < |mapped| ==> KeyOf(mapped[j]) != key {
      FoldUntouched(filled, mapped, now, key);
    }
  }

  /**
   * A sync never changes the status of a stored ticket (so a done ticket is
   * not reopened), nor its id or external id.
   */
  lemma SyncKeepsStatus(prev: seq<Ticket>, records: seq<OtrsTicket>, now: int, i: nat)
    requires i < |prev|
    requires forall j :: i < j < |prev| ==> KeyOf(prev[j]) != KeyOf(prev[i])
    ensures exists t :: && t in SyncResult(prev, records, now)
                        && t.id == prev[i].id && t.ticketId == prev[i].ticketId && t.status == prev[i].status
  {
    MergeKeepsStoredTicket(prev, MappedTickets(records, prev, now), now, i);
  }

  lemma LocalKeyInjective(a: int, b: int)
    requires "local-" + IntToString(a) == "local-" + IntToString(b)
    ensures a == b
  {
    assert ("local-" + IntToString(a))[6..] == IntToString(a);
    assert ("local-" + IntToString(b))[6..] == IntToString(b);
    IntToStringInjective(a, b);
  }

  /** The merge key of a mapped ticket: the record's id, or a local key past every stored id. */
  lemma MappedKey(records: seq<OtrsTicket>, prev: seq<Ticket>, now: int, j: nat)
    requires j < |records|
    ensures |MappedTickets(records, prev, now)| == |records|
    ensures records[j].ticketId != "" ==> KeyOf(MappedTickets(records, prev, now)[j]) == records[j].ticketId
    ensures records[j].ticketId == "" ==>
      var t := MappedTickets(records, prev, now)[j];
      && KeyOf(t) == "local-" + IntToString(t.id)
      && forall k :: 0 <= k < |prev| ==> prev[k].id < t.id
  {
    MappedTicketFields(records, prev, now, j);
    if records[j].ticketId == "" {
      LookupMisses(prev, "");
      MappedTicketUnmatched(records, prev, now, j);
    }
  }

  /**
   * A local ticket (no external id) survives a sync unchanged, as long as no
   * scraped id itself looks like a local key.
   */
  lemma SyncKeepsLocalTicket(prev: seq<Ticket>, records: seq<OtrsTicket>, now: int, i: nat)
    requires i < |prev| && prev[i].ticketId == ""
    requires forall j :: i < j < |prev| ==> KeyOf(prev[j]) != KeyOf(prev[i])
    requires forall j :: 0 <= j < |records| ==> !StartsWith(records[j].ticketId, "local-")
    ensures prev[i] in SyncResult(prev, records, now)
  {
    var mapped := MappedTickets(records, prev, now);
    assert |mapped| == |records|;
    forall j | 0 <= j < |mapped| ensures KeyOf(mapped[j]) != KeyOf(prev[i]) {
      MappedKey(records, prev, now, j);
      if records[j].ticketId == "" {
        if KeyOf(mapped[j]) == KeyOf(prev[i]) {
          LocalKeyInjective(mapped[j].id, prev[i].id);
        }
      }
    }
    MergeKeepsStoredTicket(prev, mapped, now, i);
  }

  /**
   * A scraped ticket the store does not know appears after the sync as a
   * pending ticket with an empty note, an id above every stored id and an
   * order position after every stored one.
   */
  lemma SyncAddsNewTicket(prev: seq<Ticket>, records: seq<OtrsTicket>, now: int, i: nat)
    requires i < |records|
    requires records[i].ticketId != "" && !StartsWith(records[i].ticketId, "local-")
    requires forall k :: 0 <= k < |prev| ==> prev[k].ticketId != records[i].ticketId
    ensures exists t :: && t in SyncResult(prev, records, now)
                        && t.ticketId == records[i].ticketId && t.status == Pendente && t.note == ""
                        && forall k :: 0 <= k < |prev| ==> prev[k].id < t.id && prev[k].orderIndex < t.orderIndex
  {
    var x := records[i].ticketId;
    var mapped := MappedTickets(records, prev, now);
    var ids := seq(|records|, j requires 0 <= j < |records| => records[j].ticketId);
    assert ids[i] == x;
    var first := IndexOf(ids, x);
    assert records[first].ticketId == x;
    MappedKey(records, prev, now, first);
    LookupMisses(prev, x);
    MappedTicketUnmatchedShape(records, prev, now, first);
    EmptyIndexValid();
    var filled := Fill(EmptyIndex, prev);
    FillFacts(EmptyIndex, prev, prev);
    assert x !in filled.entries;
    forall j | 0 <= j < first ensures KeyOf(mapped[j]) != x {
      assert ids[j] != x;
      MappedKey(records, prev, now, j);
    }
    FoldInserts(filled, mapped, now, first);
    MergedHas(prev, mapped, now, x);
    var t := MergedIndex(prev, mapped, now).entries[x];
    assert t in SyncResult(prev, records, now);
  }

  /**
   * After a sync, the ticket carrying a scraped id shows the age of the last
   * record with that id and the sync time.
   */
  lemma SyncRefreshesAge(prev: seq<Ticket>, records: seq<OtrsTicket>, now: int, i: nat)
    requires i < |records|
    requires records[i].ticketId != "" && !StartsWith(records[i].ticketId, "local-")
    requires forall j :: i < j < |records| ==> records[j].ticketId != records[i].ticketId
    ensures exists t :: && t in SyncResult(prev, records, now)
                        && t.ticketId == records[i].ticketId && t.age == records[i].age && t.lastSync == now
  {
    var x := records[i].ticketId;
    var mapped := MappedTickets(records, prev, now);
    MappedKey(records, prev, now, i);
    MappedTicketFields(records, prev, now, i);
    forall j | i < j < |mapped| ensures KeyOf(mapped[j]) != KeyOf(mapped[i]) {
      MappedKey(records, prev, now, j);
    }
    EmptyIndexValid();
    var filled := Fill(EmptyIndex, prev);
    FillFacts(EmptyIndex, prev, prev);
    FoldFacts(filled, mapped, now);
    FoldStamps(filled, mapped, now, i);
    MergedHas(prev, mapped, now, x);
    var t := MergedIndex(prev, mapped, now).entries[x];
    assert KeyOf(t) == x;
    assert t in SyncResult(prev, records, now);
  }

  /** A store whose ids are distinct keeps distinct ids through a sync. */
  lemma SyncPreservesUniqueIds(prev: seq<Ticket>, records: seq<OtrsTicket>, now: int)
    requires UniqueIds(prev)
    ensures UniqueIds(SyncResult(prev, records, now))
  {
    var mapped := MappedTickets(records, prev, now);
    EmptyIndexValid();
    var filled := Fill(EmptyIndex, prev);
    FillFacts(EmptyIndex, prev, prev);
    forall k1, k2 | k1 in filled.entries && k2 in filled.entries && k1 != k2
      ensures filled.entries[k1].id != filled.entries[k2].id
    {
      var a :| 0 <= a < |prev| && prev[a] == filled.entries[k1];
      var b :| 0 <= b < |prev| && prev[b] == filled.entries[k2];
      assert a != b;
      if a < b { assert IdOf(prev[a]) != IdOf(prev[b]); } else { assert IdOf(prev[b]) != IdOf(prev[a]); }
    }
    assert IdsDistinct(filled);
    forall j | 0 <= j < |mapped| && KeyOf(mapped[j]) !in filled.entries
      ensures forall k :: k in filled.entries ==> filled.entries[k].id != mapped[j].id
      ensures forall l :: 0 <= l < |mapped| && l != j ==> mapped[l].id != mapped[j].id
    {
      MappedTicketFields(records, prev, now, j);
      assert LookupByTicketId(prev, records[j].ticketId).None?;
      FreshIdsAreNew(records, prev, now, j);
      forall k | k in filled.entries ensures filled.entries[k].id != mapped[j].id {
        var a :| 0 <= a < |prev| && prev[a] == filled.entries[k];
      }
    }
    assert NewIdsFresh(filled, mapped);
    FoldIdsDistinct(filled, mapped, now);
    FoldFacts(filled, mapped, now);
    IndexValuesDistinct(MergedIndex(prev, mapped, now));
    SortByDistinct(MergedIndex(prev, mapped, now).Values(), OrderIndexOf, IdOf);
  }

  // ---------------------------------------------------------------------
  // Where every merged ticket comes from
  // ---------------------------------------------------------------------

  /** Every entry is a ticket of `src` with at most its age and sync time replaced. */
  ghost predicate SourcedFrom(m: TicketIndex, src: seq<Ticket>) {
    forall k :: k in m.entries ==> exists u :: u in src && SameExceptSync(m.entries[k], u)
  }

  lemma MergeStepSourced(m: TicketIndex, x: Ticket, now: int, src: seq<Ticket>)
    requires m.Valid() && SourcedFrom(m, src) && x in src
    ensures SourcedFrom(MergeStep(m, x, now), src)
  {
  }

  lemma {:induction false} FoldSourced(m: TicketIndex, xs: seq<Ticket>, now: int, src: seq<Ticket>)
    requires m.Valid() && SourcedFrom(m, src)
    requires forall i :: 0 <= i < |xs| ==> xs[i] in src
    ensures SourcedFrom(Fold(m, xs, now), src)
    decreases |xs|
  {
    if xs != [] {
      MergeStepSourced(m, xs[0], now, src);
      FoldSourced(MergeStep(m, xs[0], now), xs[1..], now, src);
    }
  }

  /** The merge invents no ticket: each merged ticket is a stored or an incoming one, restamped. */
  lemma MergedFrom(prev: seq<Ticket>, mapped: seq<Ticket>, now: int, t: Ticket)
    requires t in Merged(prev, mapped, now)
    ensures exists u :: u in prev + mapped && SameExceptSync(t, u)
  {
    EmptyIndexValid();
    var src := prev + mapped;
    var filled := Fill(EmptyIndex, prev);
    FillConsistent(EmptyIndex, prev, src);
    forall k | k in filled.entries ensures exists u :: u in src && SameExceptSync(filled.entries[k], u) {
      assert SameExceptSync(filled.entries[k], filled.entries[k]);
    }
    FoldSourced(filled, mapped, now, src);
    var m := MergedIndex(prev, mapped, now);
    var vals := m.Values();
    SortByMembership(vals, OrderIndexOf);
    var i :| 0 <= i < |vals| && vals[i] == t;
    assert m.keys[i] in m.entries && t == m.entries[m.keys[i]];
  }

  /**
   * Every ticket in the store after a sync is a stored ticket or the mapping of
   * a scraped record, with at most its age and sync time replaced.
   */
  lemma SyncResultFrom(prev: seq<Ticket>, records: seq<OtrsTicket>, now: int, t: Ticket)
    requires t in SyncResult(prev, records, now)
    ensures || (exists u :: u in prev && SameExceptSync(t, u))
            || (exists j :: 0 <= j < |records| && SameExceptSync(t, MappedTickets(records, prev, now)[j]))
  {
    var mapped := MappedTickets(records, prev, now);
    MergedFrom(prev, mapped, now, t);
    var u :| u in prev + mapped && SameExceptSync(t, u);
    if u !in prev {
      var j :| 0 <= j < |mapped| && mapped[j] == u;
    }
  }

  // ---------------------------------------------------------------------
  // Syncing the same batch twice
  // ---------------------------------------------------------------------

  /** The merge keys of a ticket list, in order. */
  function Keys(s: seq<Ticket>): (r: seq<string>)
    ensures |r| == |s| && forall i :: 0 <= i < |s| ==> r[i] == KeyOf(s[i])
  {
    seq(|s|, i requires 0 <= i < |s| => KeyOf(s[i]))
  }

  lemma KeysCons(s: seq<Ticket>)
    requires s != []
    ensures Keys(s) == [KeyOf(s[0])] + Keys(s[1..])
  {
  }

  /** One step of the first loop keeps the premises of `FillDistinctKeys` for the rest of the list. */
  lemma FillDistinctStep(m: TicketIndex, s: seq<Ticket>)
    requires m.Valid() && DistinctBy(s, KeyOf) && s != []
    requires forall i :: 0 <= i < |s| ==> KeyOf(s[i]) !in m.entries
    ensures m.Put(KeyOf(s[0]), s[0]).keys == m.keys + [KeyOf(s[0])]
    ensures DistinctBy(s[1..], KeyOf)
    ensures forall i :: 0 <= i < |s[1..]| ==> KeyOf(s[1..][i]) !in m.Put(KeyOf(s[0]), s[0]).entries
  {
  }

  /** The first loop over tickets with distinct keys new to the map appends those keys in order. */
  lemma {:induction false} FillDistinctKeys(m: TicketIndex, s: seq<Ticket>)
    requires m.Valid() && DistinctBy(s, KeyOf)
    requires forall i :: 0 <= i < |s| ==> KeyOf(s[i]) !in m.entries
    ensures Fill(m, s).keys == m.keys + Keys(s)
    decreases |s|
  {
    if s == [] {
      assert Keys(s) == [];
    } else {
      var m' := m.Put(KeyOf(s[0]), s[0]);
      assert Fill(m, s) == Fill(m', s[1..]);
      FillDistinctStep(m, s);
      FillDistinctKeys(m', s[1..]);
      KeysCons(s);
      assert m.keys + Keys(s) == (m.keys + [KeyOf(s[0])]) + Keys(s[1..]);
    }
  }

  /** The second loop adds no key when every incoming key is already in the map. */
  lemma {:induction false} FoldPresentKeys(m: TicketIndex, xs: seq<Ticket>, now: int)
    requires m.Valid()
    requires forall i :: 0 <= i < |xs| ==> KeyOf(xs[i]) in m.entries
    ensures Fold(m, xs, now).keys == m.keys
    decreases |xs|
  {
    if xs != [] {
      var m' := MergeStep(m, xs[0], now);
      forall i | 0 <= i < |xs[1..]| ensures KeyOf(xs[1..][i]) in m'.entries {
        assert xs[1..][i] == xs[i + 1];
      }
      FoldPresentKeys(m', xs[1..], now);
    }
  }

  /** A merged ticket is the entry stored under its own key. */
  lemma MergedEntryOf(prev: seq<Ticket>, mapped: seq<Ticket>, now: int, t: Ticket)
    requires t in Merged(prev, mapped, now)
    ensures KeyOf(t) in MergedIndex(prev, mapped, now).entries
    ensures MergedIndex(prev, mapped, now).entries[KeyOf(t)] == t
  {
    EmptyIndexValid();
    FillConsistent(EmptyIndex, prev, prev);
    FoldConsistent(Fill(EmptyIndex, prev), mapped, now);
    var m := MergedIndex(prev, mapped, now);
    assert KeysConsistent(m);
    var vals := m.Values();
    SortByMembership(vals, OrderIndexOf);
    var k :| 0 <= k < |vals| && vals[k] == t;
    assert m.keys[k] in m.entries && t == m.entries[m.keys[k]];
  }

  /** Every incoming ticket's key is the key of some merged ticket. */
  lemma MergedCoversBatch(prev: seq<Ticket>, mapped: seq<Ticket>, now: int, j: nat)
    requires j < |mapped|
    ensures exists t :: t in Merged(prev, mapped, now) && KeyOf(t) == KeyOf(mapped[j])
  {
    EmptyIndexValid();
    FillFacts(EmptyIndex, prev, prev);
    FoldFacts(Fill(EmptyIndex, prev), mapped, now);
    MergedHas(prev, mapped, now, KeyOf(mapped[j]));
  }

  /** A record with an external id maps to a ticket keyed, and carrying its age, by that record. */
  lemma BatchTicket(records: seq<OtrsTicket>, prev: seq<Ticket>, now: int, j: nat)
    requires j < |records| && records[j].ticketId != ""
    ensures |MappedTickets(records, prev, now)| == |records|
    ensures var t := MappedTickets(records, prev, now)[j];
      && t.ticketId == records[j].ticketId && KeyOf(t) == records[j].ticketId && t.age == records[j].age
  {
    MappedTicketFields(records, prev, now, j);
  }

  /**
   * Folding a second batch with the same keys and ages into a map whose entry
   * under `key` already came out of folding the first batch changes that entry
   * in its sync time at most.
   */
  lemma RefoldEntry(filled1: TicketIndex, mapped1: seq<Ticket>, n1: int,
                    filled2: TicketIndex, mapped2: seq<Ticket>, n2: int, key: string)
    requires filled1.Valid() && filled2.Valid() && |mapped1| == |mapped2|
    requires forall j :: 0 <= j < |mapped2| ==>
      && KeyOf(mapped1[j]) == KeyOf(mapped2[j]) == mapped2[j].ticketId
      && mapped1[j].age == mapped2[j].age
    requires key in filled2.entries && key in Fold(filled1, mapped1, n1).entries
    requires filled2.entries[key] == Fold(filled1, mapped1, n1).entries[key]
    ensures key in Fold(filled2, mapped2, n2).entries
    ensures var t := Fold(filled2, mapped2, n2).entries[key];
      t == filled2.entries[key].(lastSync := t.lastSync)
  {
    var j := LastMatch(mapped2, key);
    if j >= 0 {
      FoldKeeps(filled2, mapped2, n2, key);
      FoldStamps(filled2, mapped2, n2, j);
      FoldStamps(filled1, mapped1, n1, j);
    } else {
      FoldUntouched(filled2, mapped2, n2, key);
    }
  }

  /** After the second sync, each ticket of the first result sits under its key, changed at most in sync time. */
  lemma ResyncEntry(p: seq<Ticket>, rs: seq<OtrsTicket>, n1: int, n2: int, i: nat)
    requires forall j :: 0 <= j < |rs| ==> rs[j].ticketId != ""
    requires i < |SyncResult(p, rs, n1)|
    ensures var r1 := SyncResult(p, rs, n1);
      var m2 := MergedIndex(r1, MappedTickets(rs, r1, n2), n2);
      && KeyOf(r1[i]) in m2.entries
      && m2.entries[KeyOf(r1[i])] == r1[i].(lastSync := m2.entries[KeyOf(r1[i])].lastSync)
  {
    var mapped1 := MappedTickets(rs, p, n1);
    var r1 := Merged(p, mapped1, n1);
    var mapped2 := MappedTickets(rs, r1, n2);
    MergedShape(p, mapped1, n1);
    EmptyIndexValid();
    FillLast(EmptyIndex, r1, i);
    MergedEntryOf(p, mapped1, n1, r1[i]);
    forall j | 0 <= j < |rs|
      ensures KeyOf(mapped1[j]) == KeyOf(mapped2[j]) == mapped2[j].ticketId && mapped1[j].age == mapped2[j].age
    {
      BatchTicket(rs, p, n1, j);
      BatchTicket(rs, r1, n2, j);
    }
    RefoldEntry(Fill(EmptyIndex, p), mapped1, n1, Fill(EmptyIndex, r1), mapped2, n2, KeyOf(r1[i]));
  }

  /** Every record of the batch is already keyed in the first sync's result. */
  lemma ResyncBatchPresent(p: seq<Ticket>, rs: seq<OtrsTicket>, n1: int, n2: int, j: nat)
    requires forall j :: 0 <= j < |rs| ==> rs[j].ticketId != ""
    requires j < |rs|
    ensures var r1 := SyncResult(p, rs, n1);
      KeyOf(MappedTickets(rs, r1, n2)[j]) in Fill(EmptyIndex, r1).entries
  {
    var mapped1 := MappedTickets(rs, p, n1);
    var r1 := Merged(p, mapped1, n1);
    EmptyIndexValid();
    FillCovers(EmptyIndex, r1);
    BatchTicket(rs, p, n1, j);
    BatchTicket(rs, r1, n2, j);
    MergedCoversBatch(p, mapped1, n1, j);
    var t :| t in r1 && KeyOf(t) == KeyOf(mapped1[j]);
    var i :| 0 <= i < |r1| && r1[i] == t;
  }

  /** The second sync adds no key: its map holds the first result's keys, in order. */
  lemma ResyncKeys(p: seq<Ticket>, rs: seq<OtrsTicket>, n1: int, n2: int)
    requires forall j :: 0 <= j < |rs| ==> rs[j].ticketId != ""
    ensures var r1 := SyncResult(p, rs, n1);
      MergedIndex(r1, MappedTickets(rs, r1, n2), n2).keys == Keys(r1)
  {
    var r1 := SyncResult(p, rs, n1);
    var mapped2 := MappedTickets(rs, r1, n2);
    MergedShape(p, MappedTickets(rs, p, n1), n1);
    EmptyIndexValid();
    FillDistinctKeys(EmptyIndex, r1);
    forall j | 0 <= j < |mapped2| ensures KeyOf(mapped2[j]) in Fill(EmptyIndex, r1).entries {
      ResyncBatchPresent(p, rs, n1, n2, j);
    }
    FoldPresentKeys(Fill(EmptyIndex, r1), mapped2, n2);
  }

  /**
   * Syncing the same batch a second time changes nothing but sync times, when
   * every record carries an external id.
   */
  lemma SyncTwiceOnlyRestamps(p: seq<Ticket>, rs: seq<OtrsTicket>, n1: int, n2: int)
    requires forall j :: 0 <= j < |rs| ==> rs[j].ticketId != ""
    ensures var r1 := SyncResult(p, rs, n1);
      var r2 := SyncResult(r1, rs, n2);
      && |r2| == |r1|
      && forall i :: 0 <= i < |r1| ==> r2[i] == r1[i].(lastSync := r2[i].lastSync)
  {
    var r1 := SyncResult(p, rs, n1);
    var m2 := MergedIndex(r1, MappedTickets(rs, r1, n2), n2);
    var vals := m2.Values();
    MergedShape(p, MappedTickets(rs, p, n1), n1);
    ResyncKeys(p, rs, n1, n2);
    forall i | 0 <= i < |r1| ensures vals[i] == r1[i].(lastSync := vals[i].lastSync) {
      ResyncEntry(p, rs, n1, n2, i);
    }
    forall a, b | 0 <= a < b < |vals| ensures OrderIndexOf(vals[a]) <= OrderIndexOf(vals[b]) {
      assert OrderIndexOf(r1[a]) <= OrderIndexOf(r1[b]);
    }
    SortBySorted(vals, OrderIndexOf);
  }

  /** A record without an external id synced into an empty store becomes ticket 1. */
  lemma SyncUnkeyedIntoEmpty(r: OtrsTicket, now: int)
    requires r.ticketId == ""
    ensures SyncResult([], [r], now) == [Fresh(r, 1, 0, now)]
  {
    EmptyIndexValid();
    var t := Fresh(r, 1, 0, now);
    assert MappedTickets([r], [], now) == [t];
    assert Fill(EmptyIndex, []) == EmptyIndex;
    var m := MergeStep(EmptyIndex, t, now);
    assert Fold(EmptyIndex, [t], now) == Fold(m, [], now) == m;
    assert m.Values() == [t];
  }

  /** The same record synced into a store holding only that unkeyed ticket is added again, as ticket 2. */
  lemma ResyncUnkeyedAddsTicket(r: OtrsTicket, u: Ticket, now: int)
    requires r.ticketId == "" && u.ticketId == "" && u.id == 1
    ensures |SyncResult([u], [r], now)| == 2
  {
    EmptyIndexValid();
    var t := Fresh(r, 2, FirstOrderIndex([u]), now);
    assert NextId([u]) == 2;
    assert MappedTickets([r], [u], now) == [t];
    if IntToString(1) == IntToString(2) {
      IntToStringInjective(1, 2);
    }
    var filled := EmptyIndex.Put(KeyOf(u), u);
    assert Fill(EmptyIndex, [u]) == Fill(filled, []) == filled;
    var m := MergeStep(filled, t, now);
    assert Fold(filled, [t], now) == Fold(m, [], now) == m;
    assert m.keys == [KeyOf(u), KeyOf(t)];
    SortByMembership(m.Values(), OrderIndexOf);
  }

  /**
   * Without an external id the same record is not recognised again: syncing a
   * one-record batch twice into an empty store leaves two tickets, under the
   * keys "local-1" and "local-2".
   */
  lemma ResyncDuplicatesUnkeyedRecord(r: OtrsTicket, n1: int, n2: int)
    requires r.ticketId == ""
    ensures |SyncResult([], [r], n1)| == 1
    ensures |SyncResult(SyncResult([], [r], n1), [r], n2)| == 2
  {
    SyncUnkeyedIntoEmpty(r, n1);
    ResyncUnkeyedAddsTicket(r, Fresh(r, 1, 0, n1), n2);
  }
}
