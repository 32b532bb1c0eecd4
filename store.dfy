/**
 * The store commands of app/page.tsx that rebuild the ticket list: adding a
 * blank ticket, deleting by id, applying a drag order, and the merge that
 * undoing a clear performs.
 */
module StoreCommands {
  import opened Wrappers
  import opened Seqs
  import opened TicketTypes
  import opened TicketStatus
  import opened TicketSorting

  /** The page's own `createEmptyTicket(id, orderIndex)`: a blank pending ticket whose age label reads "0 min". */
  function BlankTicket(id: int, orderIndex: int, now: int): (t: Ticket)
    ensures t.id == id && t.orderIndex == orderIndex && t.lastSync == now
    ensures t.status == Pendente && IsInProgressStatus(t.status) && !IsDoneStatus(t.status)
    ensures t.priority == Baixa
    ensures t.ticketId == "" && t.title == "" && t.owner == "" && t.note == ""
    ensures AgeToMinutes(Some(t.age)) == 0
  {
    ParseAgeZeroExample();
    Ticket(id, "", "", "", "", Baixa, Pendente, "0 min", orderIndex, now)
  }

  /** `maxOrder + 1` in `handleAddTicket`, where `maxOrder` defaults to 0 on an empty store. */
  function AddOrderIndex(s: seq<Ticket>): (r: int)
    ensures forall i :: 0 <= i < |s| ==> s[i].orderIndex < r
    ensures |s| == 0 ==> r == 1
  {
    (if |s| > 0 then MaxOrderIndex(s) else 0) + 1
  }

  /** On a non-empty store the added ticket's order position is one past an existing one. */
  lemma AddOrderIndexFollowsMax(s: seq<Ticket>)
    requires |s| > 0
    ensures exists i :: 0 <= i < |s| && s[i].orderIndex == AddOrderIndex(s) - 1
  {
    MaxOrderIndexAttained(s);
  }

  /** The store after `handleAddTicket`. */
  function WithNewTicket(s: seq<Ticket>, now: int): (r: seq<Ticket>)
    ensures |r| == |s| + 1 && r[..|s|] == s
    ensures forall i :: 0 <= i < |s| ==> s[i].id < r[|s|].id && s[i].orderIndex < r[|s|].orderIndex
    ensures |s| == 0 ==> r[0].id == 1 && r[0].orderIndex == 1
    ensures r[|s|] == BlankTicket(NextId(s), AddOrderIndex(s), now)
  {
    s + [BlankTicket(NextId(s), AddOrderIndex(s), now)]
  }

  /** Adding a ticket keeps the store's ids distinct. */
  lemma AddKeepsUniqueIds(s: seq<Ticket>, now: int)
    requires UniqueIds(s)
    ensures UniqueIds(WithNewTicket(s, now))
  {
    var r := WithNewTicket(s, now);
    forall i, j | 0 <= i < j < |r| ensures IdOf(r[i]) != IdOf(r[j]) {
      if j < |s| {
        assert r[i] == s[i] && r[j] == s[j];
      } else {
        assert r[i] == s[i];
      }
    }
  }

  function IdIsNot(id: int): Ticket -> bool {
    (t: Ticket) => t.id != id
  }

  /** The store after `handleDeleteTicket(id)`. */
  function WithoutId(s: seq<Ticket>, id: int): (r: seq<Ticket>)
    ensures forall i :: 0 <= i < |r| ==> r[i].id != id && r[i] in s
    ensures forall i :: 0 <= i < |s| && s[i].id != id ==> s[i] in r
  {
    Filter(s, IdIsNot(id))
  }

  /** Deleting keeps the surviving tickets in their order: it works piecewise on any split of the store. */
  lemma DeleteKeepsOrder(a: seq<Ticket>, b: seq<Ticket>, id: int)
    ensures WithoutId(a + b, id) == WithoutId(a, id) + WithoutId(b, id)
  {
    FilterConcat(a, b, IdIsNot(id));
  }

  /** Deleting an id no ticket has changes nothing. */
  lemma DeleteAbsentId(s: seq<Ticket>, id: int)
    requires forall i :: 0 <= i < |s| ==> s[i].id != id
    ensures WithoutId(s, id) == s
  {
    FilterAll(s, IdIsNot(id));
  }

  /** Deleting keeps the store's ids distinct. */
  lemma DeleteKeepsUniqueIds(s: seq<Ticket>, id: int)
    requires UniqueIds(s)
    ensures UniqueIds(WithoutId(s, id))
  {
    FilterDistinctBy(s, IdIsNot(id), IdOf);
  }

  /**
   * The store after `handleReorderInProgress(orderedIds)`: a listed ticket's
   * `orderIndex` becomes the first position of its id in the list; nothing
   * else about any ticket changes, nor the store's length and order.
   */
  function Reordered(s: seq<Ticket>, orderedIds: seq<int>): (r: seq<Ticket>)
    ensures |r| == |s|
    ensures forall i :: 0 <= i < |s| ==> r[i] == s[i].(orderIndex := r[i].orderIndex)
    ensures forall i :: 0 <= i < |s| && s[i].id in orderedIds ==>
      && 0 <= r[i].orderIndex < |orderedIds| && orderedIds[r[i].orderIndex] == s[i].id
      && forall j :: 0 <= j < r[i].orderIndex ==> orderedIds[j] != s[i].id
    ensures forall i :: 0 <= i < |s| && s[i].id !in orderedIds ==> r[i] == s[i]
  {
    seq(|s|, i requires 0 <= i < |s| =>
      var index := IndexOf(orderedIds, s[i].id);
      if index != -1 then s[i].(orderIndex := index) else s[i])
  }

  /** Reordering keeps every id in place, so distinct ids stay distinct. */
  lemma ReorderKeepsIds(s: seq<Ticket>, orderedIds: seq<int>)
    ensures Ids(Reordered(s, orderedIds)) == Ids(s)
    ensures UniqueIds(s) ==> UniqueIds(Reordered(s, orderedIds))
  {
    var r := Reordered(s, orderedIds);
    assert forall i :: 0 <= i < |s| ==> r[i].id == s[i].id;
    SameIdsSameUniqueness(r, s);
  }

  /** A listed ticket's new order position is the first place of its id in the list, so the list order becomes the table order. */
  lemma ReorderFollowsList(s: seq<Ticket>, orderedIds: seq<int>, i: nat, j: nat, p: nat, q: nat)
    requires i < |s| && j < |s| && s[i].id != s[j].id
    requires p < q < |orderedIds| && orderedIds[p] == s[i].id && orderedIds[q] == s[j].id
    requires forall k :: 0 <= k < p ==> orderedIds[k] != s[i].id
    requires forall k :: 0 <= k < q ==> orderedIds[k] != s[j].id
    ensures Reordered(s, orderedIds)[i].orderIndex == p
    ensures Reordered(s, orderedIds)[j].orderIndex == q
  {
    var r := Reordered(s, orderedIds);
    assert s[i].id in orderedIds && s[j].id in orderedIds;
  }

  /** The ids of a ticket list, as a set (`new Set(cleared.map(t => t.id))`). */
  function IdSet(s: seq<Ticket>): (r: set<int>)
    ensures forall id :: id in r <==> exists i :: 0 <= i < |s| && s[i].id == id
  {
    set i | 0 <= i < |s| :: s[i].id
  }

  function IdNotIn(ids: set<int>): Ticket -> bool {
    (t: Ticket) => t.id !in ids
  }

  /**
   * The store after undoing a clear: the snapshot, followed by the current
   * tickets whose id the snapshot does not use.
   */
  function UndoMerge(snapshot: seq<Ticket>, current: seq<Ticket>): (r: seq<Ticket>)
    ensures |snapshot| <= |r| && r[..|snapshot|] == snapshot
    ensures forall i :: 0 <= i < |current| ==>
      (current[i] in r[|snapshot|..] <==> forall k :: 0 <= k < |snapshot| ==> snapshot[k].id != current[i].id)
    ensures forall i :: |snapshot| <= i < |r| ==> r[i] in current
    ensures r[|snapshot|..] == Filter(current, IdNotIn(IdSet(snapshot)))
  {
    var rest := Filter(current, IdNotIn(IdSet(snapshot)));
    assert (snapshot + rest)[|snapshot|..] == rest;
    snapshot + rest
  }

  /** Undo keeps ids distinct when the snapshot and the current store each had distinct ids. */
  lemma UndoKeepsUniqueIds(snapshot: seq<Ticket>, current: seq<Ticket>)
    requires UniqueIds(snapshot) && UniqueIds(current)
    ensures UniqueIds(UndoMerge(snapshot, current))
  {
    var ids := IdSet(snapshot);
    var rest := Filter(current, IdNotIn(ids));
    FilterDistinctBy(current, IdNotIn(ids), IdOf);
    var r := UndoMerge(snapshot, current);
    assert r == snapshot + rest;
    forall i, j | 0 <= i < j < |r| ensures IdOf(r[i]) != IdOf(r[j]) {
      if j < |snapshot| {
        assert r[i] == snapshot[i] && r[j] == snapshot[j];
      } else if i < |snapshot| {
        assert r[i] == snapshot[i] && r[j] == rest[j - |snapshot|];
        assert r[i].id in ids;
      } else {
        assert r[i] == rest[i - |snapshot|] && r[j] == rest[j - |snapshot|];
      }
    }
  }

  /**
   * Undo with nothing added since the clear restores the snapshot exactly.
   */
  lemma UndoAfterClearRestores(snapshot: seq<Ticket>)
    ensures UndoMerge(snapshot, []) == snapshot
  {
  }

  /**
   * A ticket added to the emptied store gets id 1, so when the snapshot holds
   * a ticket with id 1 the undo drops the added ticket.
   */
  lemma UndoDropsTicketAddedAfterClear(snapshot: seq<Ticket>, now: int)
    requires exists k :: 0 <= k < |snapshot| && snapshot[k].id == 1
    ensures WithNewTicket([], now)[0].id == 1
    ensures UndoMerge(snapshot, WithNewTicket([], now)) == snapshot
  {
  }

  // ---------------------------------------------------------------------
  // Undo that keeps the tickets created after the clear
  // ---------------------------------------------------------------------

  /** An id above every id of the snapshot and of the current store. */
  function FreeIdBase(snapshot: seq<Ticket>, current: seq<Ticket>): (r: int)
    ensures forall i :: 0 <= i < |snapshot| ==> snapshot[i].id < r
    ensures forall i :: 0 <= i < |current| ==> current[i].id < r
  {
    if NextId(snapshot) < NextId(current) then NextId(current) else NextId(snapshot)
  }

  /**
   * The undo the comment on handleUndoClear describes: the snapshot, followed
   * by every current ticket in order; a current ticket whose id the snapshot
   * already uses is kept under a new id above both lists.
   */
  function UndoKeepingNew(snapshot: seq<Ticket>, current: seq<Ticket>): (r: seq<Ticket>)
    ensures |r| == |snapshot| + |current| && r[..|snapshot|] == snapshot
    ensures forall i :: 0 <= i < |current| ==> r[|snapshot|..][i] == current[i].(id := r[|snapshot|..][i].id)
    ensures forall i :: 0 <= i < |current| && current[i].id !in IdSet(snapshot) ==> r[|snapshot|..][i] == current[i]
    ensures forall i, k :: 0 <= i < |current| && 0 <= k < |snapshot| ==> r[|snapshot|..][i].id != snapshot[k].id
  {
    var base := FreeIdBase(snapshot, current);
    var taken := IdSet(snapshot);
    var rest := seq(|current|, i requires 0 <= i < |current| =>
      if current[i].id in taken then current[i].(id := base + i) else current[i]);
    assert (snapshot + rest)[|snapshot|..] == rest;
    snapshot + rest
  }

  /** The corrected undo keeps ids distinct when the snapshot and the current store each had distinct ids. */
  lemma UndoKeepingNewKeepsUniqueIds(snapshot: seq<Ticket>, current: seq<Ticket>)
    requires UniqueIds(snapshot) && UniqueIds(current)
    ensures UniqueIds(UndoKeepingNew(snapshot, current))
  {
  }

  /** With nothing added since the clear, the corrected undo restores the snapshot exactly. */
  lemma UndoKeepingNewRestores(snapshot: seq<Ticket>)
    ensures UndoKeepingNew(snapshot, []) == snapshot
  {
  }

  /**
   * The ticket added to the emptied store survives the corrected undo with
   * all its fields, even when its id 1 collides with the snapshot.
   */
  lemma UndoKeepsTicketAddedAfterClear(snapshot: seq<Ticket>, now: int)
    ensures var added := WithNewTicket([], now)[0];
      var r := UndoKeepingNew(snapshot, [added]);
      && r[..|snapshot|] == snapshot
      && r[|snapshot|] == added.(id := r[|snapshot|].id)
      && forall k :: 0 <= k < |snapshot| ==> r[|snapshot|].id != snapshot[k].id
  {
  }
}
