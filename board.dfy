/**
 * The page's state as an object: the ticket store and the clear/undo
 * machinery (snapshot, banner flag, countdown and the two timers), with one
 * method per handler. The countdown interval and the 30-second timeout are
 * explicit events: `Tick` and `Expire`.
 */
module Board {
  import opened Wrappers
  import opened Seqs
  import opened TicketTypes
  import opened OtrsSync
  import opened StoreCommands
  import opened TicketTableOps

  /** The countdown shown in the undo banner starts here. */
  const UndoWindowSeconds := 30

  class TicketBoard {
    var tickets: seq<Ticket>
    var clearedTickets: Option<seq<Ticket>>
    var undoVisible: bool
    var undoSeconds: Option<int>
    var intervalActive: bool
    var timeoutActive: bool

    /**
     * While a snapshot is held the banner shows, the countdown is within
     * 1..30 and both timers run; with no snapshot all of that is off.
     */
    ghost predicate Valid()
      reads this
    {
      match clearedTickets
      case Some(_) =>
        undoVisible && undoSeconds.Some? && 1 <= undoSeconds.value <= UndoWindowSeconds
        && intervalActive && timeoutActive
      case None =>
        !undoVisible && undoSeconds.None? && !intervalActive && !timeoutActive
    }

    /** The page starts from the stored list, with no snapshot. */
    constructor(stored: seq<Ticket>)
      ensures Valid()
      ensures tickets == stored && clearedTickets.None?
    {
      tickets := stored;
      clearedTickets := None;
      undoVisible := false;
      undoSeconds := None;
      intervalActive := false;
      timeoutActive := false;
    }

    /** A sync message with the scraped `records`, received at time `now`. */
    method Sync(records: seq<OtrsTicket>, now: int)
      modifies this
      ensures tickets == SyncResult(old(tickets), records, now)
      ensures SortedBy(tickets, OrderIndexOf) && DistinctBy(tickets, KeyOf)
      ensures UniqueIds(old(tickets)) ==> UniqueIds(tickets)
      ensures clearedTickets == old(clearedTickets) && undoVisible == old(undoVisible)
      ensures undoSeconds == old(undoSeconds)
      ensures intervalActive == old(intervalActive) && timeoutActive == old(timeoutActive)
    {
      var mapped := MapOtrsToTickets(records, tickets, now);
      var merged := SyncMerge(tickets, mapped, now);
      MergedShape(tickets, mapped, now);
      if UniqueIds(tickets) {
        SyncPreservesUniqueIds(tickets, records, now);
      }
      tickets := merged;
    }

    /** `handleAddTicket`: append a blank ticket with the next id and an order position after every other. */
    method AddTicket(now: int)
      modifies this
      ensures tickets == WithNewTicket(old(tickets), now)
      ensures UniqueIds(old(tickets)) ==> UniqueIds(tickets)
      ensures clearedTickets == old(clearedTickets) && undoVisible == old(undoVisible)
      ensures undoSeconds == old(undoSeconds)
      ensures intervalActive == old(intervalActive) && timeoutActive == old(timeoutActive)
    {
      var nextId := if |tickets| > 0 then MaxId(tickets) + 1 else 1;
      var maxOrder := if |tickets| > 0 then MaxOrderIndex(tickets) else 0;
      assert nextId == NextId(tickets) && maxOrder + 1 == AddOrderIndex(tickets);
      if UniqueIds(tickets) {
        AddKeepsUniqueIds(tickets, now);
      }
      tickets := tickets + [BlankTicket(nextId, maxOrder + 1, now)];
    }

    /** `handleDeleteTicket(id)`. */
    method DeleteTicket(id: int)
      modifies this
      ensures tickets == WithoutId(old(tickets), id)
      ensures UniqueIds(old(tickets)) ==> UniqueIds(tickets)
      ensures clearedTickets == old(clearedTickets) && undoVisible == old(undoVisible)
      ensures undoSeconds == old(undoSeconds)
      ensures intervalActive == old(intervalActive) && timeoutActive == old(timeoutActive)
    {
      if UniqueIds(tickets) {
        DeleteKeepsUniqueIds(tickets, id);
      }
      tickets := WithoutId(tickets, id);
    }

    /** `handleReorderInProgress(orderedIds)`. */
    method ReorderInProgress(orderedIds: seq<int>)
      modifies this
      ensures tickets == Reordered(old(tickets), orderedIds)
      ensures Ids(tickets) == Ids(old(tickets))
      ensures clearedTickets == old(clearedTickets) && undoVisible == old(undoVisible)
      ensures undoSeconds == old(undoSeconds)
      ensures intervalActive == old(intervalActive) && timeoutActive == old(timeoutActive)
    {
      ReorderKeepsIds(tickets, orderedIds);
      tickets := Reordered(tickets, orderedIds);
    }

    /** A row edit from the table, applied through `mergeTickets`. */
    method UpdateTicket(updated: Ticket)
      modifies this
      ensures tickets == ReplaceById(old(tickets), updated)
      ensures Ids(tickets) == Ids(old(tickets))
      ensures clearedTickets == old(clearedTickets) && undoVisible == old(undoVisible)
      ensures undoSeconds == old(undoSeconds)
      ensures intervalActive == old(intervalActive) && timeoutActive == old(timeoutActive)
    {
      ReplaceKeepsIds(tickets, updated);
      tickets := ReplaceById(tickets, updated);
    }

    /** `resetUndo`: stop both timers and drop the snapshot, the banner and the countdown. */
    method ResetUndo()
      modifies this
      ensures Valid() && clearedTickets.None?
      ensures tickets == old(tickets)
    {
      intervalActive := false;
      timeoutActive := false;
      undoVisible := false;
      undoSeconds := None;
      clearedTickets := None;
    }

    /** `handleClearTable`: the whole store becomes the only snapshot and the store empties. */
    method ClearTable()
      modifies this
      ensures Valid()
      ensures clearedTickets == Some(old(tickets)) && tickets == []
      ensures undoVisible && undoSeconds == Some(UndoWindowSeconds)
    {
      ResetUndo();
      clearedTickets := Some(tickets);
      undoVisible := true;
      undoSeconds := Some(UndoWindowSeconds);
      tickets := [];
      intervalActive := true;
      timeoutActive := true;
    }

    /**
     * `handleUndoClear`: with no snapshot nothing happens; otherwise the store
     * becomes the snapshot followed by the tickets added since whose ids the
     * snapshot does not use, and the undo state is reset.
     */
    method UndoClear()
      requires Valid()
      modifies this
      ensures Valid() && clearedTickets.None?
      ensures old(clearedTickets).None? ==> tickets == old(tickets)
      ensures old(clearedTickets).Some? ==> tickets == UndoMerge(old(clearedTickets).value, old(tickets))
      ensures (old(clearedTickets).Some? && UniqueIds(old(clearedTickets).value) && UniqueIds(old(tickets)))
        ==> UniqueIds(tickets)
    {
      if clearedTickets.None? {
        return;
      }
      var snapshot := clearedTickets.value;
      if UniqueIds(snapshot) && UniqueIds(tickets) {
        UndoKeepsUniqueIds(snapshot, tickets);
      }
      tickets := UndoMerge(snapshot, tickets);
      ResetUndo();
    }

    /** One beat of the countdown interval: count down, or reset the undo state at 1 or below. */
    method Tick()
      requires Valid()
      modifies this
      ensures Valid()
      ensures tickets == old(tickets)
      ensures !old(intervalActive) ==> clearedTickets == old(clearedTickets) && undoSeconds == old(undoSeconds)
      ensures old(intervalActive) && old(undoSeconds).Some? && old(undoSeconds).value > 1 ==>
        undoSeconds == Some(old(undoSeconds).value - 1) && clearedTickets == old(clearedTickets)
      ensures old(intervalActive) && (old(undoSeconds).None? || old(undoSeconds).value <= 1) ==>
        clearedTickets.None? && undoSeconds.None?
    {
      if !intervalActive {
        return;
      }
      if undoSeconds.None? || undoSeconds.value <= 1 {
        ResetUndo();
      } else {
        undoSeconds := Some(undoSeconds.value - 1);
      }
    }

    /** The 30-second timeout fires: the undo state is reset. */
    method Expire()
      requires Valid()
      modifies this
      ensures Valid()
      ensures tickets == old(tickets)
      ensures old(timeoutActive) ==> clearedTickets.None? && undoSeconds.None?
      ensures !old(timeoutActive) ==> clearedTickets == old(clearedTickets) && undoSeconds == old(undoSeconds)
    {
      if timeoutActive {
        ResetUndo();
      }
    }
  }
}
