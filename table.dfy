/** components/TicketTable.tsx: editing a row in place and turning a drop into a reorder request. */
module TicketTableOps {
  import opened Wrappers
  import opened Seqs
  import opened TicketTypes

  /**
   * `handleUpdateTicket(updated)` applied through `mergeTickets`: every ticket
   * with `updated`'s id is replaced by `updated`; every other ticket, and the
   * list's length and order, stay as they were.
   */
  function ReplaceById(s: seq<Ticket>, updated: Ticket): (r: seq<Ticket>)
    ensures |r| == |s|
    ensures forall i :: 0 <= i < |s| ==> r[i] == if s[i].id == updated.id then updated else s[i]
  {
    seq(|s|, i requires 0 <= i < |s| => if s[i].id == updated.id then updated else s[i])
  }

  /** When no ticket has the edited id the list is unchanged. */
  lemma ReplaceAbsentIsIdentity(s: seq<Ticket>, updated: Ticket)
    requires forall i :: 0 <= i < |s| ==> s[i].id != updated.id
    ensures ReplaceById(s, updated) == s
  {
  }

  /** Editing never changes which ids sit where, so distinct ids stay distinct. */
  lemma ReplaceKeepsIds(s: seq<Ticket>, updated: Ticket)
    ensures Ids(ReplaceById(s, updated)) == Ids(s)
    ensures UniqueIds(s) ==> UniqueIds(ReplaceById(s, updated))
  {
    var r := ReplaceById(s, updated);
    assert forall i :: 0 <= i < |s| ==> r[i].id == s[i].id;
    SameIdsSameUniqueness(r, s);
  }

  /** Applying the same edit twice is the same as applying it once. */
  lemma ReplaceIdempotent(s: seq<Ticket>, updated: Ticket)
    ensures ReplaceById(ReplaceById(s, updated), updated) == ReplaceById(s, updated)
  {
  }

  /** The later of two edits to the same ticket wins. */
  lemma ReplaceLastEditWins(s: seq<Ticket>, first: Ticket, second: Ticket)
    requires first.id == second.id
    ensures ReplaceById(ReplaceById(s, first), second) == ReplaceById(s, second)
  {
  }

  /** `data.findIndex(t => t.id === id)`. */
  function FindIndexById(data: seq<Ticket>, id: int): (r: int)
    ensures -1 <= r < |data|
    ensures r == -1 <==> forall i :: 0 <= i < |data| ==> data[i].id != id
    ensures r >= 0 ==> data[r].id == id && forall i :: 0 <= i < r ==> data[i].id != id
  {
    var ids := Ids(data);
    assert forall i :: 0 <= i < |data| ==> ids[i] == data[i].id;
    IndexOf(ids, id)
  }

  /** The arguments `handleDragEnd` hands to `reorder`: the id list, and the positions dragged from and dropped on. */
  datatype ReorderRequest = ReorderRequest(ids: seq<int>, from: int, to: int)

  /**
   * `handleDragEnd`: no request when there is no drop target or the row is
   * dropped on itself; otherwise the visible ids with the positions of the
   * dragged and target rows (-1 for an id not in the list).
   */
  function DragEndRequest(data: seq<Ticket>, active: int, over: Option<int>): (r: Option<ReorderRequest>)
    ensures r.None? <==> over.None? || over.value == active
    ensures r.Some? ==> && r.value.ids == Ids(data)
                        && r.value.from == FindIndexById(data, active)
                        && r.value.to == FindIndexById(data, over.value)
                        && (r.value.from == r.value.to ==> r.value.from == -1)
  {
    match over
    case None => None
    case Some(target) =>
      if active == target then None
      else Some(ReorderRequest(Ids(data), FindIndexById(data, active), FindIndexById(data, target)))
  }
}
