/** utils/createEmptyTicket.ts: the blank ticket of the shared type, whose age is a minute count. */
module EmptyTicket {
  import opened TicketTypes
  import opened TicketStatus
  import opened AgeLabel

  /** The shape utils/createEmptyTicket.ts returns (numeric `age`, no order or sync fields). */
  datatype DraftTicket = DraftTicket(
    id: int,
    ticketId: string,
    priority: Priority,
    title: string,
    age: int,
    owner: string,
    status: Status,
    note: string)

  /** `createEmptyTicket(id)`: a pending, low-priority ticket with no text and zero age. */
  function CreateEmptyTicket(id: int): (t: DraftTicket)
    ensures t.id == id
    ensures t.status == Pendente && IsInProgressStatus(t.status) && !IsDoneStatus(t.status)
    ensures t.priority == Baixa
    ensures t.ticketId == "" && t.title == "" && t.owner == "" && t.note == ""
    ensures t.age == 0 && FormatAge(t.age) == "0 min"
  {
    DraftTicket(id, "", Baixa, "", 0, "", Pendente, "")
  }
}
