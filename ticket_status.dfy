/** Status classification: utils/ticketStatus.ts and the page's in-progress test. */
module TicketStatus {
  import opened TicketTypes

  /** `DONE_STATUSES` of utils/ticketStatus.ts, also taken as the page's done list. */
  const DoneStatuses: seq<Status> := [Encerrado, Movido, Desbloqueado]

  /** `IN_PROGRESS_STATUSES`: the three working statuses of the shared type. */
  const InProgressStatuses: seq<Status> := [Pendente, EmAtendimento, AguardandoResposta]

  /** `isDoneStatus`: membership in the done list. */
  function IsDoneStatus(s: Status): (r: bool)
    ensures r <==> s == Encerrado || s == Movido || s == Desbloqueado
  {
    s in DoneStatuses
  }

  /** `isInProgressStatus`: membership in the in-progress list. */
  function IsInProgressStatus(s: Status): (r: bool)
    ensures r <==> s == Pendente || s == EmAtendimento || s == AguardandoResposta
  {
    s in InProgressStatuses
  }

  /** The done list has exactly three distinct entries. */
  lemma DoneStatusesDistinct()
    ensures |DoneStatuses| == 3
    ensures forall i, j :: 0 <= i < j < |DoneStatuses| ==> DoneStatuses[i] != DoneStatuses[j]
  {
  }

  /**
   * No status is both in progress and done; the working statuses are not done,
   * and the legacy `Finalizado` is in neither class.
   */
  lemma StatusClassesDisjoint(s: Status)
    ensures !(IsDoneStatus(s) && IsInProgressStatus(s))
    ensures s == Pendente || s == EmAtendimento || s == AguardandoResposta ==> !IsDoneStatus(s)
    ensures s == Finalizado ==> !IsDoneStatus(s) && !IsInProgressStatus(s)
  {
  }
}
