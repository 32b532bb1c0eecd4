/** utils/parseOTRSPriorityToTicket.ts: the external priority label to a board priority. */
module OtrsPriority {
  import opened Strings
  import opened TicketTypes

  /**
   * `switch (priority.toLowerCase())`: "3 normal" is Baixa, "5 muito alto" is
   * Incidente, and every other priority falls back to Baixa.
   */
  function ParseOtrsPriorityToTicket(priority: string): (p: Priority)
    ensures p == Baixa || p == Incidente
    ensures p == Incidente <==> Lower(priority) == "5 muito alto"
    ensures Lower(priority) == "3 normal" ==> p == Baixa
  {
    match Lower(priority)
    case "3 normal" => Baixa
    case "5 muito alto" => Incidente
    case _ => Baixa
  }

  /** A label and its lower-cased form are translated alike. */
  lemma ParseIgnoresCase(priority: string)
    ensures ParseOtrsPriorityToTicket(Lower(priority)) == ParseOtrsPriorityToTicket(priority)
  {
    LowerIdempotent(priority);
  }

  /** Upper-case spellings of the known labels are recognised. */
  lemma ParseExamples()
    ensures ParseOtrsPriorityToTicket("5 MUITO ALTO") == Incidente
    ensures ParseOtrsPriorityToTicket("5 Muito Alto") == Incidente
    ensures ParseOtrsPriorityToTicket("3 Normal") == Baixa
    ensures ParseOtrsPriorityToTicket("4 alto") == Baixa
  {
    assert Lower("5 MUITO ALTO") == "5 muito alto";
    assert Lower("5 Muito Alto") == "5 muito alto";
    assert Lower("4 alto") != "5 muito alto";
  }
}
