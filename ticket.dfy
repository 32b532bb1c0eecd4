/**
 * The ticket record as the board page stores it (app/page.tsx), and the
 * record an external sync batch delivers.
 */
module TicketTypes {
  import opened Seqs

  datatype Priority = Baixa | Media | Alta | Incidente

  /**
   * The three in-progress statuses, the three done statuses, and the legacy
   * `Finalizado` that the shared type still declares but no list classifies.
   */
  datatype Status =
    | Pendente | EmAtendimento | AguardandoResposta
    | Encerrado | Movido | Desbloqueado
    | Finalizado

  /**
   * `age` is the external elapsed-time label (for example "2 d 3 h");
   * `lastSync` is the millisecond clock reading of the last sync that touched it.
   */
  datatype Ticket = Ticket(
    id: int,
    ticketId: string,
    title: string,
    owner: string,
    note: string,
    priority: Priority,
    status: Status,
    age: string,
    orderIndex: int,
    lastSync: int)

  /** One scraped record of the external ticketing system. */
  datatype OtrsTicket = OtrsTicket(
    ticketId: string,
    title: string,
    owner: string,
    priority: string,
    age: string)

  /** The string value the priority has in the store (what search matches against). */
  function PriorityLabel(p: Priority): string {
    match p
    case Baixa => "Baixa"
    case Media => "Média"
    case Alta => "Alta"
    case Incidente => "Incidente"
  }

  function IdOf(t: Ticket): int { t.id }

  function OrderIndexOf(t: Ticket): int { t.orderIndex }

  /** No two positions of the store hold the same `id`. */
  ghost predicate UniqueIds(s: seq<Ticket>) {
    DistinctBy(s, IdOf)
  }

  /** `Math.max(...s.map(t => t.id))` for a non-empty store. */
  function MaxId(s: seq<Ticket>): (r: int)
    requires |s| > 0
    ensures forall i :: 0 <= i < |s| ==> s[i].id <= r
    decreases |s|
  {
    if |s| == 1 then s[0].id
    else
      var m := MaxId(s[1..]);
      assert forall i :: 1 <= i < |s| ==> s[i] == s[1..][i - 1];
      if s[0].id >= m then s[0].id else m
  }

  /** The maximum is the id of some ticket. */
  lemma {:induction false} MaxIdAttained(s: seq<Ticket>)
    requires |s| > 0
    ensures exists i :: 0 <= i < |s| && s[i].id == MaxId(s)
    decreases |s|
  {
    if |s| > 1 && s[0].id < MaxId(s[1..]) {
      MaxIdAttained(s[1..]);
      var k :| 0 <= k < |s[1..]| && s[1..][k].id == MaxId(s[1..]);
      assert s[k + 1] == s[1..][k];
    } else {
      assert s[0].id == MaxId(s);
    }
  }

  /** `Math.max(...s.map(t => t.orderIndex))` for a non-empty store. */
  function MaxOrderIndex(s: seq<Ticket>): (r: int)
    requires |s| > 0
    ensures forall i :: 0 <= i < |s| ==> s[i].orderIndex <= r
    decreases |s|
  {
    if |s| == 1 then s[0].orderIndex
    else
      var m := MaxOrderIndex(s[1..]);
      assert forall i :: 1 <= i < |s| ==> s[i] == s[1..][i - 1];
      if s[0].orderIndex >= m then s[0].orderIndex else m
  }

  /** The maximum is the order position of some ticket. */
  lemma {:induction false} MaxOrderIndexAttained(s: seq<Ticket>)
    requires |s| > 0
    ensures exists i :: 0 <= i < |s| && s[i].orderIndex == MaxOrderIndex(s)
    decreases |s|
  {
    if |s| > 1 && s[0].orderIndex < MaxOrderIndex(s[1..]) {
      MaxOrderIndexAttained(s[1..]);
      var k :| 0 <= k < |s[1..]| && s[1..][k].orderIndex == MaxOrderIndex(s[1..]);
      assert s[k + 1] == s[1..][k];
    } else {
      assert s[0].orderIndex == MaxOrderIndex(s);
    }
  }

  /** The id the next created ticket receives: one past the largest, 1 for an empty store. */
  function NextId(s: seq<Ticket>): (r: int)
    ensures forall i :: 0 <= i < |s| ==> s[i].id < r
    ensures |s| == 0 ==> r == 1
  {
    if |s| > 0 then MaxId(s) + 1 else 1
  }

  /** On a non-empty store the next id is exactly one past an existing id. */
  lemma NextIdFollowsMax(s: seq<Ticket>)
    requires |s| > 0
    ensures exists i :: 0 <= i < |s| && s[i].id == NextId(s) - 1
  {
    MaxIdAttained(s);
  }

  /** Ids of a store, in store order. */
  function Ids(s: seq<Ticket>): (r: seq<int>)
    ensures |r| == |s| && forall i :: 0 <= i < |s| ==> r[i] == s[i].id
  {
    seq(|s|, i requires 0 <= i < |s| => s[i].id)
  }

  /** Two stores with the same id sequence agree on id uniqueness. */
  lemma SameIdsSameUniqueness(a: seq<Ticket>, b: seq<Ticket>)
    requires Ids(a) == Ids(b)
    ensures UniqueIds(a) <==> UniqueIds(b)
  {
    assert |a| == |b|;
    assert forall i :: 0 <= i < |a| ==> IdOf(a[i]) == Ids(a)[i] == Ids(b)[i] == IdOf(b[i]);
  }
}
