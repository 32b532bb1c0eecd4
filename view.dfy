/** The search box and the two tabs of app/page.tsx. */
module TicketViews {
  import opened Seqs
  import opened Strings
  import opened TicketTypes
  import opened TicketStatus

  /**
   * A ticket matches the search text when the lower-cased text occurs in the
   * lower-cased title, owner, priority label or external id.
   */
  predicate MatchesSearch(t: Ticket, search: string) {
    var q := Lower(search);
    || Contains(Lower(t.title), q)
    || Contains(Lower(t.owner), q)
    || Contains(Lower(PriorityLabel(t.priority)), q)
    || Contains(Lower(t.ticketId), q)
  }

  function MatchesQuery(search: string): Ticket -> bool {
    (t: Ticket) => MatchesSearch(t, search)
  }

  /** `searchedTickets`: the matching tickets, in store order. */
  function Searched(s: seq<Ticket>, search: string): (r: seq<Ticket>)
    ensures forall i :: 0 <= i < |r| ==> r[i] in s && MatchesSearch(r[i], search)
    ensures forall i :: 0 <= i < |s| && MatchesSearch(s[i], search) ==> s[i] in r
  {
    Filter(s, MatchesQuery(search))
  }

  /** An empty search box shows every ticket. */
  lemma EmptySearchKeepsAll(s: seq<Ticket>)
    ensures Searched(s, "") == s
  {
    forall i | 0 <= i < |s| ensures MatchesQuery("")(s[i]) {
      ContainsEmpty(Lower(s[i].title));
    }
    FilterAll(s, MatchesQuery(""));
  }

  /** Search ignores the case of the query. */
  lemma SearchIgnoresQueryCase(t: Ticket, search: string)
    ensures MatchesSearch(t, search) == MatchesSearch(t, Lower(search))
  {
    LowerIdempotent(search);
  }

  /** A ticket is found by any piece of its title, in any case. */
  lemma SearchFindsTitlePiece(t: Ticket, i: nat, j: nat)
    requires i <= j <= |t.title|
    ensures MatchesSearch(t, t.title[i..j])
  {
    var text := Lower(t.title);
    var q := Lower(t.title[i..j]);
    assert text[i..j] == q;
    assert OccursAt(text, q, i);
  }

  predicate InProgressTicket(t: Ticket) {
    IsInProgressStatus(t.status)
  }

  predicate DoneTicket(t: Ticket) {
    IsDoneStatus(t.status)
  }

  function NegatedId(t: Ticket): int {
    -t.id
  }

  /** The "in progress" tab: matching in-progress tickets, ascending by `orderIndex`. */
  function InProgressView(s: seq<Ticket>, search: string): (r: seq<Ticket>)
    ensures SortedBy(r, OrderIndexOf)
    ensures multiset(r) == multiset(Filter(Searched(s, search), InProgressTicket))
  {
    SortBy(Filter(Searched(s, search), InProgressTicket), OrderIndexOf)
  }

  /** The "done" tab: matching done tickets, newest (largest id) first. */
  function DoneView(s: seq<Ticket>, search: string): (r: seq<Ticket>)
    ensures forall i, j :: 0 <= i < j < |r| ==> r[i].id >= r[j].id
    ensures multiset(r) == multiset(Filter(Searched(s, search), DoneTicket))
  {
    var r := SortBy(Filter(Searched(s, search), DoneTicket), NegatedId);
    assert forall i, j :: 0 <= i < j < |r| ==> NegatedId(r[i]) <= NegatedId(r[j]);
    r
  }

  /** A ticket shows in the in-progress tab iff it is stored, matches the search and has an in-progress status. */
  lemma InProgressViewMembers(s: seq<Ticket>, search: string, t: Ticket)
    ensures t in InProgressView(s, search) <==> t in s && MatchesSearch(t, search) && IsInProgressStatus(t.status)
  {
    var f := Filter(Searched(s, search), InProgressTicket);
    assert t in InProgressView(s, search) <==> t in multiset(f);
    if t in s && MatchesSearch(t, search) && IsInProgressStatus(t.status) {
      var i :| 0 <= i < |s| && s[i] == t;
      var k :| 0 <= k < |Searched(s, search)| && Searched(s, search)[k] == t;
    }
  }

  /** A ticket shows in the done tab iff it is stored, matches the search and has a done status. */
  lemma DoneViewMembers(s: seq<Ticket>, search: string, t: Ticket)
    ensures t in DoneView(s, search) <==> t in s && MatchesSearch(t, search) && IsDoneStatus(t.status)
  {
    var f := Filter(Searched(s, search), DoneTicket);
    assert t in DoneView(s, search) <==> t in multiset(f);
    if t in s && MatchesSearch(t, search) && IsDoneStatus(t.status) {
      var i :| 0 <= i < |s| && s[i] == t;
      var k :| 0 <= k < |Searched(s, search)| && Searched(s, search)[k] == t;
    }
  }

  /**
   * The two tabs never share a ticket, and between them they show every
   * matching ticket except those with the legacy status Finalizado.
   */
  lemma ViewsPartitionSearch(s: seq<Ticket>, search: string, t: Ticket)
    ensures !(t in InProgressView(s, search) && t in DoneView(s, search))
    ensures t in s && MatchesSearch(t, search) && t.status != Finalizado ==>
      t in InProgressView(s, search) || t in DoneView(s, search)
  {
    InProgressViewMembers(s, search, t);
    DoneViewMembers(s, search, t);
    StatusClassesDisjoint(t.status);
  }
}
