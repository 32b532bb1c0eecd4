/**
 * utils/ticketSorting.ts: the priority rank and comparator, the elapsed-time
 * label parser and the age comparator.
 */
module TicketSorting {
  import opened Wrappers
  import opened Strings
  import opened TicketTypes

  /** `PRIORITY_ORDER`: Baixa 1, Média 2, Alta 3, Incidente 4. */
  function PriorityOrder(p: Priority): (r: int)
    ensures 1 <= r <= 4
  {
    match p
    case Incidente => 4
    case Alta => 3
    case Media => 2
    case Baixa => 1
  }

  /** The rank is strictly increasing with severity, hence injective. */
  lemma PriorityOrderRanks()
    ensures PriorityOrder(Baixa) < PriorityOrder(Media) < PriorityOrder(Alta) < PriorityOrder(Incidente)
    ensures forall p: Priority, q: Priority :: PriorityOrder(p) == PriorityOrder(q) ==> p == q
  {
  }

  /** `sortByPriority`: negative when `a` is more severe, so sorting puts the most severe first. */
  function SortByPriority(a: Ticket, b: Ticket): (r: int)
    ensures r < 0 <==> PriorityOrder(a.priority) > PriorityOrder(b.priority)
    ensures r == 0 <==> a.priority == b.priority
  {
    PriorityOrder(b.priority) - PriorityOrder(a.priority)
  }

  /** The comparator is antisymmetric and its "not after" relation is transitive. */
  lemma SortByPriorityIsOrder(a: Ticket, b: Ticket, c: Ticket)
    ensures SortByPriority(a, b) == -SortByPriority(b, a)
    ensures SortByPriority(a, b) <= 0 && SortByPriority(b, c) <= 0 ==> SortByPriority(a, c) <= 0
  {
  }

  /** JavaScript's `\s` class, by code point. */
  predicate IsJsWhitespace(c: char) {
    var n := c as int;
    (9 <= n <= 13) || n == 32 || n == 0xA0 || n == 0x1680 || (0x2000 <= n <= 0x200A)
    || n == 0x2028 || n == 0x2029 || n == 0x202F || n == 0x205F || n == 0x3000 || n == 0xFEFF
  }

  /** Length of the maximal run of decimal digits at the front of `s`. */
  function DigitRun(s: string): (n: nat)
    ensures n <= |s| && AllDigits(s[..n])
    ensures n < |s| ==> !IsDigit(s[n])
    decreases |s|
  {
    if s != [] && IsDigit(s[0]) then
      var k := DigitRun(s[1..]);
      assert s[..k + 1] == [s[0]] + s[1..][..k];
      1 + k
    else 0
  }

  /** Length of the maximal run of whitespace at the front of `s`. */
  function SpaceRun(s: string): (n: nat)
    ensures n <= |s|
    ensures forall i :: 0 <= i < n ==> IsJsWhitespace(s[i])
    ensures n < |s| ==> !IsJsWhitespace(s[n])
    decreases |s|
  {
    if s != [] && IsJsWhitespace(s[0]) then 1 + SpaceRun(s[1..]) else 0
  }

  /**
   * `/(\d+)\s*u/` matches starting at the first character of `s`. Greedy
   * backtracking cannot help: a shorter digit run is followed by a digit,
   * which is neither whitespace nor the unit letter.
   */
  predicate UnitMatchesAt(s: string, unit: char) {
    var d := DigitRun(s);
    d > 0 && SpaceRun(s[d..]) < |s[d..]| && s[d..][SpaceRun(s[d..])] == unit
  }

  /** The number captured by `(\d+)` at the front of `s`. */
  function RunValue(s: string): nat {
    DigitsValue(s[..DigitRun(s)])
  }

  /** `s.match(/(\d+)\s*u/)`: scans for the first position where the pattern matches. */
  function FirstUnitMatch(s: string, unit: char): Option<nat>
    decreases |s|
  {
    if s == [] then None
    else if UnitMatchesAt(s, unit) then Some(RunValue(s))
    else FirstUnitMatch(s[1..], unit)
  }

  lemma SuffixOfTail(s: string, p: nat)
    requires 1 <= p <= |s|
    ensures s[p..] == s[1..][p - 1..]
  {
  }

  /** No position of `s` matches exactly when its front does not and no position of its tail does. */
  lemma NoMatchShift(s: string, unit: char)
    requires s != []
    ensures (forall p :: 0 <= p < |s| ==> !UnitMatchesAt(s[p..], unit))
        <==> !UnitMatchesAt(s, unit) && forall p :: 0 <= p < |s[1..]| ==> !UnitMatchesAt(s[1..][p..], unit)
  {
    assert s[0..] == s;
    forall p | 1 <= p < |s| ensures s[p..] == s[1..][p - 1..] {
      SuffixOfTail(s, p);
    }
  }

  /** The scan finds nothing exactly when no position matches. */
  lemma {:induction false} FirstUnitMatchNone(s: string, unit: char)
    ensures FirstUnitMatch(s, unit).None? <==> forall p :: 0 <= p < |s| ==> !UnitMatchesAt(s[p..], unit)
    decreases |s|
  {
    if s != [] {
      NoMatchShift(s, unit);
      if !UnitMatchesAt(s, unit) {
        FirstUnitMatchNone(s[1..], unit);
      }
    }
  }

  /** A leftmost match at `p` in the tail of `s` is a leftmost match at `p + 1` in `s` when the front does not match. */
  lemma LeftmostShift(s: string, unit: char, p: nat)
    requires s != [] && !UnitMatchesAt(s, unit) && p < |s[1..]|
    requires forall q :: 0 <= q < p ==> !UnitMatchesAt(s[1..][q..], unit)
    ensures s[p + 1..] == s[1..][p..]
    ensures forall q :: 0 <= q < p + 1 ==> !UnitMatchesAt(s[q..], unit)
  {
    SuffixOfTail(s, p + 1);
    assert s[0..] == s;
    forall q | 1 <= q < p + 1 ensures s[q..] == s[1..][q - 1..] {
      SuffixOfTail(s, q);
    }
  }

  /** A found number is the one captured at the leftmost matching position. */
  lemma {:induction false} FirstUnitMatchIsLeftmost(s: string, unit: char)
    ensures FirstUnitMatch(s, unit).Some? ==>
      exists p :: && 0 <= p < |s| && UnitMatchesAt(s[p..], unit)
                  && FirstUnitMatch(s, unit).value == RunValue(s[p..])
                  && forall q :: 0 <= q < p ==> !UnitMatchesAt(s[q..], unit)
    decreases |s|
  {
    if s != [] {
      if UnitMatchesAt(s, unit) {
        assert s[0..] == s;
      } else {
        FirstUnitMatchIsLeftmost(s[1..], unit);
        var r := FirstUnitMatch(s[1..], unit);
        if r.Some? {
          var p :| && 0 <= p < |s[1..]| && UnitMatchesAt(s[1..][p..], unit) && r.value == RunValue(s[1..][p..])
                   && forall q :: 0 <= q < p ==> !UnitMatchesAt(s[1..][q..], unit);
          LeftmostShift(s, unit, p);
        }
      }
    }
  }

  /** The number before the first `u`-unit in `s`, 0 when there is none. */
  function UnitCount(s: string, unit: char): nat {
    FirstUnitMatch(s, unit).GetOr(0)
  }

  /** What `parseAgeToMinutes` computes: 1440·days + 60·hours + minutes, 0 for a missing or empty label. */
  function AgeToMinutes(age: Option<string>): (r: nat)
    ensures age.None? || age == Some("") ==> r == 0
  {
    if age.None? || age.value == "" then 0
    else 1440 * UnitCount(age.value, 'd') + 60 * UnitCount(age.value, 'h') + UnitCount(age.value, 'm')
  }

  /** `parseAgeToMinutes`: three optional matches accumulated into `minutes`. */
  method ParseAgeToMinutes(age: Option<string>) returns (minutes: int)
    ensures minutes >= 0
    ensures minutes == AgeToMinutes(age)
  {
    if age.None? || age.value == "" {
      return 0;
    }
    var s := age.value;
    minutes := 0;
    var dayMatch := FirstUnitMatch(s, 'd');
    var hourMatch := FirstUnitMatch(s, 'h');
    var minuteMatch := FirstUnitMatch(s, 'm');
    if dayMatch.Some? {
      minutes := minutes + dayMatch.value * 24 * 60;
    }
    if hourMatch.Some? {
      minutes := minutes + hourMatch.value * 60;
    }
    if minuteMatch.Some? {
      minutes := minutes + minuteMatch.value;
    }
  }

  /** `sortByAge`: negative when `a` is older, so sorting puts the oldest first. */
  function SortByAge(a: Ticket, b: Ticket): (r: int)
    ensures r < 0 <==> AgeToMinutes(Some(a.age)) > AgeToMinutes(Some(b.age))
    ensures r == 0 <==> AgeToMinutes(Some(a.age)) == AgeToMinutes(Some(b.age))
  {
    AgeToMinutes(Some(b.age)) - AgeToMinutes(Some(a.age))
  }

  lemma SortByAgeAntisymmetric(a: Ticket, b: Ticket)
    ensures SortByAge(a, b) == -SortByAge(b, a)
  {
  }

  // Scanning facts used to evaluate the parser on rendered labels.

  lemma {:induction false} DigitRunOfPrefix(x: string, rest: string)
    requires AllDigits(x)
    requires rest == [] || !IsDigit(rest[0])
    ensures DigitRun(x + rest) == |x|
    decreases |x|
  {
    if x != [] {
      assert (x + rest)[1..] == x[1..] + rest;
      DigitRunOfPrefix(x[1..], rest);
    }
  }

  /** A scan that meets no digit finds no match. */
  lemma {:induction false} NoDigitsNoMatch(s: string, unit: char)
    requires forall i :: 0 <= i < |s| ==> !IsDigit(s[i])
    ensures FirstUnitMatch(s, unit) == None
    decreases |s|
  {
    if s != [] {
      NoDigitsNoMatch(s[1..], unit);
    }
  }

  /**
   * Scanning a digit run followed by a blank and a letter `c` either captures
   * the run (when `c` is the unit) or continues after `c`.
   */
  lemma {:induction false} RunThenLetter(x: string, c: char, tail: string, unit: char, i: nat)
    requires AllDigits(x) && x != []
    requires i <= |x|
    requires !IsDigit(c) && !IsJsWhitespace(c)
    ensures c == unit && i == 0 ==> FirstUnitMatch(x + [' ', c] + tail, unit) == Some(DigitsValue(x))
    ensures c != unit ==> FirstUnitMatch(x[i..] + [' ', c] + tail, unit) == FirstUnitMatch(tail, unit)
    decreases |x| - i
  {
    var s := x[i..] + [' ', c] + tail;
    if i == |x| {
      assert s == [' '] + ([c] + tail);
      assert s[1..] == [c] + tail;
      assert s[1..][1..] == tail;
    } else {
      DigitRunOfPrefix(x[i..], [' ', c] + tail);
      assert s == x[i..] + ([' ', c] + tail);
      assert s[|x| - i..] == [' ', c] + tail;
      assert SpaceRun([c] + tail) == 0;
      assert SpaceRun([' ', c] + tail) == 1 by {
        assert ([' ', c] + tail)[1..] == [c] + tail;
      }
      if c == unit && i == 0 {
        assert s == x + [' ', c] + tail;
        assert s[..DigitRun(s)] == x;
      } else if c != unit {
        assert !UnitMatchesAt(s, unit);
        assert s[1..] == x[i + 1..] + [' ', c] + tail;
        RunThenLetter(x, c, tail, unit, i + 1);
      }
    }
  }

  /** The canonical form of a rendered count followed by a unit word. */
  lemma NumberThenUnit(n: nat, c: char, tail: string, unit: char)
    requires !IsDigit(c) && !IsJsWhitespace(c)
    ensures FirstUnitMatch(NatToString(n) + [' ', c] + tail, unit)
            == if c == unit then Some(n) else FirstUnitMatch(tail, unit)
  {
    DigitsValueOfNatToString(n);
    RunThenLetter(NatToString(n), c, tail, unit, 0);
    assert NatToString(n)[0..] == NatToString(n);
  }

  /** Leading blanks are skipped by the scan. */
  lemma BlankThenRest(s: string, unit: char)
    ensures FirstUnitMatch(" " + s, unit) == FirstUnitMatch(s, unit)
  {
    assert (" " + s)[1..] == s;
  }

  /** The day-and-hour label of the source's comments: "2 d 3 h" is 3060 minutes. */
  lemma ParseAgeDaysHoursExample()
    ensures AgeToMinutes(Some("2 d 3 h")) == 3060
  {
    var tail := " " + (NatToString(3) + [' ', 'h'] + "");
    assert NatToString(2) == "2" && NatToString(3) == "3";
    assert "2 d 3 h" == NatToString(2) + [' ', 'd'] + tail;
    NumberThenUnit(2, 'd', tail, 'd');
    NumberThenUnit(2, 'd', tail, 'h');
    NumberThenUnit(2, 'd', tail, 'm');
    BlankThenRest(NatToString(3) + [' ', 'h'] + "", 'h');
    BlankThenRest(NatToString(3) + [' ', 'h'] + "", 'm');
    NumberThenUnit(3, 'h', "", 'h');
    NumberThenUnit(3, 'h', "", 'm');
  }

  /** A minutes-only label: "45 min" is 45 minutes. */
  lemma ParseAgeMinutesExample()
    ensures AgeToMinutes(Some("45 min")) == 45
  {
    assert NatToString(45) == NatToString(4) + [DigitChar(5)];
    assert NatToString(45) == "45";
    var s := NatToString(45) + [' ', 'm'] + "in";
    assert "45 min" == s;
    NoDigitsNoMatch("in", 'd');
    NoDigitsNoMatch("in", 'h');
    NumberThenUnit(45, 'm', "in", 'd');
    NumberThenUnit(45, 'm', "in", 'h');
    NumberThenUnit(45, 'm', "in", 'm');
  }

  /** The zero label: "0 min" is 0 minutes. */
  lemma ParseAgeZeroExample()
    ensures AgeToMinutes(Some("0 min")) == 0
  {
    assert NatToString(0) == "0";
    var s := NatToString(0) + [' ', 'm'] + "in";
    assert "0 min" == s;
    NoDigitsNoMatch("in", 'd');
    NoDigitsNoMatch("in", 'h');
    NumberThenUnit(0, 'm', "in", 'd');
    NumberThenUnit(0, 'm', "in", 'h');
    NumberThenUnit(0, 'm', "in", 'm');
  }
}
