/** The reservation list of the restaurant screen: ten hyperlinks labelled
    "Reservation i: name - HH:MM", sorted by the time read back out of each label,
    and removed one at a time when a cancellation is confirmed. */
module Reservations {
  import opened JavaStrings
  import opened ListOps

  /** The pool the name generator picks from. */
  const Names: seq<string> := ["Alice", "Bob", "Charlie", "David", "Emma", "Frank", "Grace", "Henry", "Ivy", "Jack"]

  /** How many reservations the screen generates. */
  const ReservationCount := 10

  /** The hour generator gives 17 + nextInt(8), the minute generator nextInt(61). */
  const FirstHour := 17
  const LastHour := 24
  const LastMinute := 60

  /** What the random generators return for one reservation: the name picked from the
      pool, the hour and the minute. */
  datatype Draw = Draw(name: string, hour: nat, minute: nat)

  predicate ValidDraw(d: Draw)
  {
    d.name in Names && FirstHour <= d.hour <= LastHour && d.minute <= LastMinute
  }

  /** A reservation hyperlink. The number i it was created with also stands for its object
      identity; name is what the cancel handler captured; text is the hyperlink's label. */
  datatype Link = Link(id: nat, name: string, text: string)

  /** String.format("%02d:%02d", hour, minute). */
  function FormatTime(hour: nat, minute: nat): string
  {
    ZeroPad2(hour) + ":" + ZeroPad2(minute)
  }

  /** A formatted time is non-empty and has no space; for the hours and minutes the
      generators produce it is five characters, "HH:MM". */
  lemma FormatTimeShape(hour: nat, minute: nat)
    ensures FormatTime(hour, minute) != "" && ' ' !in FormatTime(hour, minute)
    ensures hour < 100 && minute < 100 ==>
      FormatTime(hour, minute) == [Digit(hour / 10), Digit(hour % 10), ':', Digit(minute / 10), Digit(minute % 10)]
  {
    var h, m := ZeroPad2(hour), ZeroPad2(minute);
    ZeroPad2Digits(hour);
    ZeroPad2Digits(minute);
    assert forall k :: 0 <= k < |h| ==> h[k] != ' ';
    assert forall k :: 0 <= k < |m| ==> m[k] != ' ';
  }

  /** Two-digit zero-padded numbers compare as strings the way they compare as numbers. */
  lemma PaddedOrder(a: nat, b: nat)
    requires a < 100 && b < 100
    ensures Less(ZeroPad2(a), ZeroPad2(b)) <==> a < b
    ensures ZeroPad2(a) == ZeroPad2(b) <==> a == b
  {
    var x, y := ZeroPad2(a), ZeroPad2(b);
    ZeroPad2Digits(a);
    ZeroPad2Digits(b);
    assert x == [Digit(a / 10)] + [Digit(a % 10)];
    assert y == [Digit(b / 10)] + [Digit(b % 10)];
    CompareToAppend([Digit(a / 10)], [Digit(b / 10)], [Digit(a % 10)], [Digit(b % 10)]);
    assert CompareTo([Digit(a % 10)], [Digit(b % 10)]) == (a % 10) - (b % 10) by {
      if a % 10 == b % 10 {
        assert [Digit(a % 10)][1..] == [];
      }
    }
    assert a == 10 * (a / 10) + a % 10 && b == 10 * (b / 10) + b % 10;
    if x == y {
      assert x[0] == y[0] && x[1] == y[1];
    }
  }

  /** The order of the formatted times is the order of (hour, minute) pairs, for every hour
      and minute the generators produce (and every two-digit pair). */
  lemma TimeOrder(h1: nat, m1: nat, h2: nat, m2: nat)
    requires h1 < 100 && m1 < 100 && h2 < 100 && m2 < 100
    ensures Less(FormatTime(h1, m1), FormatTime(h2, m2)) <==> h1 < h2 || (h1 == h2 && m1 < m2)
    ensures FormatTime(h1, m1) == FormatTime(h2, m2) <==> h1 == h2 && m1 == m2
  {
    var a, b := FormatTime(h1, m1), FormatTime(h2, m2);
    ZeroPad2Digits(h1);
    ZeroPad2Digits(h2);
    ZeroPad2Digits(m1);
    ZeroPad2Digits(m2);
    PaddedOrder(h1, h2);
    PaddedOrder(m1, m2);
    assert a == ZeroPad2(h1) + (":" + ZeroPad2(m1));
    assert b == ZeroPad2(h2) + (":" + ZeroPad2(m2));
    CompareToAppend(ZeroPad2(h1), ZeroPad2(h2), ":" + ZeroPad2(m1), ":" + ZeroPad2(m2));
    CompareToAppend(":", ":", ZeroPad2(m1), ZeroPad2(m2));
    if a == b {
      assert a[..2] == ZeroPad2(h1) && b[..2] == ZeroPad2(h2);
      assert a[3..] == ZeroPad2(m1) && b[3..] == ZeroPad2(m2);
    }
  }

  /** The hyperlink text built in the generation loop. */
  function ReservationLabel(i: nat, name: string, time: string): string
  {
    "Reservation " + DecimalString(i) + ": " + name + " - " + time
  }

  /** The time read back from a hyperlink's text: the second piece of splitting on ": ",
      split again on " - ", second piece. None where the source would index past the end
      of a split result (an ArrayIndexOutOfBoundsException). */
  function TimeFromLabel(text: string): Option<string>
  {
    var parts := Split(text, ": ");
    if |parts| < 2 then None
    else
      var pieces := Split(parts[1], " - ");
      if |pieces| < 2 then None else Some(pieces[1])
  }

  /** No occurrence of sep starts inside a, when a lacks the separator's first character,
      or lacks its second one and the separator does not repeat its first character. */
  lemma NoStartInside(a: string, sep: string, b: string)
    requires |sep| >= 2
    requires sep[0] !in a || (sep[1] !in a && sep[0] != sep[1])
    ensures forall j: nat :: j < |a| ==> !OccursAt(a + sep + b, sep, j)
  {
  }

  /** Reading the time back out of a label returns the time the label was built with, for a
      name without ':' or '-' and a non-empty time without spaces. */
  lemma LabelRoundTrip(i: nat, name: string, time: string)
    requires ':' !in name && '-' !in name
    requires time != "" && ' ' !in time
    ensures TimeFromLabel(ReservationLabel(i, name, time)) == Some(time)
  {
    var digits := DecimalString(i);
    DecimalDigits(i);
    assert ':' !in digits by {
      forall k | 0 <= k < |digits| ensures digits[k] != ':' {
        assert IsDigit(digits[k]);
      }
    }
    var a := "Reservation " + digits;
    var b := name + " - " + time;
    assert ReservationLabel(i, name, time) == a + ": " + b;
    NoStartInside(a, ": ", b);
    NoOccurrenceWithout(name + " - ", time, ": ");
    SplitOnce(a, ": ", b);
    NoStartInside(name, " - ", time);
    NoOccurrenceWithout(time, "", " - ");
    assert time + "" == time;
    SplitOnce(name, " - ", time);
  }

  /** Every name in the pool is free of the two separator characters. */
  lemma NamesArePlain(name: string)
    requires name in Names
    ensures ':' !in name && '-' !in name
  {
  }

  /** The hyperlink the generation loop creates in round i from one draw. */
  function MakeLink(i: nat, d: Draw): Link
  {
    Link(i, d.name, ReservationLabel(i, d.name, FormatTime(d.hour, d.minute)))
  }

  /** A generated hyperlink's time reads back as the time it was generated with. */
  lemma MakeLinkTime(i: nat, d: Draw)
    requires ValidDraw(d)
    ensures TimeFromLabel(MakeLink(i, d).text) == Some(FormatTime(d.hour, d.minute))
    ensures Timed(MakeLink(i, d))
  {
    NamesArePlain(d.name);
    FormatTimeShape(d.hour, d.minute);
    LabelRoundTrip(i, d.name, FormatTime(d.hour, d.minute));
  }

  /** The hyperlinks in generation order: hyperlink k is the one made in round k + 1. */
  function Generated(draws: seq<Draw>): seq<Link>
  {
    seq(|draws|, k requires 0 <= k < |draws| => MakeLink(k + 1, draws[k]))
  }

  /** Every generated hyperlink's time reads back, and no two hyperlinks are the same. */
  lemma GeneratedLinks(draws: seq<Draw>)
    requires forall k :: 0 <= k < |draws| ==> ValidDraw(draws[k])
    ensures AllTimed(Generated(draws)) && Distinct(Generated(draws))
  {
    GeneratedTimed(draws);
    GeneratedDistinct(draws);
  }

  lemma GeneratedTimed(draws: seq<Draw>)
    requires forall k :: 0 <= k < |draws| ==> ValidDraw(draws[k])
    ensures AllTimed(Generated(draws))
  {
    forall k | 0 <= k < |draws|
      ensures Timed(Generated(draws)[k])
    {
      GeneratedTimedAt(draws, k);
    }
  }

  lemma GeneratedTimedAt(draws: seq<Draw>, k: nat)
    requires k < |draws| && ValidDraw(draws[k])
    ensures Timed(Generated(draws)[k])
  {
    MakeLinkTime(k + 1, draws[k]);
  }

  lemma GeneratedDistinct(draws: seq<Draw>)
    ensures Distinct(Generated(draws))
  {
  }

  predicate Timed(l: Link) { TimeFromLabel(l.text).Some? }

  predicate AllTimed(s: seq<Link>) { forall k :: 0 <= k < |s| ==> Timed(s[k]) }

  /** The sort key getTimeFromHyperlink computes. On a label it cannot parse the source
      throws; every caller here first establishes Timed, so the empty string is never used. */
  function Time(l: Link): string
  {
    match TimeFromLabel(l.text)
    case Some(t) => t
    case None => ""
  }

  /** Collections.sort(hyperlinks, Comparator.comparing(getTimeFromHyperlink)). */
  method SortByTime(s: seq<Link>) returns (r: seq<Link>)
    requires AllTimed(s)
    ensures AllTimed(r) && Sorted(r, Time)
    ensures multiset(r) == multiset(s)
    ensures forall t :: WithKey(r, Time, t) == WithKey(s, Time, t)
    ensures Distinct(s) ==> Distinct(r)
  {
    r := Sort(s, Time);
    forall k | 0 <= k < |r|
      ensures Timed(r[k])
    {
      assert r[k] in multiset(s);
    }
  }

  /** The generation loop of createReservationBox: round i draws a name and a time and
      creates hyperlink i. */
  method GenerateLinks(draws: seq<Draw>) returns (hyperlinks: seq<Link>)
    requires |draws| == ReservationCount
    ensures hyperlinks == Generated(draws)
  {
    hyperlinks := [];
    for i := 1 to ReservationCount + 1
      invariant hyperlinks == Generated(draws)[..i - 1]
    {
      hyperlinks := hyperlinks + [MakeLink(i, draws[i - 1])];
    }
    assert Generated(draws)[..ReservationCount] == Generated(draws);
  }

  /** createReservationBox: ten generated hyperlinks, then the sort. The box holds exactly
      the generated hyperlinks, sorted by time, with equal times in generation order. */
  method CreateReservationBox(draws: seq<Draw>) returns (links: seq<Link>)
    requires |draws| == ReservationCount
    requires forall k :: 0 <= k < |draws| ==> ValidDraw(draws[k])
    ensures AllTimed(links) && Sorted(links, Time) && Distinct(links)
    ensures multiset(links) == multiset(Generated(draws))
    ensures forall t :: WithKey(links, Time, t) == WithKey(Generated(draws), Time, t)
  {
    var hyperlinks := GenerateLinks(draws);
    GeneratedLinks(draws);
    links := SortByTime(hyperlinks);
  }

  /** Removing a hyperlink keeps the box sorted, parseable and free of duplicates. */
  lemma CancelKeepsValid(s: seq<Link>, x: Link)
    requires AllTimed(s) && Sorted(s, Time) && Distinct(s)
    ensures AllTimed(Remove(s, x)) && Sorted(Remove(s, x), Time) && Distinct(Remove(s, x))
  {
    CancelKeepsTimed(s, x);
    RemoveKeepsSorted(s, x, Time);
    if x in s {
      RemoveExactly(s, x);
    } else {
      RemoveMultiset(s, x);
    }
  }

  lemma CancelKeepsTimed(s: seq<Link>, x: Link)
    requires AllTimed(s)
    ensures AllTimed(Remove(s, x))
  {
    RemoveKeepsAll(s, x, Timed);
  }

  /** The reservation box: its hyperlinks, below the box title. */
  class ReservationBox {
    var links: seq<Link>

    ghost predicate Valid()
      reads this
    {
      AllTimed(links) && Sorted(links, Time) && Distinct(links)
    }

    constructor (draws: seq<Draw>)
      requires |draws| == ReservationCount
      requires forall k :: 0 <= k < |draws| ==> ValidDraw(draws[k])
      ensures Valid()
      ensures multiset(links) == multiset(Generated(draws))
      ensures forall t :: WithKey(links, Time, t) == WithKey(Generated(draws), Time, t)
    {
      var l := CreateReservationBox(draws);
      links := l;
    }

    /** The cancel dialog: "Yes" removes the clicked hyperlink from the box, "No" closes
        the dialog and nothing changes. */
    method Cancel(link: Link, yes: bool)
      requires Valid()
      modifies this
      ensures Valid()
      ensures links == if yes then Remove(old(links), link) else old(links)
    {
      if yes {
        CancelKeepsValid(links, link);
        links := RemoveFirst(links, link);
      }
    }
  }
}
