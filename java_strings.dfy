/** The few pieces of the Java string library the restaurant screen relies on:
    string concatenation of an int (Integer.toString), String.format("%02d", n),
    String.split with a separator that has no regular-expression metacharacters,
    and String.compareTo, which is what Comparator.comparing uses on strings. */
module JavaStrings {

  datatype Option<T> = None | Some(value: T)

  predicate IsDigit(c: char) { '0' <= c <= '9' }

  /** The character of a decimal digit. */
  function Digit(d: nat): (c: char)
    requires d < 10
    ensures IsDigit(c) && c as int - '0' as int == d
  {
    ('0' as int + d) as char
  }

  /** The value of a string of decimal digits, most significant first. */
  function DecimalValue(s: string): nat
  {
    if s == [] then 0
    else
      var c := s[|s| - 1];
      DecimalValue(s[..|s| - 1]) * 10 + (if IsDigit(c) then c as int - '0' as int else 0)
  }

  /** Integer.toString(n) for a non-negative n: the shortest decimal string, no sign. */
  function DecimalString(n: nat): string
  {
    if n < 10 then [Digit(n)] else DecimalString(n / 10) + [Digit(n % 10)]
  }

  /** The printed number is a non-empty string of digits without a leading zero. */
  lemma {:induction false} DecimalDigits(n: nat)
    ensures |DecimalString(n)| >= 1 && (DecimalString(n)[0] == '0' ==> n == 0)
    ensures forall k :: 0 <= k < |DecimalString(n)| ==> IsDigit(DecimalString(n)[k])
  {
    if n >= 10 {
      DecimalDigits(n / 10);
    }
  }

  /** Reading the printed number back gives the number. */
  lemma {:induction false} DecimalRoundTrip(n: nat)
    ensures DecimalValue(DecimalString(n)) == n
  {
    var r := DecimalString(n);
    if n >= 10 {
      DecimalRoundTrip(n / 10);
      assert r[..|r| - 1] == DecimalString(n / 10);
    }
  }

  /** String.format("%02d", n) for a non-negative n, in a locale whose zero digit is '0':
      at least two digits, padded with '0'. */
  function ZeroPad2(n: nat): string
  {
    if n < 10 then "0" + DecimalString(n) else DecimalString(n)
  }

  /** The padded number is all digits, at least two of them; below 100 it is exactly the
      tens digit then the units digit. */
  lemma ZeroPad2Digits(n: nat)
    ensures |ZeroPad2(n)| >= 2
    ensures forall k :: 0 <= k < |ZeroPad2(n)| ==> IsDigit(ZeroPad2(n)[k])
    ensures n < 100 ==> ZeroPad2(n) == [Digit(n / 10), Digit(n % 10)]
  {
    DecimalDigits(n);
    if n < 10 {
      assert "0" == [Digit(0)] && DecimalString(n) == [Digit(n)];
    } else {
      DecimalDigits(n / 10);
      assert n < 100 ==> DecimalString(n / 10) == [Digit(n / 10)];
    }
  }

  /** The separator occurs in s starting at index k. */
  predicate OccursAt(s: string, sep: string, k: nat)
  {
    k + |sep| <= |s| && s[k..k + |sep|] == sep
  }

  /** The leftmost occurrence of sep in s at or after index from, the match a
      java.util.regex.Matcher finds for a literal pattern. */
  function FirstOccurrence(s: string, sep: string, from: nat): Option<nat>
    decreases |s| - from
  {
    if from + |sep| > |s| then None
    else if OccursAt(s, sep, from) then Some(from)
    else FirstOccurrence(s, sep, from + 1)
  }

  /** The match found is an occurrence with none before it; no match means no occurrence. */
  lemma {:induction false} FirstOccurrenceLeftmost(s: string, sep: string, from: nat)
    decreases |s| - from
    ensures var r := FirstOccurrence(s, sep, from);
      r.Some? ==> (from <= r.value && OccursAt(s, sep, r.value) &&
                   forall j :: from <= j < r.value ==> !OccursAt(s, sep, j))
    ensures FirstOccurrence(s, sep, from).None? ==> forall j: nat :: from <= j ==> !OccursAt(s, sep, j)
  {
    if from + |sep| <= |s| && !OccursAt(s, sep, from) {
      FirstOccurrenceLeftmost(s, sep, from + 1);
    }
  }

  /** The pieces between successive non-overlapping occurrences of sep, leftmost first. */
  function SplitAll(s: string, sep: string): (r: seq<string>)
    requires |sep| > 0
    decreases |s|
  {
    match FirstOccurrence(s, sep, 0)
    case None => [s]
    case Some(k) =>
      FirstOccurrenceLeftmost(s, sep, 0);
      [s[..k]] + SplitAll(s[k + |sep|..], sep)
  }

  function DropTrailingEmpty(parts: seq<string>): seq<string>
  {
    if |parts| > 0 && parts[|parts| - 1] == "" then DropTrailingEmpty(parts[..|parts| - 1]) else parts
  }

  /** What is dropped is exactly the run of empty pieces at the end: the rest is a prefix
      that does not end in an empty piece. */
  lemma {:induction false} DropTrailingEmptyTail(parts: seq<string>)
    ensures var r := DropTrailingEmpty(parts);
      |r| <= |parts| && r == parts[..|r|] && (|r| > 0 ==> r[|r| - 1] != "") &&
      forall k :: |r| <= k < |parts| ==> parts[k] == ""
  {
    if |parts| > 0 && parts[|parts| - 1] == "" {
      DropTrailingEmptyTail(parts[..|parts| - 1]);
    }
  }

  /** s.split(sep) with limit 0: without any match the whole string comes back as the one
      piece; otherwise the pieces, with the empty pieces at the end removed. */
  function Split(s: string, sep: string): (r: seq<string>)
    requires |sep| > 0
  {
    if FirstOccurrence(s, sep, 0).None? then [s] else DropTrailingEmpty(SplitAll(s, sep))
  }

  /** x + y holds no occurrence of sep when x lacks sep's first character and y lacks its second. */
  lemma NoOccurrenceWithout(x: string, y: string, sep: string)
    requires |sep| >= 2 && sep[0] !in x && sep[1] !in y
    ensures forall j: nat :: !OccursAt(x + y, sep, j)
  {
  }

  /** Splitting a + sep + b, where sep does not start inside a, yields a then the pieces of b. */
  lemma SplitAllAt(a: string, sep: string, b: string)
    requires |sep| > 0
    requires forall j: nat :: j < |a| ==> !OccursAt(a + sep + b, sep, j)
    ensures SplitAll(a + sep + b, sep) == [a] + SplitAll(b, sep)
  {
    var s := a + sep + b;
    assert s[|a|..|a| + |sep|] == sep;
    assert OccursAt(s, sep, |a|);
    FirstOccurrenceLeftmost(s, sep, 0);
    var first := FirstOccurrence(s, sep, 0);
    assert first == Some(|a|);
    assert s[..|a|] == a;
    assert s[|a| + |sep|..] == b;
  }

  /** A string holding no occurrence is its own only piece. */
  lemma SplitAllNone(s: string, sep: string)
    requires |sep| > 0
    requires forall j: nat :: !OccursAt(s, sep, j)
    ensures SplitAll(s, sep) == [s]
  {
    FirstOccurrenceLeftmost(s, sep, 0);
    assert FirstOccurrence(s, sep, 0).None?;
  }

  /** Exactly one occurrence of sep, with non-empty text after it: split gives the two sides. */
  lemma {:induction false} SplitOnce(a: string, sep: string, b: string)
    requires |sep| > 0 && b != ""
    requires forall j: nat :: j < |a| ==> !OccursAt(a + sep + b, sep, j)
    requires forall j: nat :: !OccursAt(b, sep, j)
    ensures Split(a + sep + b, sep) == [a, b]
  {
    var s := a + sep + b;
    SplitAllAt(a, sep, b);
    SplitAllNone(b, sep);
    assert s[|a|..|a| + |sep|] == sep;
    assert OccursAt(s, sep, |a|);
    FirstOccurrenceLeftmost(s, sep, 0);
    assert FirstOccurrence(s, sep, 0).Some?;
    assert SplitAll(s, sep) == [a, b];
  }

  /** String.compareTo: the difference of the first differing UTF-16 units, or of the
      lengths when one string is a prefix of the other. */
  function CompareTo(a: string, b: string): int
  {
    if a == [] || b == [] then |a| - |b|
    else if a[0] != b[0] then a[0] as int - b[0] as int
    else CompareTo(a[1..], b[1..])
  }

  /** The strict order a sort with Comparator.comparing(String key) uses. */
  predicate Less(a: string, b: string) { CompareTo(a, b) < 0 }

  lemma {:induction false} CompareToZero(a: string, b: string)
    ensures CompareTo(a, b) == 0 <==> a == b
  {
    if a != [] && b != [] && a[0] == b[0] {
      CompareToZero(a[1..], b[1..]);
      assert a == [a[0]] + a[1..] && b == [b[0]] + b[1..];
    }
  }

  lemma {:induction false} CompareToAntisymmetric(a: string, b: string)
    ensures CompareTo(a, b) < 0 <==> CompareTo(b, a) > 0
  {
    if a != [] && b != [] && a[0] == b[0] {
      CompareToAntisymmetric(a[1..], b[1..]);
    }
  }

  lemma {:induction false} LessTransitive(a: string, b: string, c: string)
    requires Less(a, b) && Less(b, c)
    ensures Less(a, c)
  {
    if a != [] && b != [] && c != [] && a[0] == b[0] && b[0] == c[0] {
      LessTransitive(a[1..], b[1..], c[1..]);
    }
  }

  /** Not-less is transitive, the property a sorted list leans on. */
  lemma NotLessTransitive(a: string, b: string, c: string)
    requires !Less(b, a) && !Less(c, b)
    ensures !Less(c, a)
  {
    if a != b && b != c {
      CompareToZero(a, b);
      CompareToZero(b, c);
      CompareToAntisymmetric(b, a);
      CompareToAntisymmetric(c, b);
      LessTransitive(a, b, c);
      CompareToAntisymmetric(a, c);
    }
  }

  lemma LessIrreflexive(a: string)
    ensures !Less(a, a)
  {
    CompareToZero(a, a);
  }

  lemma LessAsymmetric(a: string, b: string)
    requires Less(a, b)
    ensures !Less(b, a)
  {
    CompareToAntisymmetric(a, b);
  }

  /** Two strings of equal length agreeing up to a point compare as what follows. */
  lemma {:induction false} CompareToAppend(x: string, y: string, u: string, v: string)
    requires |x| == |y|
    ensures x == y ==> CompareTo(x + u, y + v) == CompareTo(u, v)
    ensures x != y ==> CompareTo(x + u, y + v) == CompareTo(x, y)
  {
    if x != [] {
      assert (x + u)[1..] == x[1..] + u;
      assert (y + v)[1..] == y[1..] + v;
      CompareToAppend(x[1..], y[1..], u, v);
      if x[0] == y[0] && x != y {
        assert x[1..] != y[1..] by { assert x == [x[0]] + x[1..] && y == [y[0]] + y[1..]; }
      }
      if x[0] == y[0] && x == y {
        assert x[1..] == y[1..];
      }
    } else {
      assert x + u == u && y + v == v;
    }
  }
}
