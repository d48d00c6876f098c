/** The two java.util list operations the screen uses on its hyperlinks:
    Collections.sort with Comparator.comparing(key), a stable sort (the result is
    non-decreasing by String.compareTo on the keys, holds the same elements, and keeps
    the input order among elements whose keys are equal), and List.remove(Object). */
module ListOps {
  import opened JavaStrings

  /** Non-decreasing by key: no element's key is less than an earlier element's. */
  predicate Sorted<T>(s: seq<T>, key: T -> string)
  {
    forall p, q :: 0 <= p < q < |s| ==> !Less(key(s[q]), key(s[p]))
  }

  /** The elements whose key is t, in list order. A sort keeps the order among elements
      with equal keys exactly when it keeps every one of these subsequences. */
  function WithKey<T>(s: seq<T>, key: T -> string, t: string): seq<T>
  {
    if s == [] then []
    else WithKey(s[..|s| - 1], key, t) + (if key(s[|s| - 1]) == t then [s[|s| - 1]] else [])
  }

  predicate Distinct<T(==)>(s: seq<T>)
  {
    forall p, q :: 0 <= p < q < |s| ==> s[p] != s[q]
  }

  lemma {:induction false} WithKeyAppend<T>(a: seq<T>, b: seq<T>, key: T -> string, t: string)
    ensures WithKey(a + b, key, t) == WithKey(a, key, t) + WithKey(b, key, t)
  {
    if b != [] {
      var b' := b[..|b| - 1];
      assert (a + b)[..|a + b| - 1] == a + b';
      WithKeyAppend(a, b', key, t);
    } else {
      assert a + b == a;
    }
  }

  /** No element of r from index j on has key t when all their keys are greater than t. */
  lemma {:induction false} WithKeyAllGreater<T>(r: seq<T>, j: nat, key: T -> string, t: string)
    requires j <= |r|
    requires forall k :: j <= k < |r| ==> Less(t, key(r[k]))
    ensures WithKey(r[j..], key, t) == []
  {
    if j < |r| {
      var r' := r[..|r| - 1];
      assert r[j..][..|r[j..]| - 1] == r'[j..];
      WithKeyAllGreater(r', j, key, t);
      LessIrreflexive(t);
    }
  }

  /** Inserting x after the elements whose keys are not greater than its own and before a
      run of elements whose keys are all greater keeps the list sorted. */
  lemma InsertKeepsSorted<T>(r: seq<T>, j: nat, x: T, key: T -> string)
    requires Sorted(r, key) && j <= |r|
    requires j > 0 ==> !Less(key(x), key(r[j - 1]))
    requires forall k :: j <= k < |r| ==> Less(key(x), key(r[k]))
    ensures Sorted(r[..j] + [x] + r[j..], key)
  {
    var s := r[..j] + [x] + r[j..];
    forall p, q | 0 <= p < q < |s|
      ensures !Less(key(s[q]), key(s[p]))
    {
      if q < j {
        assert s[p] == r[p] && s[q] == r[q];
      } else if q == j {
        assert s[p] == r[p] && s[q] == x;
        if p < j - 1 {
          NotLessTransitive(key(r[p]), key(r[j - 1]), key(x));
        }
      } else if p < j {
        assert s[p] == r[p] && s[q] == r[q - 1];
      } else if p == j {
        assert s[p] == x && s[q] == r[q - 1];
        LessAsymmetric(key(x), key(r[q - 1]));
      } else {
        assert s[p] == r[p - 1] && s[q] == r[q - 1];
      }
    }
  }

  /** The same insertion puts x last among the elements with its key and changes no other
      key's subsequence. */
  lemma InsertWithKey<T>(r: seq<T>, j: nat, x: T, key: T -> string, t: string)
    requires j <= |r|
    requires forall k :: j <= k < |r| ==> Less(key(x), key(r[k]))
    ensures WithKey(r[..j] + [x] + r[j..], key, t) == WithKey(r, key, t) + (if key(x) == t then [x] else [])
  {
    var a, b := r[..j], r[j..];
    WithKeySplit(a, x, b, key, t);
    assert a + b == r;
    WithKeyAppend(a, b, key, t);
    if key(x) == t {
      WithKeyAllGreater(r, j, key, t);
    }
  }

  lemma WithKeySplit<T>(a: seq<T>, x: T, b: seq<T>, key: T -> string, t: string)
    ensures WithKey(a + [x] + b, key, t) == WithKey(a, key, t) + (if key(x) == t then [x] else []) + WithKey(b, key, t)
  {
    WithKeyAppend(a + [x], b, key, t);
    WithKeyAppend(a, [x], key, t);
    WithKeySingle(x, key, t);
  }

  /** Insertion sort: each element goes after every element already placed whose key is
      not greater than its own. */
  method Sort<T(==)>(s: seq<T>, key: T -> string) returns (r: seq<T>)
    ensures Sorted(r, key)
    ensures multiset(r) == multiset(s)
    ensures forall t :: WithKey(r, key, t) == WithKey(s, key, t)
    ensures Distinct(s) ==> Distinct(r)
  {
    r := [];
    var i := 0;
    while i < |s|
      invariant i <= |s|
      invariant Sorted(r, key)
      invariant multiset(r) == multiset(s[..i])
      invariant forall t :: WithKey(r, key, t) == WithKey(s[..i], key, t)
      invariant Distinct(s) ==> Distinct(r)
    {
      var x := s[i];
      var j := InsertionPoint(r, x, key);
      assert s[..i + 1] == s[..i] + [x];
      if Distinct(s) {
        DistinctPrefix(s, i);
      }
      InsertStep(r, j, x, key, s[..i], Distinct(s));
      r := r[..j] + [x] + r[j..];
      i := i + 1;
    }
    assert s[..i] == s;
  }

  /** Where the insertion sort puts x: scanning back from the end, past every element
      whose key is greater than x's, up to the first one whose key is not. */
  method InsertionPoint<T>(r: seq<T>, x: T, key: T -> string) returns (j: nat)
    ensures j <= |r|
    ensures j > 0 ==> !Less(key(x), key(r[j - 1]))
    ensures forall k :: j <= k < |r| ==> Less(key(x), key(r[k]))
  {
    j := |r|;
    while j > 0 && Less(key(x), key(r[j - 1]))
      invariant 0 <= j <= |r|
      invariant forall k :: j <= k < |r| ==> Less(key(x), key(r[k]))
    {
      j := j - 1;
    }
  }

  lemma DistinctPrefix<T>(s: seq<T>, i: nat)
    requires Distinct(s) && i < |s|
    ensures s[i] !in s[..i]
  {
  }

  /** One round of the insertion sort keeps every loop invariant, with x added to the
      elements already placed. */
  lemma InsertStep<T>(r: seq<T>, j: nat, x: T, key: T -> string, placed: seq<T>, distinct: bool)
    requires Sorted(r, key) && j <= |r|
    requires j > 0 ==> !Less(key(x), key(r[j - 1]))
    requires forall k :: j <= k < |r| ==> Less(key(x), key(r[k]))
    requires multiset(r) == multiset(placed)
    requires forall t :: WithKey(r, key, t) == WithKey(placed, key, t)
    requires distinct ==> Distinct(r) && x !in placed
    ensures Sorted(r[..j] + [x] + r[j..], key)
    ensures multiset(r[..j] + [x] + r[j..]) == multiset(placed + [x])
    ensures forall t :: WithKey(r[..j] + [x] + r[j..], key, t) == WithKey(placed + [x], key, t)
    ensures distinct ==> Distinct(r[..j] + [x] + r[j..])
  {
    InsertKeepsSorted(r, j, x, key);
    forall t
      ensures WithKey(r[..j] + [x] + r[j..], key, t) == WithKey(placed + [x], key, t)
    {
      InsertWithKey(r, j, x, key, t);
      WithKeyAppend(placed, [x], key, t);
      WithKeySingle(x, key, t);
    }
    InsertMultiset(r, j, x);
    if distinct {
      assert x !in multiset(placed);
      DistinctInsert(r, j, x);
    }
  }

  lemma WithKeySingle<T>(x: T, key: T -> string, t: string)
    ensures WithKey([x], key, t) == (if key(x) == t then [x] else [])
  {
  }

  lemma InsertMultiset<T>(r: seq<T>, j: nat, x: T)
    requires j <= |r|
    ensures multiset(r[..j] + [x] + r[j..]) == multiset(r) + multiset{x}
  {
    assert r == r[..j] + r[j..];
  }

  lemma DistinctInsert<T>(r: seq<T>, j: nat, x: T)
    requires Distinct(r) && j <= |r| && x !in r
    ensures Distinct(r[..j] + [x] + r[j..])
  {
  }

  /** Deleting one position keeps the list sorted. */
  lemma DeleteKeepsOrder<T>(s: seq<T>, k: nat, key: T -> string)
    requires Sorted(s, key) && k < |s|
    ensures Sorted(s[..k] + s[k + 1..], key)
  {
  }

  /** List.remove(Object): the first element equal to x goes; without one nothing changes. */
  function Remove<T(==)>(s: seq<T>, x: T): seq<T>
  {
    if s == [] then []
    else if s[0] == x then s[1..]
    else [s[0]] + Remove(s[1..], x)
  }

  /** Removal takes away one copy of x when there is one, and otherwise changes nothing. */
  lemma {:induction false} RemoveMultiset<T>(s: seq<T>, x: T)
    ensures x !in s ==> Remove(s, x) == s
    ensures multiset(Remove(s, x)) == multiset(s) - multiset{x}
  {
    if s != [] {
      assert s == [s[0]] + s[1..];
      if s[0] != x {
        RemoveMultiset(s[1..], x);
      }
    }
  }

  /** Removing the first occurrence, at index k, deletes exactly that position. */
  lemma {:induction false} RemoveAt<T>(s: seq<T>, x: T, k: nat)
    requires k < |s| && s[k] == x && forall j :: 0 <= j < k ==> s[j] != x
    ensures Remove(s, x) == s[..k] + s[k + 1..]
  {
    if k > 0 {
      var t := s[1..];
      RemoveAt(t, x, k - 1);
      assert t[..k - 1] + t[k..] == (s[..k] + s[k + 1..])[1..];
    }
  }

  /** The first index at which x occurs, given one occurrence at k. */
  lemma {:induction false} FirstIndex<T>(s: seq<T>, x: T, k: nat) returns (m: nat)
    requires k < |s| && s[k] == x
    ensures m <= k && s[m] == x && x !in s[..m]
  {
    if x in s[..k] {
      var p :| 0 <= p < k && s[..k][p] == x;
      m := FirstIndex(s, x, p);
    } else {
      m := k;
    }
  }

  /** Removal deletes one position, the first that holds x, or none when x is absent. */
  lemma RemoveDeletesOne<T>(s: seq<T>, x: T) returns (k: nat)
    requires x in s
    ensures k < |s| && s[k] == x && x !in s[..k]
    ensures Remove(s, x) == s[..k] + s[k + 1..]
  {
    var k0 :| 0 <= k0 < |s| && s[k0] == x;
    k := FirstIndex(s, x, k0);
    RemoveAt(s, x, k);
  }

  /** The loop of List.remove(Object): find the first index holding x, then close the gap. */
  method RemoveFirst<T(==)>(s: seq<T>, x: T) returns (r: seq<T>)
    ensures r == Remove(s, x)
  {
    var k := 0;
    while k < |s| && s[k] != x
      invariant k <= |s| && x !in s[..k]
    {
      assert s[..k + 1] == s[..k] + [s[k]];
      k := k + 1;
    }
    if k < |s| {
      RemoveAt(s, x, k);
      r := s[..k] + s[k + 1..];
    } else {
      assert s[..k] == s;
      RemoveMultiset(s, x);
      r := s;
    }
  }

  /** In a list without duplicates, removal takes away that element and keeps every other
      element, in the same relative order. */
  lemma RemoveExactly<T>(s: seq<T>, x: T)
    requires Distinct(s) && x in s
    ensures exists k :: 0 <= k < |s| && s[k] == x && Remove(s, x) == s[..k] + s[k + 1..]
    ensures x !in Remove(s, x) && Distinct(Remove(s, x))
  {
    var k := RemoveDeletesOne(s, x);
    DeleteKeepsDistinct(s, k);
  }

  /** Deleting one position of a list without duplicates leaves a list without duplicates
      that no longer holds the deleted element. */
  lemma DeleteKeepsDistinct<T>(s: seq<T>, k: nat)
    requires Distinct(s) && k < |s|
    ensures s[k] !in s[..k] + s[k + 1..] && Distinct(s[..k] + s[k + 1..])
  {
  }

  /** Removal keeps a list sorted. */
  lemma RemoveKeepsSorted<T>(s: seq<T>, x: T, key: T -> string)
    requires Sorted(s, key)
    ensures Sorted(Remove(s, x), key)
  {
    if x in s {
      var k := RemoveDeletesOne(s, x);
      DeleteKeepsOrder(s, k, key);
    } else {
      RemoveMultiset(s, x);
    }
  }

  /** Removal keeps a property every element has. */
  lemma RemoveKeepsAll<T>(s: seq<T>, x: T, ok: T -> bool)
    requires forall k :: 0 <= k < |s| ==> ok(s[k])
    ensures forall k :: 0 <= k < |Remove(s, x)| ==> ok(Remove(s, x)[k])
  {
  }
}
