/** Python's ordering of `str` values (code point by code point, a proper prefix
    before its extensions) and `sorted(..., key=..., reverse=True)`, which the chart
    service applies to the `created_date` field of fetched records. */
module Ordering {

  /** `a <= b` on Python strings. */
  predicate StrLeq(a: string, b: string)
    decreases |a|
  {
    |a| == 0 || (|b| > 0 && (a[0] < b[0] || (a[0] == b[0] && StrLeq(a[1..], b[1..]))))
  }

  lemma {:induction false} StrLeqReflexive(a: string)
    ensures StrLeq(a, a)
    decreases |a|
  {
    if |a| > 0 {
      StrLeqReflexive(a[1..]);
    }
  }

  lemma {:induction false} StrLeqTotal(a: string, b: string)
    ensures StrLeq(a, b) || StrLeq(b, a)
    decreases |a|
  {
    if |a| > 0 && |b| > 0 && a[0] == b[0] {
      StrLeqTotal(a[1..], b[1..]);
    }
  }

  lemma {:induction false} StrLeqTransitive(a: string, b: string, c: string)
    requires StrLeq(a, b) && StrLeq(b, c)
    ensures StrLeq(a, c)
    decreases |a|
  {
    if |a| > 0 && a[0] == b[0] && b[0] == c[0] {
      StrLeqTransitive(a[1..], b[1..], c[1..]);
    }
  }

  /** Every earlier element's key is at least every later element's key. */
  ghost predicate SortedDesc<T>(s: seq<T>, key: T -> string) {
    forall i, j :: 0 <= i < j < |s| ==> StrLeq(key(s[j]), key(s[i]))
  }

  /** Places `x` before the first element whose key does not exceed its own, so
      that `x` stays ahead of elements with an equal key (the sort is stable). */
  function Insert<T>(x: T, s: seq<T>, key: T -> string): (r: seq<T>)
    requires SortedDesc(s, key)
    ensures multiset(r) == multiset(s) + multiset{x}
    ensures SortedDesc(r, key)
  {
    if |s| == 0 then [x]
    else if StrLeq(key(s[0]), key(x)) then
      InsertAtHeadSorted(x, s, key);
      [x] + s
    else
      assert SortedDesc(s[1..], key) by {
        forall i, j | 0 <= i < j < |s[1..]| ensures StrLeq(key(s[1..][j]), key(s[1..][i])) {
          assert s[1..][i] == s[i + 1] && s[1..][j] == s[j + 1];
        }
      }
      var rest := Insert(x, s[1..], key);
      assert s == [s[0]] + s[1..];
      StrLeqTotal(key(s[0]), key(x));
      ConsBelowHeadSorted(s[0], rest, x, s, key);
      [s[0]] + rest
  }

  lemma InsertAtHeadSorted<T>(x: T, s: seq<T>, key: T -> string)
    requires SortedDesc(s, key)
    requires |s| > 0 && StrLeq(key(s[0]), key(x))
    ensures SortedDesc([x] + s, key)
  {
    var r := [x] + s;
    forall i, j | 0 <= i < j < |r| ensures StrLeq(key(r[j]), key(r[i])) {
      if i == 0 {
        if j > 1 {
          StrLeqTransitive(key(s[j - 1]), key(s[0]), key(x));
        }
      } else {
        assert r[i] == s[i - 1] && r[j] == s[j - 1];
      }
    }
  }

  /** `[h] + rest` is sorted when every element of `rest` came from the tail of a
      sorted `s` headed by `h`, or is an `x` whose key does not exceed `h`'s. */
  lemma ConsBelowHeadSorted<T>(h: T, rest: seq<T>, x: T, s: seq<T>, key: T -> string)
    requires |s| > 0 && s[0] == h
    requires SortedDesc(s, key) && SortedDesc(rest, key)
    requires multiset(rest) == multiset(s[1..]) + multiset{x}
    requires StrLeq(key(x), key(h))
    ensures SortedDesc([h] + rest, key)
  {
    var r := [h] + rest;
    forall i, j | 0 <= i < j < |r| ensures StrLeq(key(r[j]), key(r[i])) {
      if i == 0 {
        var y := rest[j - 1];
        assert y in multiset(rest);
        if y != x {
          assert y in multiset(s[1..]);
          assert y in s[1..];
          var k :| 0 <= k < |s[1..]| && s[1..][k] == y;
          assert s[k + 1] == y;
        }
      } else {
        assert r[i] == rest[i - 1] && r[j] == rest[j - 1];
      }
    }
  }

  /** `sorted(s, key=key, reverse=True)`: a stable insertion sort, descending. */
  function SortDesc<T>(s: seq<T>, key: T -> string): (r: seq<T>)
    ensures multiset(r) == multiset(s)
    ensures SortedDesc(r, key)
  {
    if |s| == 0 then []
    else
      assert s == [s[0]] + s[1..];
      Insert(s[0], SortDesc(s[1..], key), key)
  }
}
