/** Vocabulary shared by the four services: optional values, results, record
    identities, HTTP status codes, and the order-preserving filter that models a
    document-store query with an equality filter. */
module Common {

  /** A JSON field that may be absent (or a document field that may be missing). */
  datatype Option<+T> = None | Some(value: T) {
    function GetOr(default: T): (r: T)
      ensures Some? ==> r == value
      ensures None? ==> r == default
    {
      match this
      case Some(v) => v
      case None => default
    }
  }

  datatype Result<+T, +E> = Success(value: T) | Failure(error: E)

  /** The `_id` of a stored document, and every reference to one. */
  type Id = nat

  const OK: int := 200
  const Created: int := 201
  const NoContent: int := 204
  const BadRequest: int := 400
  const Unauthorized: int := 401
  const Forbidden: int := 403
  const NotFound: int := 404
  const Conflict: int := 409
  const InternalError: int := 500

  /** The services test the `auth-token` header with `if not auth_header`, so an
      empty header is as missing as an absent one. */
  predicate HeaderPresent(header: Option<string>) {
    header.Some? && header.value != ""
  }

  /** The records of `s` that satisfy `keep`, in their original order: what a
      `find` or the survivors of a `delete_many` look like. */
  function Filter<T>(s: seq<T>, keep: T -> bool): (r: seq<T>)
    ensures forall i :: 0 <= i < |r| ==> r[i] in s && keep(r[i])
    ensures forall i :: 0 <= i < |s| && keep(s[i]) ==> s[i] in r
    ensures |r| <= |s|
    ensures |r| == |s| <==> forall i :: 0 <= i < |s| ==> keep(s[i])
  {
    if |s| == 0 then []
    else
      var rest := Filter(s[1..], keep);
      assert forall i :: 1 <= i < |s| ==> s[i] == s[1..][i - 1];
      if keep(s[0]) then [s[0]] + rest else rest
  }

  /** Filtering takes each record at most as often as it occurs: a `find`
      never repeats a document. */
  lemma {:induction false} FilterIsSubMultiset<T>(s: seq<T>, keep: T -> bool)
    ensures multiset(Filter(s, keep)) <= multiset(s)
  {
    if |s| > 0 {
      FilterIsSubMultiset(s[1..], keep);
      assert s == [s[0]] + s[1..];
    }
  }

  /** Filtering a concatenation filters each part. */
  lemma {:induction false} FilterAppend<T>(a: seq<T>, b: seq<T>, keep: T -> bool)
    ensures Filter(a + b, keep) == Filter(a, keep) + Filter(b, keep)
  {
    if |a| == 0 {
      assert a + b == b;
    } else {
      assert (a + b)[1..] == a[1..] + b;
      FilterAppend(a[1..], b, keep);
    }
  }

  /** The position of the first record of `s` that satisfies `p`: what
      `find_one` with an equality filter selects, in natural order. */
  function FirstMatch<T>(s: seq<T>, p: T -> bool): (r: Option<nat>)
    ensures r.Some? ==> r.value < |s| && p(s[r.value])
    ensures r.Some? ==> forall j :: 0 <= j < r.value ==> !p(s[j])
    ensures r.None? <==> forall j :: 0 <= j < |s| ==> !p(s[j])
  {
    if |s| == 0 then None
    else if p(s[0]) then Some(0)
    else match FirstMatch(s[1..], p)
      case None =>
        assert forall j :: 1 <= j < |s| ==> s[j] == s[1..][j - 1];
        None
      case Some(k) => Some(k + 1)
  }

  /** No two records of `s` share a key. */
  predicate DistinctKeys<T>(s: seq<T>, key: T -> Id) {
    forall i, j :: 0 <= i < j < |s| ==> key(s[i]) != key(s[j])
  }

  /** Filtering never creates a duplicate key. */
  lemma {:induction false} FilterKeepsDistinctKeys<T>(s: seq<T>, keep: T -> bool, key: T -> Id)
    requires DistinctKeys(s, key)
    ensures DistinctKeys(Filter(s, keep), key)
  {
    if |s| > 0 {
      var rest := Filter(s[1..], keep);
      assert DistinctKeys(s[1..], key) by {
        forall i, j | 0 <= i < j < |s[1..]| ensures key(s[1..][i]) != key(s[1..][j]) {
          assert s[1..][i] == s[i + 1] && s[1..][j] == s[j + 1];
        }
      }
      FilterKeepsDistinctKeys(s[1..], keep, key);
      if keep(s[0]) {
        var r := [s[0]] + rest;
        forall i, j | 0 <= i < j < |r| ensures key(r[i]) != key(r[j]) {
          if i == 0 {
            assert r[j] in s[1..];
            var k :| 0 <= k < |s[1..]| && s[1..][k] == r[j];
            assert s[k + 1] == r[j];
          } else {
            assert r[i] == rest[i - 1] && r[j] == rest[j - 1];
          }
        }
      }
    }
  }

  /** A key strictly above every key in `s`: the identity a new document gets. */
  function NextId<T>(s: seq<T>, key: T -> Id): (r: Id)
    ensures forall i :: 0 <= i < |s| ==> key(s[i]) < r
  {
    if |s| == 0 then 0
    else
      var rest := NextId(s[..|s| - 1], key);
      assert forall i :: 0 <= i < |s| - 1 ==> s[..|s| - 1][i] == s[i];
      if key(s[|s| - 1]) < rest then rest else key(s[|s| - 1]) + 1
  }

  /** Removing the record at `k` keeps the keys distinct. */
  lemma RemoveAtKeepsDistinctKeys<T>(s: seq<T>, k: nat, key: T -> Id)
    requires DistinctKeys(s, key) && k < |s|
    ensures DistinctKeys(s[..k] + s[k + 1..], key)
  {
  }
}
