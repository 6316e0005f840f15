/**
 * The three lodash collection helpers the resolvers call, each with the
 * one-property matcher shorthand `{ field: v }`: a record matches when the
 * chosen field (given here as a key function) equals `v`.
 *
 * - `_.find(xs, { field: v })`   : the first matching record, or `undefined`
 * - `_.filter(xs, { field: v })` : every matching record, in collection order
 * - `_.remove(xs, { field: v })` : drops every matching record from `xs` in place
 *                                  and returns the dropped ones, in order
 */
module Lodash {
  import opened Wrappers

  /** `i` is the position of the first record of `xs` whose key is `v`. */
  ghost predicate IsFirstMatch<T, K>(xs: seq<T>, key: T -> K, v: K, i: int) {
    && 0 <= i < |xs|
    && key(xs[i]) == v
    && forall j :: 0 <= j < i ==> key(xs[j]) != v
  }

  /** No record of `xs` has key `v`. */
  ghost predicate NoMatch<T, K>(xs: seq<T>, key: T -> K, v: K) {
    forall j :: 0 <= j < |xs| ==> key(xs[j]) != v
  }

  /** No two records of `xs` share a key. */
  ghost predicate UniqueKeys<T, K>(xs: seq<T>, key: T -> K) {
    forall i, j :: 0 <= i < j < |xs| ==> key(xs[i]) != key(xs[j])
  }

  /** Position of the first record whose key is `v` (the scan `_.find` performs). */
  function FindIndex<T, K(==)>(xs: seq<T>, key: T -> K, v: K): (r: Option<nat>)
    ensures r.Some? ==> IsFirstMatch(xs, key, v, r.value)
    ensures r.None? <==> NoMatch(xs, key, v)
  {
    if |xs| == 0 then None
    else if key(xs[0]) == v then Some(0)
    else match FindIndex(xs[1..], key, v)
      case None => None
      case Some(i) => Some(i + 1)
  }

  /** `_.find(xs, { field: v })`. */
  function Find<T, K(==)>(xs: seq<T>, key: T -> K, v: K): (r: Option<T>)
    ensures r.None? <==> NoMatch(xs, key, v)
    ensures r.Some? ==> exists i :: IsFirstMatch(xs, key, v, i) && r.value == xs[i]
    ensures forall i | IsFirstMatch(xs, key, v, i) :: r == Some(xs[i])
  {
    match FindIndex(xs, key, v)
    case None => None
    case Some(i) => Some(xs[i])
  }

  /** `_.filter(xs, { field: v })`. */
  function Filter<T, K(==)>(xs: seq<T>, key: T -> K, v: K): (r: seq<T>)
    ensures |r| <= |xs|
    ensures r == [] <==> NoMatch(xs, key, v)
    ensures forall x :: x in r ==> x in xs && key(x) == v
    ensures forall i :: 0 <= i < |xs| && key(xs[i]) == v ==> xs[i] in r
  {
    if |xs| == 0 then []
    else (if key(xs[0]) == v then [xs[0]] else []) + Filter(xs[1..], key, v)
  }

  /** The records `_.remove(xs, { field: v })` leaves behind in `xs`. */
  function Reject<T, K(==)>(xs: seq<T>, key: T -> K, v: K): (r: seq<T>)
    ensures |r| <= |xs|
    ensures forall x :: x in r ==> x in xs && key(x) != v
    ensures forall i :: 0 <= i < |xs| && key(xs[i]) != v ==> xs[i] in r
  {
    if |xs| == 0 then []
    else (if key(xs[0]) != v then [xs[0]] else []) + Reject(xs[1..], key, v)
  }

  /** Filtering distributes over concatenation, so it keeps collection order. */
  lemma {:induction false} FilterConcat<T, K>(a: seq<T>, b: seq<T>, key: T -> K, v: K)
    ensures Filter(a + b, key, v) == Filter(a, key, v) + Filter(b, key, v)
  {
    if |a| == 0 {
      assert a + b == b;
    } else {
      var ab := a + b;
      assert ab[0] == a[0];
      assert ab[1..] == a[1..] + b;
      FilterConcat(a[1..], b, key, v);
      var h := if key(a[0]) == v then [a[0]] else [];
      calc {
        Filter(ab, key, v);
        h + Filter(a[1..] + b, key, v);
        h + (Filter(a[1..], key, v) + Filter(b, key, v));
        (h + Filter(a[1..], key, v)) + Filter(b, key, v);
      }
    }
  }

  /** What `_.remove` leaves behind also keeps collection order. */
  lemma {:induction false} RejectConcat<T, K>(a: seq<T>, b: seq<T>, key: T -> K, v: K)
    ensures Reject(a + b, key, v) == Reject(a, key, v) + Reject(b, key, v)
  {
    if |a| == 0 {
      assert a + b == b;
    } else {
      var ab := a + b;
      assert ab[0] == a[0];
      assert ab[1..] == a[1..] + b;
      RejectConcat(a[1..], b, key, v);
      var h := if key(a[0]) != v then [a[0]] else [];
      calc {
        Reject(ab, key, v);
        h + Reject(a[1..] + b, key, v);
        h + (Reject(a[1..], key, v) + Reject(b, key, v));
        (h + Reject(a[1..], key, v)) + Reject(b, key, v);
      }
    }
  }

  /** The filtered records are exactly the matching ones, with their multiplicity. */
  lemma {:induction false} FilterCount<T, K>(xs: seq<T>, key: T -> K, v: K, x: T)
    ensures multiset(Filter(xs, key, v))[x] == if key(x) == v then multiset(xs)[x] else 0
  {
    if |xs| > 0 {
      assert xs == [xs[0]] + xs[1..];
      FilterCount(xs[1..], key, v, x);
    }
  }

  /** `_.remove` splits the collection: removed and remaining records together are the original ones. */
  lemma {:induction false} RemovePartition<T, K>(xs: seq<T>, key: T -> K, v: K)
    ensures multiset(Filter(xs, key, v)) + multiset(Reject(xs, key, v)) == multiset(xs)
  {
    if |xs| > 0 {
      assert xs == [xs[0]] + xs[1..];
      RemovePartition(xs[1..], key, v);
    }
  }

  /** `_.find` returns the head of what `_.filter` would return with the same matcher. */
  lemma {:induction false} FindIsFirstFiltered<T, K>(xs: seq<T>, key: T -> K, v: K)
    ensures Find(xs, key, v) == if Filter(xs, key, v) == [] then None else Some(Filter(xs, key, v)[0])
  {
    if |xs| > 0 && key(xs[0]) != v {
      FindIsFirstFiltered(xs[1..], key, v);
      if Find(xs[1..], key, v).Some? {
        var i :| IsFirstMatch(xs[1..], key, v, i) && Find(xs[1..], key, v).value == xs[1..][i];
        assert IsFirstMatch(xs, key, v, i + 1);
      }
    }
  }

  /** Appending a record changes what `_.find` returns only when nothing matched before. */
  lemma FindAppend<T, K>(xs: seq<T>, x: T, key: T -> K, v: K)
    ensures Find(xs + [x], key, v) ==
      if NoMatch(xs, key, v) then (if key(x) == v then Some(x) else None) else Find(xs, key, v)
  {
    var ys := xs + [x];
    if NoMatch(xs, key, v) {
      if key(x) == v {
        assert IsFirstMatch(ys, key, v, |xs|);
      }
    } else {
      assert Find(xs, key, v).Some?;
      var i :| IsFirstMatch(xs, key, v, i) && Find(xs, key, v).value == xs[i];
      assert IsFirstMatch(ys, key, v, i);
    }
  }

  /** Overwriting the first match with a record of the same key makes `_.find` return the new record. */
  lemma FindAfterSet<T, K>(xs: seq<T>, key: T -> K, v: K, i: nat, y: T)
    requires IsFirstMatch(xs, key, v, i)
    requires key(y) == v
    ensures Find(xs[i := y], key, v) == Some(y)
  {
    assert IsFirstMatch(xs[i := y], key, v, i);
  }

  /** With unique keys, `_.find` by a record's own key returns that record. */
  lemma FindUnique<T, K>(xs: seq<T>, key: T -> K, i: nat)
    requires UniqueKeys(xs, key)
    requires i < |xs|
    ensures Find(xs, key, key(xs[i])) == Some(xs[i])
  {
    assert IsFirstMatch(xs, key, key(xs[i]), i);
  }

  /** With unique keys, every record occurs exactly once. */
  lemma {:induction false} UniqueOccursOnce<T, K>(xs: seq<T>, key: T -> K, i: nat)
    requires UniqueKeys(xs, key)
    requires i < |xs|
    ensures multiset(xs)[xs[i]] == 1
  {
    assert xs == [xs[0]] + xs[1..];
    assert UniqueKeys(xs[1..], key);
    if i == 0 {
      assert xs[0] !in xs[1..];
    } else {
      assert xs[i] != xs[0];
      UniqueOccursOnce(xs[1..], key, i - 1);
    }
  }

  /** With unique keys, `_.filter` by key (and so `_.remove`) yields at most one record. */
  lemma {:induction false} FilterUniqueAtMostOne<T, K>(xs: seq<T>, key: T -> K, v: K)
    requires UniqueKeys(xs, key)
    ensures |Filter(xs, key, v)| <= 1
  {
    if |xs| > 0 {
      assert UniqueKeys(xs[1..], key);
      FilterUniqueAtMostOne(xs[1..], key, v);
      if key(xs[0]) == v {
        assert NoMatch(xs[1..], key, v);
      }
    }
  }

  /** Appending keeps keys unique exactly when the new key is fresh. */
  lemma AppendUnique<T, K>(xs: seq<T>, x: T, key: T -> K)
    requires UniqueKeys(xs, key)
    ensures UniqueKeys(xs + [x], key) <==> NoMatch(xs, key, key(x))
  {
    var ys := xs + [x];
    if !NoMatch(xs, key, key(x)) {
      var j :| 0 <= j < |xs| && key(xs[j]) == key(x);
      assert key(ys[j]) == key(ys[|xs|]);
    }
  }

  /** Removing records keeps keys unique. */
  lemma {:induction false} RejectUnique<T, K>(xs: seq<T>, key: T -> K, v: K)
    requires UniqueKeys(xs, key)
    ensures UniqueKeys(Reject(xs, key, v), key)
  {
    if |xs| > 0 {
      assert UniqueKeys(xs[1..], key);
      RejectUnique(xs[1..], key, v);
      var rest := Reject(xs[1..], key, v);
      assert forall j :: 0 <= j < |rest| ==> key(rest[j]) != key(xs[0]) by {
        forall j | 0 <= j < |rest|
          ensures key(rest[j]) != key(xs[0])
        {
          assert rest[j] in xs[1..];
          var k :| 0 <= k < |xs[1..]| && xs[1..][k] == rest[j];
          assert xs[k + 1] == rest[j];
        }
      }
    }
  }

  /** Overwriting a record with one of the same key keeps keys unique. */
  lemma SetUnique<T, K>(xs: seq<T>, key: T -> K, i: nat, y: T)
    requires UniqueKeys(xs, key)
    requires i < |xs| && key(y) == key(xs[i])
    ensures UniqueKeys(xs[i := y], key)
  {
  }

  /** `_.filter` keeps the relative order of the records it selects. */
  lemma FilterKeepsOrder<T, K>(xs: seq<T>, key: T -> K, v: K, i: nat, j: nat)
    requires i < j < |xs| && key(xs[i]) == v && key(xs[j]) == v
    ensures exists p, q :: 0 <= p < q < |Filter(xs, key, v)|
              && Filter(xs, key, v)[p] == xs[i] && Filter(xs, key, v)[q] == xs[j]
  {
    var a, b, c := xs[..i], xs[i + 1..j], xs[j + 1..];
    assert xs == a + ([xs[i]] + (b + ([xs[j]] + c)));
    FilterConcat(a, [xs[i]] + (b + ([xs[j]] + c)), key, v);
    FilterConcat([xs[i]], b + ([xs[j]] + c), key, v);
    FilterConcat(b, [xs[j]] + c, key, v);
    FilterConcat([xs[j]], c, key, v);
    assert Filter([xs[i]], key, v) == [xs[i]];
    assert Filter([xs[j]], key, v) == [xs[j]];
    var p := |Filter(a, key, v)|;
    var q := p + 1 + |Filter(b, key, v)|;
    assert Filter(xs, key, v)[p] == xs[i];
    assert Filter(xs, key, v)[q] == xs[j];
  }

  /** What `_.remove` leaves behind keeps the relative order of the surviving records. */
  lemma RejectKeepsOrder<T, K>(xs: seq<T>, key: T -> K, v: K, i: nat, j: nat)
    requires i < j < |xs| && key(xs[i]) != v && key(xs[j]) != v
    ensures exists p, q :: 0 <= p < q < |Reject(xs, key, v)|
              && Reject(xs, key, v)[p] == xs[i] && Reject(xs, key, v)[q] == xs[j]
  {
    var a, b, c := xs[..i], xs[i + 1..j], xs[j + 1..];
    assert xs == a + ([xs[i]] + (b + ([xs[j]] + c)));
    RejectConcat(a, [xs[i]] + (b + ([xs[j]] + c)), key, v);
    RejectConcat([xs[i]], b + ([xs[j]] + c), key, v);
    RejectConcat(b, [xs[j]] + c, key, v);
    RejectConcat([xs[j]], c, key, v);
    assert Reject([xs[i]], key, v) == [xs[i]];
    assert Reject([xs[j]], key, v) == [xs[j]];
    var p := |Reject(a, key, v)|;
    var q := p + 1 + |Reject(b, key, v)|;
    assert Reject(xs, key, v)[p] == xs[i];
    assert Reject(xs, key, v)[q] == xs[j];
  }

  /** When nothing matches, `_.remove` leaves the collection exactly as it was. */
  lemma {:induction false} RejectNoMatch<T, K>(xs: seq<T>, key: T -> K, v: K)
    requires NoMatch(xs, key, v)
    ensures Reject(xs, key, v) == xs
  {
    if |xs| > 0 {
      assert NoMatch(xs[1..], key, v);
      RejectNoMatch(xs[1..], key, v);
      assert xs == [xs[0]] + xs[1..];
    }
  }

  /** Removing the records keyed `v` does not change which records are keyed `w != v`. */
  lemma {:induction false} FilterAfterReject<T, K>(xs: seq<T>, key: T -> K, v: K, w: K)
    requires v != w
    ensures Filter(Reject(xs, key, v), key, w) == Filter(xs, key, w)
  {
    if |xs| > 0 {
      FilterAfterReject(xs[1..], key, v, w);
      var head := if key(xs[0]) != v then [xs[0]] else [];
      FilterConcat(head, Reject(xs[1..], key, v), key, w);
    }
  }

  /** `_.find` by any other key gives the same answer before and after a `_.remove`. */
  lemma FindAfterReject<T, K>(xs: seq<T>, key: T -> K, v: K, w: K)
    requires v != w
    ensures Find(Reject(xs, key, v), key, w) == Find(xs, key, w)
  {
    FilterAfterReject(xs, key, v, w);
    FindIsFirstFiltered(xs, key, w);
    FindIsFirstFiltered(Reject(xs, key, v), key, w);
  }

  /** Overwriting a record that does not match `w` with another that does not leaves `_.find` by `w` unchanged. */
  lemma FindAfterSetOther<T, K>(xs: seq<T>, key: T -> K, w: K, i: nat, y: T)
    requires i < |xs| && key(xs[i]) != w && key(y) != w
    ensures Find(xs[i := y], key, w) == Find(xs, key, w)
  {
    var ys := xs[i := y];
    if !NoMatch(xs, key, w) {
      assert Find(xs, key, w).Some?;
      var k :| IsFirstMatch(xs, key, w, k) && Find(xs, key, w).value == xs[k];
      assert IsFirstMatch(ys, key, w, k);
    } else {
      assert NoMatch(ys, key, w);
    }
  }
}
