/**
 Generic sequence operations the booking engine is built from: the
 order-preserving filter behind listing and search, the first-match scan
 behind every lookup, the all-or-nothing decoding of a list of records, and
 sums used to state seat conservation.
 */
module Seqs {
  import opened Results

  /** `sub` is obtained from `s` by deleting elements, keeping the order of the rest. */
  predicate IsSubseq<T(==)>(sub: seq<T>, s: seq<T>)
    decreases |s|
  {
    if sub == [] then true
    else if s == [] then false
    else (sub[0] == s[0] && IsSubseq(sub[1..], s[1..])) || IsSubseq(sub, s[1..])
  }

  /** A list comprehension `[x for x in s if p(x)]`. */
  function Filter<T(==)>(s: seq<T>, p: T -> bool): (r: seq<T>)
    ensures |r| <= |s|
    ensures forall x | x in r :: x in s && p(x)
    ensures forall x | x in s && p(x) :: x in r
    ensures forall x | x in s :: multiset(r)[x] == if p(x) then multiset(s)[x] else 0
    ensures IsSubseq(r, s)
  {
    if s == [] then []
    else
      var rest := Filter(s[1..], p);
      assert s == [s[0]] + s[1..];
      assert multiset(s) == multiset{s[0]} + multiset(s[1..]);
      if p(s[0]) then
        var r := [s[0]] + rest;
        assert r[1..] == rest;
        assert multiset(r) == multiset{s[0]} + multiset(rest);
        r
      else rest
  }

  /** The position of the first element satisfying `p`, scanning from the front. */
  function FirstIndex<T>(s: seq<T>, p: T -> bool): (r: Option<nat>)
    ensures r.Some? ==> r.value < |s| && p(s[r.value])
    ensures r.Some? ==> forall j | 0 <= j < r.value :: !p(s[j])
    ensures r.None? <==> forall j | 0 <= j < |s| :: !p(s[j])
  {
    if s == [] then None
    else if p(s[0]) then Some(0)
    else
      match FirstIndex(s[1..], p)
      case None => None
      case Some(k) => Some(k + 1)
  }

  /** Two predicates that agree on every element find the same first match. */
  lemma {:induction false} FirstIndexAgree<T>(s: seq<T>, p: T -> bool, s': seq<T>, q: T -> bool)
    requires |s| == |s'|
    requires forall j | 0 <= j < |s| :: p(s[j]) == q(s'[j])
    ensures FirstIndex(s, p) == FirstIndex(s', q)
  {
    if s != [] {
      FirstIndexAgree(s[1..], p, s'[1..], q);
    }
  }

  /** `[f(x) for x in xs]` where `f` may fail: the first failure in list
      order aborts the whole decoding, as a raised exception does. */
  function MapResult<A, B>(xs: seq<A>, f: A -> Result<B>): (r: Result<seq<B>>)
    ensures r.Ok? <==> forall i | 0 <= i < |xs| :: f(xs[i]).Ok?
    ensures r.Ok? ==> |r.value| == |xs| && forall i | 0 <= i < |xs| :: f(xs[i]) == Ok(r.value[i])
    ensures r.Err? ==> exists i | 0 <= i < |xs| :: f(xs[i]) == Err(r.error) && forall j | 0 <= j < i :: f(xs[j]).Ok?
  {
    if xs == [] then Ok([])
    else
      match f(xs[0])
      case Err(e) => Err(e)
      case Ok(y) =>
        match MapResult(xs[1..], f)
        case Err(e) =>
          assert exists i | 1 <= i < |xs| :: f(xs[i]) == Err(e) && forall j | 0 <= j < i :: f(xs[j]).Ok?;
          Err(e)
        case Ok(ys) => Ok([y] + ys)
  }

  /** When every element decodes, the decoding is exactly the sequence of decoded values. */
  lemma MapResultAllOk<A, B>(xs: seq<A>, f: A -> Result<B>, ys: seq<B>)
    requires |xs| == |ys|
    requires forall i | 0 <= i < |xs| :: f(xs[i]) == Ok(ys[i])
    ensures MapResult(xs, f) == Ok(ys)
  {
    var r := MapResult(xs, f);
    assert r.Ok?;
    assert forall i | 0 <= i < |xs| :: f(xs[i]) == Ok(r.value[i]);
    assert forall i | 0 <= i < |xs| :: r.value[i] == ys[i];
    assert r.value == ys;
  }

  /** `sum(f(x) for x in s)`. */
  function SumOf<T>(s: seq<T>, f: T -> int): int {
    if s == [] then 0 else f(s[0]) + SumOf(s[1..], f)
  }

  lemma {:induction false} SumAppend<T>(a: seq<T>, b: seq<T>, f: T -> int)
    ensures SumOf(a + b, f) == SumOf(a, f) + SumOf(b, f)
    decreases |a|
  {
    if a != [] {
      assert (a + b)[1..] == a[1..] + b;
      SumAppend(a[1..], b, f);
    } else {
      assert a + b == b;
    }
  }

  /** Replacing one element changes the sum by the difference of the two. */
  lemma {:induction false} SumUpdate<T>(s: seq<T>, i: nat, x: T, f: T -> int)
    requires i < |s|
    ensures SumOf(s[i := x], f) == SumOf(s, f) - f(s[i]) + f(x)
  {
    assert s == s[..i] + ([s[i]] + s[i + 1..]);
    assert s[i := x] == s[..i] + ([x] + s[i + 1..]);
    SumAppend(s[..i], [s[i]] + s[i + 1..], f);
    SumAppend(s[..i], [x] + s[i + 1..], f);
    SumAppend([s[i]], s[i + 1..], f);
    SumAppend([x], s[i + 1..], f);
  }

  /** Deleting one element lowers the sum by exactly that element's share. */
  lemma {:induction false} SumRemove<T>(s: seq<T>, i: nat, f: T -> int)
    requires i < |s|
    ensures SumOf(s[..i] + s[i + 1..], f) == SumOf(s, f) - f(s[i])
  {
    assert s == s[..i] + ([s[i]] + s[i + 1..]);
    SumAppend(s[..i], [s[i]] + s[i + 1..], f);
    SumAppend([s[i]], s[i + 1..], f);
    SumAppend(s[..i], s[i + 1..], f);
  }
}
