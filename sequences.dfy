/** Array#delete_if, which the catalog uses to prune a freshly built list in
    place, a lookup of a key's position in an insertion-ordered table, and
    Array#map with a block that may raise, followed by `[0]`. */
module Sequences {
  import opened Wrappers

  /** The elements of s for which `doomed` is false, in their original order
      (what delete_if leaves behind). */
  function Reject<T>(s: seq<T>, doomed: T -> bool): (r: seq<T>)
    ensures |r| <= |s|
    ensures forall k :: 0 <= k < |r| ==> !doomed(r[k])
  {
    if s == [] then []
    else Reject(s[..|s| - 1], doomed) + (if doomed(s[|s| - 1]) then [] else [s[|s| - 1]])
  }

  /** delete_if on an array: compacts the survivors to the front, in order, and returns their number. */
  method DeleteIf<T>(a: array<T>, doomed: T -> bool) returns (n: nat)
    modifies a
    ensures n <= a.Length
    ensures a[..n] == Reject(old(a[..]), doomed)
  {
    ghost var s := a[..];
    var w, r := 0, 0;
    while r < a.Length
      invariant 0 <= w <= r <= a.Length
      invariant a[..w] == Reject(s[..r], doomed)
      invariant forall k :: r <= k < a.Length ==> a[k] == s[k]
    {
      var x := a[r];
      assert s[..r + 1] == s[..r] + [x];
      assert Reject(s[..r + 1], doomed) == Reject(s[..r], doomed) + if doomed(x) then [] else [x] by {
        assert s[..r + 1][..r] == s[..r];
      }
      if !doomed(x) {
        ghost var kept := a[..w];
        a[w] := x;
        assert a[..w + 1] == kept + [x];
        w := w + 1;
      }
      r := r + 1;
    }
    assert s[..a.Length] == s;
    n := w;
  }

  /** An element survives exactly when it is in s and is not doomed. */
  lemma {:induction false} RejectMembers<T>(s: seq<T>, doomed: T -> bool, x: T)
    ensures x in Reject(s, doomed) <==> x in s && !doomed(x)
  {
    if s != [] {
      RejectMembers(s[..|s| - 1], doomed, x);
      assert s == s[..|s| - 1] + [s[|s| - 1]];
    }
  }

  /** delete_if keeps the order: pruning a concatenation prunes each part. */
  lemma {:induction false} RejectAppend<T>(a: seq<T>, b: seq<T>, doomed: T -> bool)
    ensures Reject(a + b, doomed) == Reject(a, doomed) + Reject(b, doomed)
    decreases |b|
  {
    if b == [] {
      assert a + b == a;
    } else {
      var b' := b[..|b| - 1];
      assert (a + b)[..|a + b| - 1] == a + b';
      RejectAppend(a, b', doomed);
    }
  }

  /** Pruning with a predicate and with its complement splits s into two parts
      that together hold every element of s exactly as often as s does. */
  lemma {:induction false} RejectPartition<T>(s: seq<T>, p: T -> bool, q: T -> bool)
    requires forall x :: q(x) == !p(x)
    ensures multiset(Reject(s, p)) + multiset(Reject(s, q)) == multiset(s)
  {
    if s != [] {
      var init, x := s[..|s| - 1], s[|s| - 1];
      RejectPartition(init, p, q);
      assert s == init + [x];
      MultisetSnoc(Reject(init, p), Reject(init, q), init, x);
    }
  }

  /** One more element of the whole goes to one of the two parts. */
  lemma MultisetSnoc<T>(a: seq<T>, b: seq<T>, whole: seq<T>, x: T)
    requires multiset(a) + multiset(b) == multiset(whole)
    ensures multiset(a + [x]) + multiset(b) == multiset(whole + [x])
    ensures multiset(a) + multiset(b + [x]) == multiset(whole + [x])
  {
  }

  /** Position of key among keys, when it is there. */
  function IndexOf<K(==)>(keys: seq<K>, key: K): (r: Option<nat>)
    ensures r.Some? ==> r.value < |keys| && keys[r.value] == key
    ensures r.None? ==> key !in keys
  {
    if keys == [] then None
    else if keys[|keys| - 1] == key then Some(|keys| - 1)
    else IndexOf(keys[..|keys| - 1], key)
  }

  /** The index of the first element whose block raises, or |xs| when none does. */
  function FirstFailure<S, T>(xs: seq<S>, f: S -> Result<T>): (i: nat)
    ensures i <= |xs|
    ensures forall j :: 0 <= j < i ==> f(xs[j]).Ok?
    ensures i < |xs| ==> f(xs[i]).Err?
  {
    if xs == [] || f(xs[0]).Err? then 0
    else
      assert forall j :: 0 < j < |xs| ==> xs[j] == xs[1..][j - 1];
      1 + FirstFailure(xs[1..], f)
  }

  /** Array#map with a block that may raise: the results in order, or the
      error of the first element whose block raised. */
  function MapResults<S, T>(xs: seq<S>, f: S -> Result<T>): (r: Result<seq<T>>)
    ensures r.Ok? <==> forall k :: 0 <= k < |xs| ==> f(xs[k]).Ok?
    ensures r.Ok? ==> |r.value| == |xs| && forall k :: 0 <= k < |xs| ==> f(xs[k]) == Ok(r.value[k])
    ensures r.Err? ==> FirstFailure(xs, f) < |xs| && f(xs[FirstFailure(xs, f)]) == Err(r.error)
  {
    if xs == [] then Ok([])
    else
      match f(xs[0])
      case Err(e) => Err(e)
      case Ok(y) =>
        match MapResults(xs[1..], f)
        case Err(e) =>
          assert xs[1..][FirstFailure(xs[1..], f)] == xs[FirstFailure(xs, f)];
          Err(e)
        case Ok(ys) => Ok([y] + ys)
  }

  /** Mapping a list one element longer: the old result, then the new
      element's block, the first error raised winning. */
  lemma {:induction false} MapResultsSnoc<S, T>(xs: seq<S>, x: S, f: S -> Result<T>)
    ensures MapResults(xs + [x], f) ==
      match MapResults(xs, f)
      case Err(e) => Err(e)
      case Ok(ys) => (match f(x) case Err(e) => Err(e) case Ok(y) => Ok(ys + [y]))
  {
    if xs == [] {
      assert [x][1..] == [];
      if f(x).Ok? {
        assert [f(x).value] + [] == [] + [f(x).value];
      }
    } else {
      assert (xs + [x])[0] == xs[0] && (xs + [x])[1..] == xs[1..] + [x];
      MapResultsSnoc(xs[1..], x, f);
      match f(xs[0])
      case Err(_) =>
      case Ok(y0) =>
        match MapResults(xs[1..], f)
        case Err(_) =>
        case Ok(ys) =>
          if f(x).Ok? {
            assert [y0] + (ys + [f(x).value]) == ([y0] + ys) + [f(x).value];
          }
    }
  }

  /** One more element of xs mapped: MapResultsSnoc on prefixes. */
  lemma MapResultsPrefixStep<S, T>(xs: seq<S>, i: nat, f: S -> Result<T>)
    requires i < |xs|
    ensures MapResults(xs[..i + 1], f) ==
      match MapResults(xs[..i], f)
      case Err(e) => Err(e)
      case Ok(ys) => (match f(xs[i]) case Err(e) => Err(e) case Ok(y) => Ok(ys + [y]))
  {
    assert xs[..i + 1] == xs[..i] + [xs[i]];
    MapResultsSnoc(xs[..i], xs[i], f);
  }

  /** An error raised on a prefix is the error of the whole map: the later
      elements are never reached. */
  lemma {:induction false} MapResultsPrefixErr<S, T>(xs: seq<S>, n: nat, f: S -> Result<T>)
    requires n <= |xs| && MapResults(xs[..n], f).Err?
    ensures MapResults(xs, f) == MapResults(xs[..n], f)
  {
    assert xs[..n][0] == xs[0];
    if f(xs[0]).Ok? {
      assert xs[..n][1..] == xs[1..][..n - 1];
      MapResultsPrefixErr(xs[1..], n - 1, f);
    }
  }

  /** `[0]` on the list map returns, with any error passed through: nil for
      an empty list. */
  function FirstOf<T>(r: Result<seq<T>>): (o: Result<Option<T>>)
    ensures o.Ok? <==> r.Ok?
    ensures o.Ok? ==> (o.value.None? <==> r.value == []) && (o.value.Some? ==> o.value.value == r.value[0])
    ensures o.Err? ==> o.error == r.error
  {
    match r
    case Err(e) => Err(e)
    case Ok(ys) => Ok(if ys == [] then None else Some(ys[0]))
  }

  /** What `[0]` on the result of a map says about the blocks: it succeeds
      exactly when every block does, holds the first element's result (nil
      when there is none), and otherwise carries the error of the first block
      that raised. */
  lemma FirstOfMapResults<S, T>(xs: seq<S>, f: S -> Result<T>)
    ensures var r := FirstOf(MapResults(xs, f));
      && (r.Ok? <==> forall k :: 0 <= k < |xs| ==> f(xs[k]).Ok?)
      && (r.Ok? ==> r.value == if xs == [] then None else Some(f(xs[0]).value))
      && (r.Err? ==> exists k :: (0 <= k < |xs| && f(xs[k]) == Err(r.error) &&
            forall j :: 0 <= j < k ==> f(xs[j]).Ok?))
  {
    var r := FirstOf(MapResults(xs, f));
    if r.Err? {
      var k := FirstFailure(xs, f);
      assert 0 <= k < |xs| && f(xs[k]) == Err(r.error);
    }
  }
}
