/** Optional values and error results shared by every module of the model. */
module Wrappers {

  /** A value that may be absent: JavaScript's `null`/`undefined`, Python's `None`. */
  datatype Option<+T> = None | Some(value: T) {

    /** The held value, or `default` when there is none. */
    function GetOr(default: T): T {
      match this
      case Some(v) => v
      case None => default
    }
  }

  /** The outcome of an operation that the source can abort with an exception. */
  datatype Result<+T, +E> = Ok(value: T) | Err(error: E)

  /**
   * The present values in order: `.map(parse).filter(Boolean)` over results
   * that are `null` on failure.
   */
  function Somes<T>(xs: seq<Option<T>>): (r: seq<T>)
    ensures |r| <= |xs|
    ensures forall i :: 0 <= i < |r| ==> Some(r[i]) in xs
    ensures forall k :: 0 <= k < |xs| && xs[k].Some? ==> xs[k].value in r
    decreases |xs|
  {
    if xs == [] then []
    else
      var rest := Somes(xs[1..]);
      assert forall k :: 1 <= k < |xs| ==> xs[k] == xs[1..][k - 1];
      if xs[0].Some? then
        var r := [xs[0].value] + rest;
        assert forall i :: 1 <= i < |r| ==> r[i] == rest[i - 1];
        r
      else rest
  }

  /** When every result is present, all of them are kept, in order. */
  lemma {:induction false} SomesAllPresent<T>(xs: seq<Option<T>>)
    requires forall k :: 0 <= k < |xs| ==> xs[k].Some?
    ensures Somes(xs) == seq(|xs|, k requires 0 <= k < |xs| => xs[k].value)
    decreases |xs|
  {
    if xs != [] {
      SomesAllPresent(xs[1..]);
    }
  }

  /** One present result is kept on its own. */
  lemma SomesSingle<T>(xs: seq<Option<T>>, v: T)
    requires xs == [Some(v)]
    ensures Somes(xs) == [v]
  {
    assert xs[1..] == [];
  }

  /** The positions from `from` on that hold a present result, each once and in increasing order. */
  function SomeIndicesFrom<T>(xs: seq<Option<T>>, from: nat): (idx: seq<nat>)
    requires from <= |xs|
    ensures forall i :: 0 <= i < |idx| ==> from <= idx[i] < |xs| && xs[idx[i]].Some?
    ensures forall i, j :: 0 <= i < j < |idx| ==> idx[i] < idx[j]
    ensures forall k :: from <= k < |xs| && xs[k].Some? ==> k in idx
    decreases |xs| - from
  {
    if from == |xs| then []
    else
      var rest := SomeIndicesFrom(xs, from + 1);
      if xs[from].Some? then
        var r := [from] + rest;
        assert forall i :: 1 <= i < |r| ==> r[i] == rest[i - 1];
        r
      else rest
  }

  /** The positions of the present results, each once and in increasing order. */
  function SomeIndices<T>(xs: seq<Option<T>>): seq<nat> {
    SomeIndicesFrom(xs, 0)
  }

  /**
   * `Somes` keeps exactly the present results, in order: its i-th value is
   * the one held at the i-th present position, so nothing is dropped,
   * repeated or reordered.
   */
  lemma {:induction false} SomesAtIndicesFrom<T>(xs: seq<Option<T>>, from: nat)
    requires from <= |xs|
    ensures |Somes(xs[from..])| == |SomeIndicesFrom(xs, from)|
    ensures forall i :: 0 <= i < |Somes(xs[from..])| ==> Somes(xs[from..])[i] == xs[SomeIndicesFrom(xs, from)[i]].value
    decreases |xs| - from
  {
    if from < |xs| {
      var ys := xs[from..];
      var tail := Somes(xs[from + 1..]);
      var rest := SomeIndicesFrom(xs, from + 1);
      SomesAtIndicesFrom(xs, from + 1);
      assert ys[1..] == xs[from + 1..];
      assert ys[0] == xs[from];
      if xs[from].Some? {
        ConsAgrees(xs, from, xs[from].value, tail, rest);
        assert Somes(ys) == [xs[from].value] + tail;
        assert SomeIndicesFrom(xs, from) == [from] + rest;
      } else {
        assert Somes(ys) == tail;
        assert SomeIndicesFrom(xs, from) == rest;
      }
    }
  }

  /** A present value put in front of its position keeps values and positions paired. */
  lemma ConsAgrees<T>(xs: seq<Option<T>>, from: nat, v: T, tail: seq<T>, rest: seq<nat>)
    requires from < |xs| && xs[from] == Some(v)
    requires |tail| == |rest|
    requires forall i :: 0 <= i < |rest| ==> rest[i] < |xs| && xs[rest[i]].Some? && tail[i] == xs[rest[i]].value
    ensures forall i :: 0 <= i < |[v] + tail| ==>
              ([from] + rest)[i] < |xs| && xs[([from] + rest)[i]].Some? && ([v] + tail)[i] == xs[([from] + rest)[i]].value
  {
    forall i | 0 <= i < |[v] + tail|
      ensures ([from] + rest)[i] < |xs| && xs[([from] + rest)[i]].Some? && ([v] + tail)[i] == xs[([from] + rest)[i]].value
    {
      if i > 0 {
        assert ([v] + tail)[i] == tail[i - 1];
        assert ([from] + rest)[i] == rest[i - 1];
      }
    }
  }

  /** The whole-sequence case of `SomesAtIndicesFrom`. */
  lemma SomesAtIndices<T>(xs: seq<Option<T>>)
    ensures |Somes(xs)| == |SomeIndices(xs)|
    ensures forall i :: 0 <= i < |Somes(xs)| ==> Somes(xs)[i] == xs[SomeIndices(xs)[i]].value
  {
    SomesAtIndicesFrom(xs, 0);
    assert xs[0..] == xs;
  }

  /** Where a present value sits among the results. */
  lemma IndexOfSome<T>(xs: seq<Option<T>>, v: T) returns (k: nat)
    requires Some(v) in xs
    ensures k < |xs| && xs[k] == Some(v)
  {
    k :| 0 <= k < |xs| && xs[k] == Some(v);
  }
}
