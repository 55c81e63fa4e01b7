/**
 * The stable sort both JavaScript engines and Python guarantee
 * (`Array.prototype.sort` with a numeric comparator `(a, b) => key(a) - key(b)`).
 * Stability is stated two ways: for every key value the elements carrying it
 * keep their input order, and a strictly increasing tie-breaker in the input
 * orders equal keys in the output.
 */
module Sorting {

  /** Ascending by `key`. */
  predicate SortedBy<T>(s: seq<T>, key: T -> int) {
    forall i, j :: 0 <= i < j < |s| ==> key(s[i]) <= key(s[j])
  }

  /** The elements of `s` whose key is `k`, in their order in `s`. */
  function WithKey<T>(s: seq<T>, key: T -> int, k: int): seq<T>
    decreases |s|
  {
    if s == [] then []
    else (if key(s[0]) == k then [s[0]] else []) + WithKey(s[1..], key, k)
  }

  /** Elements with equal keys are ordered by `tie`. */
  predicate TiesOrderedBy<T>(s: seq<T>, key: T -> int, tie: T -> int) {
    forall i, j :: 0 <= i < j < |s| && key(s[i]) == key(s[j]) ==> tie(s[i]) < tie(s[j])
  }

  predicate StrictlyIncreasingBy<T>(s: seq<T>, tie: T -> int) {
    forall i, j :: 0 <= i < j < |s| ==> tie(s[i]) < tie(s[j])
  }

  /** Puts `x` in front of the first element whose key is not below its own. */
  function Insert<T>(x: T, s: seq<T>, key: T -> int): (r: seq<T>)
    ensures multiset(r) == multiset(s) + multiset{x}
    ensures |r| == |s| + 1
    decreases |s|
  {
    if s == [] || key(x) <= key(s[0]) then
      [x] + s
    else
      assert s == [s[0]] + s[1..];
      [s[0]] + Insert(x, s[1..], key)
  }

  /** A sorted sequence stays sorted under a head no greater than its first element. */
  lemma SortedCons<T>(a: T, r: seq<T>, key: T -> int)
    requires SortedBy(r, key)
    requires r == [] || key(a) <= key(r[0])
    ensures SortedBy([a] + r, key)
  {
    var c := [a] + r;
    forall i, j | 0 <= i < j < |c| ensures key(c[i]) <= key(c[j]) {
      if i == 0 {
        assert c[j] == r[j - 1];
        assert key(r[0]) <= key(r[j - 1]);
      } else {
        assert c[i] == r[i - 1] && c[j] == r[j - 1];
      }
    }
  }

  lemma {:induction false} InsertSorted<T>(x: T, s: seq<T>, key: T -> int)
    requires SortedBy(s, key)
    ensures SortedBy(Insert(x, s, key), key)
    decreases |s|
  {
    if s == [] || key(x) <= key(s[0]) {
      SortedCons(x, s, key);
    } else {
      var rest := Insert(x, s[1..], key);
      assert SortedBy(s[1..], key) by {
        forall i, j | 0 <= i < j < |s[1..]| ensures key(s[1..][i]) <= key(s[1..][j]) {
          assert s[1..][i] == s[i + 1] && s[1..][j] == s[j + 1];
        }
      }
      InsertSorted(x, s[1..], key);
      assert rest[0] == x || rest[0] == s[1];
      SortedCons(s[0], rest, key);
    }
  }

  /** Inserting `x` adds it to its own key's run in front of the elements with that key. */
  lemma {:induction false} InsertWithKey<T>(x: T, s: seq<T>, key: T -> int, k: int)
    ensures WithKey(Insert(x, s, key), key, k) == (if key(x) == k then [x] else []) + WithKey(s, key, k)
    decreases |s|
  {
    if s == [] || key(x) <= key(s[0]) {
      var r := [x] + s;
      assert r[0] == x && r[1..] == s;
    } else {
      var rest := Insert(x, s[1..], key);
      var r := [s[0]] + rest;
      assert r[0] == s[0] && r[1..] == rest;
      InsertWithKey(x, s[1..], key, k);
      var head := if key(s[0]) == k then [s[0]] else [];
      var own := if key(x) == k then [x] else [];
      assert head == [] || own == [];
      assert WithKey(r, key, k) == head + (own + WithKey(s[1..], key, k));
      assert WithKey(s, key, k) == head + WithKey(s[1..], key, k);
    }
  }

  /** Insertion sort that keeps equal keys in input order. */
  function StableSort<T>(s: seq<T>, key: T -> int): (r: seq<T>)
    ensures SortedBy(r, key)
    ensures multiset(r) == multiset(s)
    ensures |r| == |s|
    ensures forall k :: WithKey(r, key, k) == WithKey(s, key, k)
    decreases |s|
  {
    if s == [] then []
    else
      var rest := StableSort(s[1..], key);
      assert s == [s[0]] + s[1..];
      InsertSorted(s[0], rest, key);
      forall k ensures WithKey(Insert(s[0], rest, key), key, k) == WithKey(s, key, k) {
        InsertWithKey(s[0], rest, key, k);
      }
      Insert(s[0], rest, key)
  }

  /** Every element of an insertion result is the inserted element or came from the sequence. */
  lemma InsertMember<T>(x: T, s: seq<T>, key: T -> int, y: T)
    requires y in Insert(x, s, key)
    ensures y == x || y in s
  {
    assert y in multiset(Insert(x, s, key));
    if y != x {
      assert y in multiset(s);
    }
  }

  lemma TiesCons<T>(a: T, r: seq<T>, key: T -> int, tie: T -> int)
    requires TiesOrderedBy(r, key, tie)
    requires forall j :: 0 <= j < |r| && key(r[j]) == key(a) ==> tie(a) < tie(r[j])
    ensures TiesOrderedBy([a] + r, key, tie)
  {
    var c := [a] + r;
    forall i, j | 0 <= i < j < |c| && key(c[i]) == key(c[j]) ensures tie(c[i]) < tie(c[j]) {
      if i == 0 {
        assert c[j] == r[j - 1];
      } else {
        assert c[i] == r[i - 1] && c[j] == r[j - 1];
      }
    }
  }

  lemma {:induction false} InsertOrdersTies<T>(x: T, s: seq<T>, key: T -> int, tie: T -> int)
    requires SortedBy(s, key) && TiesOrderedBy(s, key, tie)
    requires forall j :: 0 <= j < |s| ==> tie(x) < tie(s[j])
    ensures TiesOrderedBy(Insert(x, s, key), key, tie)
    decreases |s|
  {
    if s == [] || key(x) <= key(s[0]) {
      TiesCons(x, s, key, tie);
    } else {
      var rest := Insert(x, s[1..], key);
      var t := s[1..];
      assert SortedBy(t, key) && TiesOrderedBy(t, key, tie) by {
        forall i, j | 0 <= i < j < |t| ensures key(t[i]) <= key(t[j]) {
          assert t[i] == s[i + 1] && t[j] == s[j + 1];
        }
        forall i, j | 0 <= i < j < |t| && key(t[i]) == key(t[j]) ensures tie(t[i]) < tie(t[j]) {
          assert t[i] == s[i + 1] && t[j] == s[j + 1];
        }
      }
      forall j | 0 <= j < |t| ensures tie(x) < tie(t[j]) {
        assert t[j] == s[j + 1];
      }
      InsertOrdersTies(x, t, key, tie);
      forall j | 0 <= j < |rest| && key(rest[j]) == key(s[0]) ensures tie(s[0]) < tie(rest[j]) {
        assert rest[j] in rest;
        InsertMember(x, t, key, rest[j]);
        if rest[j] != x {
          var m :| 0 <= m < |t| && t[m] == rest[j];
          assert s[m + 1] == rest[j];
        }
      }
      TiesCons(s[0], rest, key, tie);
    }
  }

  /**
   * When the input is strictly increasing in `tie` (as a source-line index is),
   * equal keys in the sorted output are still in increasing `tie` order.
   */
  lemma {:induction false} StableSortOrdersTies<T>(s: seq<T>, key: T -> int, tie: T -> int)
    requires StrictlyIncreasingBy(s, tie)
    ensures TiesOrderedBy(StableSort(s, key), key, tie)
    decreases |s|
  {
    if s != [] {
      var rest := StableSort(s[1..], key);
      assert StrictlyIncreasingBy(s[1..], tie) by {
        forall i, j | 0 <= i < j < |s[1..]| ensures tie(s[1..][i]) < tie(s[1..][j]) {
          assert s[1..][i] == s[i + 1] && s[1..][j] == s[j + 1];
        }
      }
      StableSortOrdersTies(s[1..], key, tie);
      forall j | 0 <= j < |rest| ensures tie(s[0]) < tie(rest[j]) {
        assert rest[j] in multiset(rest);
        assert rest[j] in multiset(s[1..]);
        var m :| 0 <= m < |s[1..]| && s[1..][m] == rest[j];
        assert s[m + 1] == rest[j];
      }
      InsertOrdersTies(s[0], rest, key, tie);
    }
  }

  /** Where an element sits in a sequence. */
  lemma IndexOf<T>(s: seq<T>, x: T) returns (j: nat)
    requires x in s
    ensures j < |s| && s[j] == x
  {
    j :| 0 <= j < |s| && s[j] == x;
  }

  /** Sorting neither adds nor drops elements. */
  lemma SortKeepsMembers<T>(s: seq<T>, key: T -> int, x: T)
    ensures x in StableSort(s, key) <==> x in s
  {
    var r := StableSort(s, key);
    assert x in r <==> x in multiset(r);
    assert x in s <==> x in multiset(s);
  }
}
