/**
 * `Array.prototype.sort` with an ascending numeric comparator
 * (`(a, b) => key(a) - key(b)`): a stable sort by an integer key.
 */
module Sorting {

  ghost predicate SortedBy<T>(s: seq<T>, key: T -> int) {
    forall i, j :: 0 <= i < j < |s| ==> key(s[i]) <= key(s[j])
  }

  /** The elements of `s` whose key is `k`, in their order in `s`. */
  function WithKey<T>(s: seq<T>, key: T -> int, k: int): seq<T> {
    if |s| == 0 then []
    else (if key(s[0]) == k then [s[0]] else []) + WithKey(s[1..], key, k)
  }

  /** Places `x` in front of the first element whose key is not below `x`'s. */
  function Insert<T>(x: T, s: seq<T>, key: T -> int): seq<T> {
    if |s| == 0 || key(x) <= key(s[0]) then [x] + s
    else [s[0]] + Insert(x, s[1..], key)
  }

  /**
   * The stable sort: ascending by key, a permutation of the input, and the
   * elements sharing a key keep their input order.
   */
  function SortBy<T>(xs: seq<T>, key: T -> int): (r: seq<T>)
    ensures |r| == |xs|
    ensures multiset(r) == multiset(xs)
    ensures SortedBy(r, key)
    ensures forall k :: WithKey(r, key, k) == WithKey(xs, key, k)
  {
    if |xs| == 0 then []
    else
      var rest := SortBy(xs[1..], key);
      InsertStep(xs, rest, key);
      Insert(xs[0], rest, key)
  }

  /** Inserting the head into the sorted tail sorts the whole sequence. */
  lemma InsertStep<T>(xs: seq<T>, rest: seq<T>, key: T -> int)
    requires |xs| > 0 && |rest| == |xs| - 1 && multiset(rest) == multiset(xs[1..]) && SortedBy(rest, key)
    requires forall k :: WithKey(rest, key, k) == WithKey(xs[1..], key, k)
    ensures var r := Insert(xs[0], rest, key);
            && |r| == |xs| && multiset(r) == multiset(xs) && SortedBy(r, key)
            && forall k :: WithKey(r, key, k) == WithKey(xs, key, k)
  {
    var r := Insert(xs[0], rest, key);
    InsertPermutes(xs[0], rest, key);
    InsertSorted(xs[0], rest, key);
    forall k ensures WithKey(r, key, k) == WithKey(xs, key, k) {
      InsertWithKey(xs[0], rest, key, k);
    }
    assert xs == [xs[0]] + xs[1..];
  }

  lemma {:induction false} InsertPermutes<T>(x: T, s: seq<T>, key: T -> int)
    ensures multiset(Insert(x, s, key)) == multiset(s) + multiset{x}
    decreases |s|
  {
    if |s| > 0 && key(x) > key(s[0]) {
      InsertPermutes(x, s[1..], key);
      assert s == [s[0]] + s[1..];
    }
  }

  lemma {:induction false} InsertSorted<T>(x: T, s: seq<T>, key: T -> int)
    requires SortedBy(s, key)
    ensures SortedBy(Insert(x, s, key), key)
    ensures |Insert(x, s, key)| == |s| + 1
    ensures forall i :: 0 <= i < |Insert(x, s, key)| ==>
              Insert(x, s, key)[i] == x || Insert(x, s, key)[i] in s
    decreases |s|
  {
    if |s| > 0 && key(x) > key(s[0]) {
      InsertSorted(x, s[1..], key);
      var t := Insert(x, s[1..], key);
      forall i | 0 <= i < |t| ensures key(s[0]) <= key(t[i]) {
        if t[i] != x {
          assert t[i] in s[1..];
        }
      }
    }
  }

  /** Inserting `x` adds it in front of the elements that share its key and leaves the others' order alone. */
  lemma {:induction false} InsertWithKey<T>(x: T, s: seq<T>, key: T -> int, k: int)
    ensures WithKey(Insert(x, s, key), key, k)
            == (if key(x) == k then [x] else []) + WithKey(s, key, k)
    decreases |s|
  {
    var mine: seq<T> := if key(x) == k then [x] else [];
    if |s| == 0 || key(x) <= key(s[0]) {
      assert ([x] + s)[1..] == s;
      assert WithKey([x] + s, key, k) == mine + WithKey(s, key, k);
    } else {
      var t := Insert(x, s[1..], key);
      InsertWithKey(x, s[1..], key, k);
      assert ([s[0]] + t)[1..] == t;
      var first: seq<T> := if key(s[0]) == k then [s[0]] else [];
      assert WithKey([s[0]] + t, key, k) == first + WithKey(t, key, k);
      assert WithKey(s, key, k) == first + WithKey(s[1..], key, k);
      if key(x) == k {
        assert first == [];
      } else {
        assert mine == [];
      }
    }
  }

  lemma {:induction false} WithKeyMembers<T>(s: seq<T>, key: T -> int, k: int)
    ensures forall y :: y in WithKey(s, key, k) ==> y in s && key(y) == k
    decreases |s|
  {
    if |s| > 0 {
      WithKeyMembers(s[1..], key, k);
    }
  }

  /** A non-empty sequence has a non-empty class, so sequences with equal classes are empty together. */
  lemma ClassesCoverAll<T>(a: seq<T>, b: seq<T>, key: T -> int)
    requires forall k :: WithKey(a, key, k) == WithKey(b, key, k)
    ensures |b| == 0 ==> |a| == 0
  {
    if |a| > 0 {
      assert WithKey(a, key, key(a[0])) != [];
    }
  }

  /**
   * A sequence sorted by key is determined by its key classes: two sorted
   * sequences whose classes agree are equal, so `SortBy` is the one stable sort.
   */
  lemma {:induction false} StableSortUnique<T>(a: seq<T>, b: seq<T>, key: T -> int)
    requires SortedBy(a, key) && SortedBy(b, key)
    requires forall k :: WithKey(a, key, k) == WithKey(b, key, k)
    ensures a == b
    decreases |a|
  {
    ClassesCoverAll(a, b, key);
    ClassesCoverAll(b, a, key);
    if |a| > 0 {
      var m := key(a[0]);
      WithKeyMembers(b, key, m);
      WithKeyMembers(a, key, key(b[0]));
      assert WithKey(a, key, m)[0] == a[0];
      var y := WithKey(b, key, m)[0];
      assert y in b && key(y) == m;
      assert key(b[0]) <= m;
      assert WithKey(b, key, key(b[0]))[0] == b[0];
      var z := WithKey(a, key, key(b[0]))[0];
      assert z in a && key(z) == key(b[0]);
      assert m <= key(b[0]);
      assert a[0] == b[0];
      forall k ensures WithKey(a[1..], key, k) == WithKey(b[1..], key, k) {
        assert WithKey(a, key, k) == WithKey(b, key, k);
        if key(a[0]) == k {
          assert WithKey(a, key, k) == [a[0]] + WithKey(a[1..], key, k);
          assert WithKey(b, key, k) == [a[0]] + WithKey(b[1..], key, k);
          assert ([a[0]] + WithKey(a[1..], key, k))[1..] == WithKey(a[1..], key, k);
          assert ([a[0]] + WithKey(b[1..], key, k))[1..] == WithKey(b[1..], key, k);
        } else {
          assert WithKey(a, key, k) == WithKey(a[1..], key, k);
          assert WithKey(b, key, k) == WithKey(b[1..], key, k);
        }
      }
      StableSortUnique(a[1..], b[1..], key);
      assert a == [a[0]] + a[1..] && b == [b[0]] + b[1..];
    }
  }
}
