/** Ordering by an integer key: the sort the purchase applies to its
    request lines, and the facts that make positional pairing sound. */
module Sorting {

  /** The identity key, for sorting plain integers. */
  function Identity(x: int): int {
    x
  }

  /** Keys never decrease along the sequence. */
  predicate SortedBy<T>(s: seq<T>, key: T -> int) {
    forall i, j :: 0 <= i < j < |s| ==> key(s[i]) <= key(s[j])
  }

  predicate StrictlyIncreasing(s: seq<int>) {
    forall i, j :: 0 <= i < j < |s| ==> s[i] < s[j]
  }

  /** No value occurs twice. */
  predicate Distinct(s: seq<int>) {
    forall i, j :: 0 <= i < j < |s| ==> s[i] != s[j]
  }

  /** The keys of the elements, in order. */
  function KeysOf<T>(s: seq<T>, key: T -> int): (r: seq<int>)
    ensures |r| == |s|
    ensures forall i :: 0 <= i < |s| ==> r[i] == key(s[i])
  {
    if |s| == 0 then [] else [key(s[0])] + KeysOf(s[1..], key)
  }

  /** Places x in front of the first element whose key is not smaller. */
  function Insert<T>(x: T, s: seq<T>, key: T -> int): (r: seq<T>)
    requires SortedBy(s, key)
    ensures SortedBy(r, key)
    ensures multiset(r) == multiset(s) + multiset{x}
    ensures |r| == |s| + 1
    ensures r[0] == x || (|s| > 0 && r[0] == s[0])
  {
    if |s| == 0 then [x]
    else if key(x) <= key(s[0]) then [x] + s
    else
      var rest := Insert(x, s[1..], key);
      assert s == [s[0]] + s[1..];
      assert key(s[0]) <= key(rest[0]);
      [s[0]] + rest
  }

  /** Insertion sort by key, standing for a stream sorted over a key comparator. */
  function SortBy<T>(s: seq<T>, key: T -> int): (r: seq<T>)
    ensures SortedBy(r, key)
    ensures multiset(r) == multiset(s)
    ensures |r| == |s|
  {
    if |s| == 0 then []
    else
      assert s == [s[0]] + s[1..];
      Insert(s[0], SortBy(s[1..], key), key)
  }

  /** Sorting neither adds nor loses values. */
  lemma SortPreservesMembership<T>(s: seq<T>, key: T -> int)
    ensures forall x :: x in SortBy(s, key) <==> x in s
  {
    var r := SortBy(s, key);
    forall x ensures x in r <==> x in s {
      assert x in r <==> x in multiset(r);
      assert x in s <==> x in multiset(s);
    }
  }

  /** Where an element of s sits in a rearrangement r of s. */
  lemma PositionIn<T>(s: seq<T>, r: seq<T>, i: int) returns (k: int)
    requires multiset(r) == multiset(s)
    requires 0 <= i < |s|
    ensures 0 <= k < |r| && r[k] == s[i]
  {
    var x := s[i];
    assert x in multiset(s);
    assert x in multiset(r);
    assert x in r;
    k :| 0 <= k < |r| && r[k] == x;
  }

  /** The keys of a sequence with one element in front. */
  lemma KeysOfPrepend<T>(x: T, s: seq<T>, key: T -> int)
    ensures KeysOf([x] + s, key) == [key(x)] + KeysOf(s, key)
  {
    assert ([x] + s)[1..] == s;
  }

  /** The keys of a sequence sorted by key are sorted. */
  lemma SortedKeys<T>(s: seq<T>, key: T -> int)
    requires SortedBy(s, key)
    ensures SortedBy(KeysOf(s, key), Identity)
  {
    var ks := KeysOf(s, key);
    forall i, j | 0 <= i < j < |ks| ensures Identity(ks[i]) <= Identity(ks[j]) {
      assert ks[i] == key(s[i]) && ks[j] == key(s[j]);
    }
  }

  /** An element whose key does not exceed the head's goes in front. */
  lemma InsertInFront<T>(x: T, s: seq<T>, key: T -> int)
    requires SortedBy(s, key)
    requires |s| == 0 || key(x) <= key(s[0])
    ensures Insert(x, s, key) == [x] + s
  {
  }

  /** Inserting in front: x goes before every element, and its key before every key. */
  lemma InsertKeysFront<T>(x: T, s: seq<T>, key: T -> int)
    requires SortedBy(s, key)
    requires |s| == 0 || key(x) <= key(s[0])
    ensures KeysOf(Insert(x, s, key), key) == Insert(key(x), KeysOf(s, key), Identity)
  {
    var ks := KeysOf(s, key);
    InsertInFront(x, s, key);
    KeysOfPrepend(x, s, key);
    SortedKeys(s, key);
    if |s| > 0 {
      KeysOfHeadTail(s, key);
    }
    InsertInFront(key(x), ks, Identity);
  }

  /** An element whose key exceeds the head's is inserted into the tail. */
  lemma InsertPastHead<T>(x: T, s: seq<T>, key: T -> int)
    requires SortedBy(s, key)
    requires |s| > 0 && key(x) > key(s[0])
    ensures SortedBy(s[1..], key)
    ensures Insert(x, s, key) == [s[0]] + Insert(x, s[1..], key)
  {
  }

  /** The keys of a non-empty sequence are its head's key before its tail's keys. */
  lemma KeysOfHeadTail<T>(s: seq<T>, key: T -> int)
    requires |s| > 0
    ensures KeysOf(s, key) == [key(s[0])] + KeysOf(s[1..], key)
  {
  }

  /** Inserting past the head: the head and its key stay in front of the
      insertion into the tail. */
  lemma InsertKeysStep<T>(x: T, s: seq<T>, key: T -> int)
    requires SortedBy(s, key)
    requires |s| > 0 && key(x) > key(s[0])
    requires SortedBy(s[1..], key)
    requires KeysOf(Insert(x, s[1..], key), key) == Insert(key(x), KeysOf(s[1..], key), Identity)
    ensures KeysOf(Insert(x, s, key), key) == Insert(key(x), KeysOf(s, key), Identity)
  {
    var tail := s[1..];
    var rest := Insert(x, tail, key);
    var ks := KeysOf(s, key);
    InsertPastHead(x, s, key);
    KeysOfPrepend(s[0], rest, key);
    KeysOfHeadTail(s, key);
    SortedKeys(s, key);
    InsertPastHead(key(x), ks, Identity);
    assert ks[1..] == KeysOf(tail, key);
  }

  /** Inserting by key and then taking keys is inserting the key into the keys. */
  lemma {:induction false} InsertKeys<T>(x: T, s: seq<T>, key: T -> int)
    requires SortedBy(s, key)
    ensures SortedBy(KeysOf(s, key), Identity)
    ensures KeysOf(Insert(x, s, key), key) == Insert(key(x), KeysOf(s, key), Identity)
    decreases |s|
  {
    SortedKeys(s, key);
    if |s| == 0 || key(x) <= key(s[0]) {
      InsertKeysFront(x, s, key);
    } else {
      assert SortedBy(s[1..], key) by {
        forall i, j | 0 <= i < j < |s| - 1 ensures key(s[1..][i]) <= key(s[1..][j]) {
          assert s[1..][i] == s[i + 1] && s[1..][j] == s[j + 1];
        }
      }
      InsertKeys(x, s[1..], key);
      InsertKeysStep(x, s, key);
    }
  }

  /** Sorting elements by key and then taking their keys is the same as
      sorting their keys: the order is decided by the keys alone. */
  lemma {:induction false} SortKeysCommute<T>(s: seq<T>, key: T -> int)
    ensures KeysOf(SortBy(s, key), key) == SortBy(KeysOf(s, key), Identity)
    decreases |s|
  {
    if |s| > 0 {
      SortKeysCommute(s[1..], key);
      InsertKeys(s[0], SortBy(s[1..], key), key);
      assert KeysOf(s, key)[1..] == KeysOf(s[1..], key);
    }
  }

  /** A sequence has no repeated value exactly when every value occurs at most once in its multiset. */
  lemma {:induction false} DistinctIffSingleOccurrences(s: seq<int>)
    ensures Distinct(s) <==> forall x :: multiset(s)[x] <= 1
    decreases |s|
  {
    if |s| > 0 {
      var t := s[1..];
      assert s == [s[0]] + t;
      DistinctIffSingleOccurrences(t);
      if Distinct(s) {
        assert Distinct(t) by {
          forall i, j | 0 <= i < j < |t| ensures t[i] != t[j] {
            assert t[i] == s[i + 1] && t[j] == s[j + 1];
          }
        }
        assert s[0] !in t by {
          forall k | 0 <= k < |t| ensures t[k] != s[0] {
            assert t[k] == s[k + 1];
          }
        }
      }
      if forall x :: multiset(s)[x] <= 1 {
        assert forall x :: multiset(t)[x] <= 1 by {
          forall x ensures multiset(t)[x] <= 1 {
            assert multiset(s)[x] == multiset(t)[x] + (if x == s[0] then 1 else 0);
          }
        }
        assert multiset(s)[s[0]] == multiset(t)[s[0]] + 1;
        assert s[0] !in t;
        forall i, j | 0 <= i < j < |s| ensures s[i] != s[j] {
          if i == 0 {
            assert s[j] == t[j - 1];
          } else {
            assert s[i] == t[i - 1] && s[j] == t[j - 1];
          }
        }
      }
    }
  }

  /** Having no repeated value depends only on the multiset of values. */
  lemma DistinctIsPermutationInvariant(a: seq<int>, b: seq<int>)
    requires multiset(a) == multiset(b)
    ensures Distinct(a) <==> Distinct(b)
  {
    DistinctIffSingleOccurrences(a);
    DistinctIffSingleOccurrences(b);
  }

  /** A non-decreasing sequence is strictly increasing exactly when it has no repeats. */
  lemma SortedDistinctIffStrict(s: seq<int>)
    requires SortedBy(s, Identity)
    ensures Distinct(s) <==> StrictlyIncreasing(s)
  {
    if Distinct(s) {
      forall i, j | 0 <= i < j < |s| ensures s[i] < s[j] {
        assert Identity(s[i]) <= Identity(s[j]);
      }
    }
  }

  /** Drops adjacent repeats from a non-decreasing sequence, keeping one copy of each value. */
  function DedupSorted(s: seq<int>): (r: seq<int>)
    requires SortedBy(s, Identity)
    ensures StrictlyIncreasing(r)
    ensures forall x :: x in r <==> x in s
    ensures |r| <= |s|
    ensures StrictlyIncreasing(s) ==> r == s
    ensures !StrictlyIncreasing(s) ==> |r| < |s|
    ensures |s| > 0 ==> |r| > 0 && r[0] == s[0]
    decreases |s|
  {
    if |s| <= 1 then s
    else
      assert Identity(s[0]) <= Identity(s[1]);
      var rest := DedupSorted(s[1..]);
      assert s == [s[0]] + s[1..];
      if s[0] == s[1] then rest
      else
        assert s[0] < rest[0];
        [s[0]] + rest
  }
}
