/** Python's sorted(xs, key=...) and xs.sort(key=...) as the code uses them: keys are
    QNAME, POS or the list [QNAME, POS], compared the way Python compares str, int and
    lists, and the sort is stable. A key is a pair (name, number); a sort by QNAME alone
    gives every element the same number, a sort by POS alone the same name. Elements are
    paired with their keys before sorting, as Python computes each key once. */
module Sorting {

  /** Python's a <= b on str: code point by code point, a proper prefix first. */
  predicate StrLe(a: string, b: string)
    decreases |a|
  {
    a == [] || (b != [] && (a[0] < b[0] || (a[0] == b[0] && StrLe(a[1..], b[1..]))))
  }

  lemma {:induction false} StrLeTotal(a: string, b: string)
    ensures StrLe(a, b) || StrLe(b, a)
    decreases |a|
  {
    if a != [] && b != [] && a[0] == b[0] {
      StrLeTotal(a[1..], b[1..]);
    }
  }

  lemma {:induction false} StrLeTrans(a: string, b: string, c: string)
    requires StrLe(a, b) && StrLe(b, c)
    ensures StrLe(a, c)
    decreases |a|
  {
    if a != [] && a[0] == b[0] && b[0] == c[0] {
      StrLeTrans(a[1..], b[1..], c[1..]);
    }
  }

  lemma {:induction false} StrLeAntisym(a: string, b: string)
    requires StrLe(a, b) && StrLe(b, a)
    ensures a == b
    decreases |a|
  {
    if a != [] {
      StrLeAntisym(a[1..], b[1..]);
      assert a == [a[0]] + a[1..] && b == [b[0]] + b[1..];
    }
  }

  lemma {:induction false} StrLeRefl(a: string)
    ensures StrLe(a, a)
    decreases |a|
  {
    if a != [] {
      StrLeRefl(a[1..]);
    }
  }

  type Key = (string, int)

  /** The order of the key list [QNAME, POS]: names first, then numbers. */
  predicate KeyLe(x: Key, y: Key)
  {
    if x.0 == y.0 then x.1 <= y.1 else StrLe(x.0, y.0)
  }

  lemma KeyLeTotal(x: Key, y: Key)
    ensures KeyLe(x, y) || KeyLe(y, x)
  {
    StrLeTotal(x.0, y.0);
  }

  lemma KeyLeTrans(x: Key, y: Key, z: Key)
    requires KeyLe(x, y) && KeyLe(y, z)
    ensures KeyLe(x, z)
  {
    if x.0 != y.0 && y.0 != z.0 {
      StrLeTrans(x.0, y.0, z.0);
      if x.0 == z.0 {
        StrLeAntisym(x.0, y.0);
      }
    }
  }

  predicate Sorted<T>(s: seq<(Key, T)>)
  {
    forall i, j :: 0 <= i < j < |s| ==> KeyLe(s[i].0, s[j].0)
  }

  /** Places x after every element whose key is at most x's key. */
  function Insert<T>(x: (Key, T), s: seq<(Key, T)>): (r: seq<(Key, T)>)
    ensures |r| == |s| + 1
    decreases |s|
  {
    if s == [] then [x]
    else if KeyLe(s[0].0, x.0) then [s[0]] + Insert(x, s[1..])
    else [x] + s
  }

  lemma {:induction false} InsertPerm<T>(x: (Key, T), s: seq<(Key, T)>)
    ensures multiset(Insert(x, s)) == multiset(s) + multiset{x}
    decreases |s|
  {
    if s != [] && KeyLe(s[0].0, x.0) {
      InsertPerm(x, s[1..]);
      assert s == [s[0]] + s[1..];
    }
  }

  /** Stable insertion sort: the elements are inserted in their input order. */
  function Sort<T>(s: seq<(Key, T)>): (r: seq<(Key, T)>)
    ensures |r| == |s|
    decreases |s|
  {
    if s == [] then [] else Insert(s[|s| - 1], Sort(s[..|s| - 1]))
  }

  /** Sort rearranges its input: the same elements, as often as before. */
  lemma {:induction false} SortPerm<T>(s: seq<(Key, T)>)
    ensures multiset(Sort(s)) == multiset(s)
    decreases |s|
  {
    if s != [] {
      SortPerm(s[..|s| - 1]);
      InsertPerm(s[|s| - 1], Sort(s[..|s| - 1]));
      assert s == s[..|s| - 1] + [s[|s| - 1]];
    }
  }

  lemma {:induction false} InsertSorted<T>(x: (Key, T), s: seq<(Key, T)>)
    requires Sorted(s)
    ensures Sorted(Insert(x, s))
    decreases |s|
  {
    if s != [] && KeyLe(s[0].0, x.0) {
      InsertSorted(x, s[1..]);
      InsertPerm(x, s[1..]);
      var r := Insert(x, s);
      forall j | 0 < j < |r| ensures KeyLe(r[0].0, r[j].0) {
        assert r[j] in multiset(Insert(x, s[1..]));
        assert r[j] in multiset(s[1..]) || r[j] == x;
        if r[j] != x {
          var k :| 0 <= k < |s[1..]| && s[1..][k] == r[j];
          assert s[k + 1] == r[j];
        }
      }
    } else if s != [] {
      KeyLeTotal(s[0].0, x.0);
      forall j | 0 <= j < |s| ensures KeyLe(x.0, s[j].0) {
        if j > 0 { KeyLeTrans(x.0, s[0].0, s[j].0); }
      }
    }
  }

  /** Sort's result is ordered by key. */
  lemma {:induction false} SortSorted<T>(s: seq<(Key, T)>)
    ensures Sorted(Sort(s))
    decreases |s|
  {
    if s != [] {
      SortSorted(s[..|s| - 1]);
      InsertSorted(s[|s| - 1], Sort(s[..|s| - 1]));
    }
  }

  /** The elements of s whose key is k, in the order they have in s. */
  function WithKey<T>(s: seq<(Key, T)>, k: Key): seq<(Key, T)>
    decreases |s|
  {
    if s == [] then []
    else (if s[0].0 == k then [s[0]] else []) + WithKey(s[1..], k)
  }

  lemma {:induction false} WithKeyAppend<T>(a: seq<(Key, T)>, b: seq<(Key, T)>, k: Key)
    ensures WithKey(a + b, k) == WithKey(a, k) + WithKey(b, k)
    decreases |a|
  {
    if a != [] {
      WithKeyAppend(a[1..], b, k);
      assert (a + b)[1..] == a[1..] + b;
    } else {
      assert a + b == b;
    }
  }

  lemma {:induction false} InsertWithKey<T>(x: (Key, T), s: seq<(Key, T)>, k: Key)
    requires Sorted(s)
    ensures WithKey(Insert(x, s), k) == if x.0 == k then WithKey(s, k) + [x] else WithKey(s, k)
    decreases |s|
  {
    if s == [] {
    } else if KeyLe(s[0].0, x.0) {
      InsertWithKey(x, s[1..], k);
      assert Insert(x, s)[1..] == Insert(x, s[1..]);
    } else {
      assert Insert(x, s)[1..] == s;
      if x.0 == k {
        NoneWithKey(s, k);
        assert WithKey(Insert(x, s), k) == [x];
      }
    }
  }

  /** In a sorted list whose first key exceeds k, no element has key k. */
  lemma {:induction false} NoneWithKey<T>(s: seq<(Key, T)>, k: Key)
    requires Sorted(s) && s != [] && !KeyLe(s[0].0, k)
    ensures WithKey(s, k) == []
    decreases |s|
  {
    if |s| > 1 {
      if KeyLe(s[1].0, k) {
        KeyLeTrans(s[0].0, s[1].0, k);
      }
      NoneWithKey(s[1..], k);
    }
  }

  /** Sort is stable: the elements with one key keep their input order. */
  lemma {:induction false} SortStable<T>(s: seq<(Key, T)>, k: Key)
    ensures WithKey(Sort(s), k) == WithKey(s, k)
    decreases |s|
  {
    if s != [] {
      var init, x := s[..|s| - 1], s[|s| - 1];
      assert Sort(s) == Insert(x, Sort(init));
      SortStable(init, k);
      SortSorted(init);
      InsertWithKey(x, Sort(init), k);
      assert s == init + [x];
      WithKeyAppend(init, [x], k);
    }
  }

  /** Pairs each key with its position, ready to be sorted. */
  function Indexed(keys: seq<Key>): (r: seq<(Key, int)>)
    ensures |r| == |keys|
    ensures forall i :: 0 <= i < |keys| ==> r[i].0 == keys[i] && r[i].1 == i
  {
    seq(|keys|, i requires 0 <= i < |keys| => (keys[i], i))
  }

  function Seconds(s: seq<(Key, int)>): (r: seq<int>)
    ensures |r| == |s|
    ensures forall i :: 0 <= i < |s| ==> r[i] == s[i].1
  {
    seq(|s|, i requires 0 <= i < |s| => s[i].1)
  }

  /** The positions of keys in stably sorted order. */
  function Order(keys: seq<Key>): (perm: seq<int>)
    ensures |perm| == |keys|
  {
    Seconds(Sort(Indexed(keys)))
  }

  /** A pair of Indexed holds a position and the key at that position. */
  lemma InIndexed(keys: seq<Key>, e: (Key, int))
    requires e in Indexed(keys)
    ensures 0 <= e.1 < |keys| && e.0 == keys[e.1]
  {
    var ix := Indexed(keys);
    var k :| 0 <= k < |ix| && ix[k] == e;
    assert ix[k].1 == k;
  }

  /** Every element of the sorted pairs is a pair of Indexed. */
  lemma SortedPairs(keys: seq<Key>, i: nat)
    requires i < |keys|
    ensures var e := Sort(Indexed(keys))[i]; 0 <= e.1 < |keys| && e.0 == keys[e.1]
  {
    var ix := Indexed(keys);
    var sorted := Sort(ix);
    SortPerm(ix);
    assert sorted[i] in multiset(sorted);
    InIndexed(keys, sorted[i]);
  }

  /** Order lists every position exactly once, so that keys follow it in order. */
  lemma OrderIsPermutation(keys: seq<Key>)
    ensures forall i :: 0 <= i < |keys| ==> 0 <= Order(keys)[i] < |keys|
    ensures forall i, j :: 0 <= i < j < |keys| ==> Order(keys)[i] != Order(keys)[j]
    ensures forall i, j :: 0 <= i < j < |keys| ==> KeyLe(keys[Order(keys)[i]], keys[Order(keys)[j]])
  {
    var ix := Indexed(keys);
    var sorted := Sort(ix);
    var perm := Order(keys);
    assert perm == Seconds(sorted);
    SortSorted(ix);
    forall i | 0 <= i < |keys| ensures 0 <= perm[i] < |keys| {
      SortedPairs(keys, i);
    }
    forall i, j | 0 <= i < j < |keys|
      ensures perm[i] != perm[j] && KeyLe(keys[perm[i]], keys[perm[j]])
    {
      SortedPairs(keys, i);
      SortedPairs(keys, j);
      if sorted[i].1 == sorted[j].1 {
        assert sorted[i] == sorted[j];
        SortPerm(ix);
        Twice(sorted, i, j);
        IndexedOnce(keys, sorted[i]);
        assert false;
      }
    }
  }

  /** Every position occurs in Order. */
  lemma OrderOnto(keys: seq<Key>, j: nat)
    requires j < |keys|
    ensures j in Order(keys)
  {
    var ix := Indexed(keys);
    var sorted := Sort(ix);
    SortPerm(ix);
    assert ix[j] in multiset(ix);
    assert ix[j] in sorted;
    var i :| 0 <= i < |sorted| && sorted[i] == ix[j];
    assert Order(keys)[i] == j;
  }

  lemma Twice<T>(s: seq<T>, i: nat, j: nat)
    requires i < j < |s| && s[i] == s[j]
    ensures multiset(s)[s[i]] >= 2
  {
    var e := s[i];
    var a, b, c := s[..i], s[i + 1..j], s[j + 1..];
    assert s == a + [e] + b + [e] + c;
    assert multiset(s) == multiset(a) + multiset{e} + multiset(b) + multiset{e} + multiset(c);
  }

  lemma IndexedOnce(keys: seq<Key>, e: (Key, int))
    ensures multiset(Indexed(keys))[e] <= 1
  {
    var ix := Indexed(keys);
    if 0 <= e.1 < |keys| && ix[e.1] == e {
      var rest := ix[..e.1] + ix[e.1 + 1..];
      assert ix == ix[..e.1] + [e] + ix[e.1 + 1..];
      assert e !in rest by {
        forall k | 0 <= k < |rest| ensures rest[k] != e {
          if k < e.1 { assert rest[k] == ix[k]; } else { assert rest[k] == ix[k + 1]; }
        }
      }
    } else {
      assert e !in ix;
    }
  }
}
