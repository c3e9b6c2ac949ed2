/** Shared vocabulary: optional values (SQL NULL, JavaScript null/undefined),
    the ascending string order that `ORDER BY ... ASC` follows in this model,
    and an insertion sort keyed on it. */
module Base {

  datatype Option<+T> = None | Some(value: T)

  /** `a` sorts before or equal to `b`: code points compared left to right,
      a proper prefix sorting first. */
  predicate StrLe(a: string, b: string)
  {
    |a| == 0 || (|b| > 0 && (a[0] < b[0] || (a[0] == b[0] && StrLe(a[1..], b[1..]))))
  }

  lemma {:induction false} StrLeReflexive(a: string)
    ensures StrLe(a, a)
  {
    if |a| > 0 {
      StrLeReflexive(a[1..]);
    }
  }

  lemma {:induction false} StrLeTotal(a: string, b: string)
    ensures StrLe(a, b) || StrLe(b, a)
  {
    if |a| > 0 && |b| > 0 && a[0] == b[0] {
      StrLeTotal(a[1..], b[1..]);
    }
  }

  lemma {:induction false} StrLeTransitive(a: string, b: string, c: string)
    requires StrLe(a, b) && StrLe(b, c)
    ensures StrLe(a, c)
  {
    if |a| > 0 && a[0] == b[0] && b[0] == c[0] {
      StrLeTransitive(a[1..], b[1..], c[1..]);
    }
  }

  lemma {:induction false} StrLeAntisymmetric(a: string, b: string)
    requires StrLe(a, b) && StrLe(b, a)
    ensures a == b
  {
    if |a| > 0 {
      StrLeAntisymmetric(a[1..], b[1..]);
      assert a == [a[0]] + a[1..];
      assert b == [b[0]] + b[1..];
    }
  }

  /** The elements of `xs` appear in ascending order of `key`. */
  predicate SortedOn<T>(xs: seq<T>, key: T -> string)
  {
    forall i, j :: 0 <= i < j < |xs| ==> StrLe(key(xs[i]), key(xs[j]))
  }

  lemma SortedOnCons<T>(h: T, xs: seq<T>, key: T -> string)
    requires SortedOn(xs, key)
    requires forall i :: 0 <= i < |xs| ==> StrLe(key(h), key(xs[i]))
    ensures SortedOn([h] + xs, key)
  {
    var ys := [h] + xs;
    forall i, j | 0 <= i < j < |ys|
      ensures StrLe(key(ys[i]), key(ys[j]))
    {
      if i > 0 {
        assert ys[i] == xs[i - 1] && ys[j] == xs[j - 1];
      } else {
        assert ys[j] == xs[j - 1];
      }
    }
  }

  /** Inserts `x` into the sorted `xs` before the first element it does not
      follow. */
  function InsertOn<T>(x: T, xs: seq<T>, key: T -> string): (r: seq<T>)
    requires SortedOn(xs, key)
    ensures SortedOn(r, key)
    ensures multiset(r) == multiset(xs) + multiset{x}
    ensures |r| == |xs| + 1
  {
    if |xs| == 0 then [x]
    else if StrLe(key(x), key(xs[0])) then
      assert forall i :: 0 <= i < |xs| ==> StrLe(key(x), key(xs[i])) by {
        forall i | 0 <= i < |xs|
          ensures StrLe(key(x), key(xs[i]))
        {
          if i > 0 {
            StrLeTransitive(key(x), key(xs[0]), key(xs[i]));
          }
        }
      }
      SortedOnCons(x, xs, key);
      [x] + xs
    else
      var rest := InsertOn(x, xs[1..], key);
      assert xs == [xs[0]] + xs[1..];
      assert forall i :: 0 <= i < |rest| ==> StrLe(key(xs[0]), key(rest[i])) by {
        forall i | 0 <= i < |rest|
          ensures StrLe(key(xs[0]), key(rest[i]))
        {
          assert rest[i] in multiset(rest);
          if rest[i] == x {
            StrLeTotal(key(x), key(xs[0]));
          } else {
            assert rest[i] in multiset(xs[1..]);
            var k :| 0 <= k < |xs[1..]| && xs[1..][k] == rest[i];
            assert xs[k + 1] == rest[i];
          }
        }
      }
      SortedOnCons(xs[0], rest, key);
      [xs[0]] + rest
  }

  /** Insertion sort on `key`: a permutation of `xs` in ascending key order. */
  function SortOn<T>(xs: seq<T>, key: T -> string): (r: seq<T>)
    ensures SortedOn(r, key)
    ensures multiset(r) == multiset(xs)
    ensures |r| == |xs|
  {
    if |xs| == 0 then []
    else
      assert xs == [xs[0]] + xs[1..];
      InsertOn(xs[0], SortOn(xs[1..], key), key)
  }

  /** Membership survives sorting in both directions. */
  lemma SortOnMembers<T>(xs: seq<T>, key: T -> string)
    ensures forall x :: x in SortOn(xs, key) <==> x in xs
  {
    var r := SortOn(xs, key);
    forall x
      ensures x in r <==> x in xs
    {
      assert x in r <==> x in multiset(r);
      assert x in xs <==> x in multiset(xs);
    }
  }

  /** The elements of `xs` appear in non-increasing order of `key`. */
  predicate SortedDescOn<T>(xs: seq<T>, key: T -> real)
  {
    forall i, j :: 0 <= i < j < |xs| ==> key(xs[i]) >= key(xs[j])
  }

  lemma SortedDescOnCons<T>(h: T, xs: seq<T>, key: T -> real)
    requires SortedDescOn(xs, key)
    requires forall i :: 0 <= i < |xs| ==> key(h) >= key(xs[i])
    ensures SortedDescOn([h] + xs, key)
  {
    var ys := [h] + xs;
    forall i, j | 0 <= i < j < |ys|
      ensures key(ys[i]) >= key(ys[j])
    {
      if i > 0 {
        assert ys[i] == xs[i - 1] && ys[j] == xs[j - 1];
      } else {
        assert ys[j] == xs[j - 1];
      }
    }
  }

  /** Inserts `x` into the non-increasing `xs` before the first element with a
      smaller key. */
  function InsertDescOn<T>(x: T, xs: seq<T>, key: T -> real): (r: seq<T>)
    requires SortedDescOn(xs, key)
    ensures SortedDescOn(r, key)
    ensures multiset(r) == multiset(xs) + multiset{x}
    ensures |r| == |xs| + 1
  {
    if |xs| == 0 then [x]
    else if key(x) >= key(xs[0]) then
      SortedDescOnCons(x, xs, key);
      [x] + xs
    else
      var rest := InsertDescOn(x, xs[1..], key);
      assert xs == [xs[0]] + xs[1..];
      assert forall i :: 0 <= i < |rest| ==> key(xs[0]) >= key(rest[i]) by {
        forall i | 0 <= i < |rest|
          ensures key(xs[0]) >= key(rest[i])
        {
          assert rest[i] in multiset(rest);
          if rest[i] != x {
            assert rest[i] in multiset(xs[1..]);
            var k :| 0 <= k < |xs[1..]| && xs[1..][k] == rest[i];
            assert xs[k + 1] == rest[i];
          }
        }
      }
      SortedDescOnCons(xs[0], rest, key);
      [xs[0]] + rest
  }

  /** Insertion sort: a permutation of `xs` in non-increasing key order. */
  function SortDescOn<T>(xs: seq<T>, key: T -> real): (r: seq<T>)
    ensures SortedDescOn(r, key)
    ensures multiset(r) == multiset(xs)
    ensures |r| == |xs|
  {
    if |xs| == 0 then []
    else
      assert xs == [xs[0]] + xs[1..];
      InsertDescOn(xs[0], SortDescOn(xs[1..], key), key)
  }

  /** Membership survives sorting by descending key in both directions. */
  lemma SortDescOnMembers<T>(xs: seq<T>, key: T -> real)
    ensures forall x :: x in SortDescOn(xs, key) <==> x in xs
  {
    var r := SortDescOn(xs, key);
    forall x
      ensures x in r <==> x in xs
    {
      assert x in r <==> x in multiset(r);
      assert x in xs <==> x in multiset(xs);
    }
  }

  /** In a list sorted by descending key, every element of a prefix has a key
      at least that of any element outside the prefix. */
  lemma PrefixIsTop<T>(xs: seq<T>, key: T -> real, k: int)
    requires SortedDescOn(xs, key) && 0 <= k <= |xs|
    ensures forall c, x :: (c in xs && c !in xs[..k] && x in xs[..k]) ==> key(x) >= key(c)
  {
    forall c, x | c in xs && c !in xs[..k] && x in xs[..k]
      ensures key(x) >= key(c)
    {
      var i :| 0 <= i < |xs| && xs[i] == c;
      var j :| 0 <= j < k && xs[..k][j] == x;
      assert forall m :: 0 <= m < k ==> xs[..k][m] == xs[m];
      assert xs[j] == x;
    }
  }

  /** A prefix takes each element at most as often as the whole list does. */
  lemma PrefixSubMultiset<T>(xs: seq<T>, k: int)
    requires 0 <= k <= |xs|
    ensures multiset(xs[..k]) <= multiset(xs)
  {
    assert xs == xs[..k] + xs[k..];
  }

  /** Removing the element at `i` removes one occurrence of it. */
  lemma RemoveAtMultiset<T>(xs: seq<T>, i: int)
    requires 0 <= i < |xs|
    ensures xs == xs[..i] + [xs[i]] + xs[i + 1..]
    ensures multiset(xs[..i] + xs[i + 1..]) == multiset(xs) - multiset{xs[i]}
  {
    assert xs == xs[..i] + [xs[i]] + xs[i + 1..];
  }

  /** `xs.map(f)`. */
  function MapSeq<A, B>(xs: seq<A>, f: A -> B): (r: seq<B>)
    ensures |r| == |xs|
    ensures forall i :: 0 <= i < |xs| ==> r[i] == f(xs[i])
  {
    seq(|xs|, i requires 0 <= i < |xs| => f(xs[i]))
  }

  lemma MapSeqAppend<A, B>(a: seq<A>, b: seq<A>, f: A -> B)
    ensures MapSeq(a + b, f) == MapSeq(a, f) + MapSeq(b, f)
  {
    assert forall i :: 0 <= i < |a + b| ==> MapSeq(a + b, f)[i] == (MapSeq(a, f) + MapSeq(b, f))[i];
  }

  /** Mapping a list is mapping it without the element at `i`, plus that
      element's image. */
  lemma MapSeqRemoveAt<A, B>(xs: seq<A>, i: int, f: A -> B)
    requires 0 <= i < |xs|
    ensures multiset(MapSeq(xs, f)) == multiset(MapSeq(xs[..i] + xs[i + 1..], f)) + multiset{f(xs[i])}
  {
    RemoveAtMultiset(xs, i);
    MapSeqAppend(xs[..i], [xs[i]], f);
    MapSeqAppend(xs[..i] + [xs[i]], xs[i + 1..], f);
    MapSeqAppend(xs[..i], xs[i + 1..], f);
    assert MapSeq([xs[i]], f) == [f(xs[i])];
  }

  /** Mapping two reorderings of a list gives two reorderings of the mapped
      list: each image occurs as often as its preimages do. */
  lemma {:induction false} MapSeqPermutes<A, B>(a: seq<A>, b: seq<A>, f: A -> B)
    requires multiset(a) == multiset(b)
    ensures multiset(MapSeq(a, f)) == multiset(MapSeq(b, f))
    decreases |a|
  {
    if |a| == 0 {
      assert |b| == |multiset(b)| == 0;
    } else {
      assert a[0] in multiset(b);
      var i :| 0 <= i < |b| && b[i] == a[0];
      RemoveAtMultiset(b, i);
      RemoveAtMultiset(a, 0);
      assert a[..0] + a[1..] == a[1..];
      MapSeqPermutes(a[1..], b[..i] + b[i + 1..], f);
      MapSeqRemoveAt(a, 0, f);
      MapSeqRemoveAt(b, i, f);
    }
  }

  function Min(a: int, b: int): int
  {
    if a <= b then a else b
  }
}
