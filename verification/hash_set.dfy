/**
 * A SET of generic elements kept in a hash table of LIST buckets (separate
 * chaining).
 *
 * Each bucket is the sequence of its list's items read from the head. The
 * user's hash function is the pure function `hash`, and the user's compare
 * function returning 0 is `==`. Every operation returns the new set value.
 */
module HashSet {
  import opened Wrappers
  import opened Seqs
  import opened Lists

  datatype HashSet<!T> = HashSet(buckets: seq<seq<T>>, count: int, length: int, hash: T -> nat)

  /** The shape the hashing operations rely on: at least one bucket, and `length` of them. */
  predicate WellFormed<T>(s: HashSet<T>) {
    s.length > 0 && |s.buckets| == s.length
  }

  /** The bucket an element belongs to: `hash(elt) % length`. */
  function Home<T>(s: HashSet<T>, x: T): (b: nat)
    requires s.length > 0
    ensures b < s.length
  {
    s.hash(x) % s.length
  }

  /** The number of items over all buckets. */
  function TotalSize<T>(bs: seq<seq<T>>): nat {
    if |bs| == 0 then 0 else TotalSize(bs[..|bs| - 1]) + |bs[|bs| - 1]|
  }

  /** The items of all buckets, bucket 0 first and each bucket from its head. */
  function Flatten<T>(bs: seq<seq<T>>): seq<T> {
    if |bs| == 0 then [] else Flatten(bs[..|bs| - 1]) + bs[|bs| - 1]
  }

  /** The representation invariant. */
  predicate Valid<T(==)>(s: HashSet<T>) {
    && WellFormed(s)
    && (forall b, i :: 0 <= b < |s.buckets| && 0 <= i < |s.buckets[b]| ==> Home(s, s.buckets[b][i]) == b)
    && (forall b :: 0 <= b < |s.buckets| ==> Distinct(s.buckets[b]))
    && s.count == TotalSize(s.buckets)
  }

  /** The mathematical set the table stands for: the union of its buckets. */
  function Contents<T>(s: HashSet<T>): set<T> {
    set b, x | 0 <= b < |s.buckets| && x in s.buckets[b] :: x
  }

  /** createSet: `maxElts / 20` empty buckets; the table is usable only when that is at least one. */
  function CreateSet<T>(maxElts: nat, hash: T -> nat): (r: HashSet<T>)
    ensures r.length == maxElts / 20 && r.count == 0
    ensures |r.buckets| == r.length && forall b :: 0 <= b < |r.buckets| ==> r.buckets[b] == []
    ensures Contents(r) == {}
    ensures Valid(r) <==> maxElts >= 20
  {
    var r := HashSet(seq(maxElts / 20, _ => []), 0, maxElts / 20, hash);
    EmptyTotalSize(r.buckets);
    r
  }

  /** numElements: the element count, which on a valid table is the size of the abstract set. */
  function NumElements<T>(s: HashSet<T>): (r: int)
    ensures Valid(s) ==> r == |Contents(s)|
  {
    CountIsCardinality(s);
    s.count
  }

  /** addElement: prepend `x` to its home bucket unless that bucket already holds it. */
  function AddElement<T(==)>(s: HashSet<T>, x: T): (r: HashSet<T>)
    requires WellFormed(s)
    ensures r.length == s.length && r.hash == s.hash && |r.buckets| == |s.buckets|
    ensures x in s.buckets[Home(s, x)] ==> r.buckets == s.buckets && r.count == s.count
    ensures x !in s.buckets[Home(s, x)] ==>
              && r.buckets[Home(s, x)] == [x] + s.buckets[Home(s, x)]
              && r.count == s.count + 1
    ensures forall b :: 0 <= b < |s.buckets| && b != Home(s, x) ==> r.buckets[b] == s.buckets[b]
  {
    var loc := Home(s, x);
    if FindItem(s.buckets[loc], x).Some? then s
    else s.(buckets := s.buckets[loc := [x] + s.buckets[loc]], count := s.count + 1)
  }

  /** removeElement: delete `x` from its home bucket if it is there. */
  function RemoveElement<T(==)>(s: HashSet<T>, x: T): (r: HashSet<T>)
    requires WellFormed(s)
    ensures r.length == s.length && r.hash == s.hash && |r.buckets| == |s.buckets|
    ensures x !in s.buckets[Home(s, x)] ==> r.buckets == s.buckets && r.count == s.count
    ensures x in s.buckets[Home(s, x)] ==>
              && |r.buckets[Home(s, x)]| == |s.buckets[Home(s, x)]| - 1
              && multiset(r.buckets[Home(s, x)]) == multiset(s.buckets[Home(s, x)]) - multiset{x}
              && r.count == s.count - 1
    ensures forall b :: 0 <= b < |s.buckets| && b != Home(s, x) ==> r.buckets[b] == s.buckets[b]
  {
    var loc := Home(s, x);
    if FindItem(s.buckets[loc], x).None? then s
    else s.(buckets := s.buckets[loc := RemoveItem(s.buckets[loc], x)], count := s.count - 1)
  }

  /** findElement: look for `x` in its home bucket only. */
  function FindElement<T(==)>(s: HashSet<T>, x: T): (r: Option<T>)
    requires WellFormed(s)
    ensures r.Some? <==> x in s.buckets[Home(s, x)]
    ensures r.Some? ==> r.value == x
  {
    FindItem(s.buckets[Home(s, x)], x)
  }

  /** getElements: the items of buckets 0 to length - 1, copied one bucket after another. */
  method GetElements<T>(s: HashSet<T>) returns (arr: seq<T>)
    requires |s.buckets| == s.length
    ensures arr == Flatten(s.buckets)
    ensures |arr| == TotalSize(s.buckets)
  {
    arr := [];
    var tot := 0;
    var i := 0;
    while i < s.length
      invariant 0 <= i <= s.length
      invariant arr == Flatten(s.buckets[..i])
      invariant tot == |arr| == TotalSize(s.buckets[..i])
    {
      var subArr := s.buckets[i];
      var len := |subArr|;
      assert s.buckets[..i + 1][..i] == s.buckets[..i];
      arr := arr + subArr;
      tot := tot + len;
      i := i + 1;
    }
    assert s.buckets[..i] == s.buckets;
  }

  // ---------------------------------------------------------------------
  // Facts about the bucket sequence

  lemma {:induction false} EmptyTotalSize<T>(bs: seq<seq<T>>)
    requires forall b :: 0 <= b < |bs| ==> bs[b] == []
    ensures TotalSize(bs) == 0
  {
    if |bs| > 0 {
      EmptyTotalSize(bs[..|bs| - 1]);
    }
  }

  /** Replacing one bucket changes the total size by the change in that bucket's size. */
  lemma {:induction false} TotalSizeUpdate<T>(bs: seq<seq<T>>, h: nat, l: seq<T>)
    requires h < |bs|
    ensures TotalSize(bs[h := l]) == TotalSize(bs) - |bs[h]| + |l|
  {
    var n := |bs| - 1;
    if h < n {
      assert bs[h := l][..n] == bs[..n][h := l];
      TotalSizeUpdate(bs[..n], h, l);
    } else {
      assert bs[h := l][..n] == bs[..n];
    }
  }

  /** Flattening keeps every item and adds none. */
  lemma {:induction false} FlattenMember<T>(bs: seq<seq<T>>, x: T)
    ensures x in Flatten(bs) <==> exists b :: 0 <= b < |bs| && x in bs[b]
  {
    if |bs| > 0 {
      var n := |bs| - 1;
      FlattenMember(bs[..n], x);
      if x in Flatten(bs[..n]) {
        var b :| 0 <= b < n && x in bs[..n][b];
        assert x in bs[b];
      }
      if exists b :: 0 <= b < |bs| && x in bs[b] {
        var b :| 0 <= b < |bs| && x in bs[b];
        if b < n {
          assert x in bs[..n][b];
        }
      }
    }
  }

  /** The flattened table is as long as the total size. */
  lemma {:induction false} FlattenLength<T>(bs: seq<seq<T>>)
    ensures |Flatten(bs)| == TotalSize(bs)
  {
    if |bs| > 0 {
      FlattenLength(bs[..|bs| - 1]);
    }
  }

  /** Duplicate-free buckets that share no item flatten to a duplicate-free sequence. */
  lemma {:induction false} FlattenDistinct<T>(bs: seq<seq<T>>)
    requires forall b :: 0 <= b < |bs| ==> Distinct(bs[b])
    requires forall b, c, x :: 0 <= b < c < |bs| && x in bs[b] ==> x !in bs[c]
    ensures Distinct(Flatten(bs))
  {
    if |bs| > 0 {
      var n := |bs| - 1;
      var front := bs[..n];
      FlattenDistinct(front);
      var f := Flatten(front);
      var last := bs[n];
      assert Flatten(bs) == f + last;
      forall i, j | 0 <= i < j < |f + last| ensures (f + last)[i] != (f + last)[j] {
        if i < |f| && j >= |f| {
          var x := f[i];
          FlattenMember(front, x);
          var b :| 0 <= b < n && x in front[b];
          assert x in bs[b];
          assert (f + last)[j] == last[j - |f|];
        } else if i >= |f| {
          assert (f + last)[i] == last[i - |f|];
          assert (f + last)[j] == last[j - |f|];
        }
      }
    }
  }

  // ---------------------------------------------------------------------
  // The table refines its abstract set

  /** Under the invariant an element is in the set exactly when it is in its home bucket. */
  lemma HomeMember<T>(s: HashSet<T>, x: T)
    requires Valid(s)
    ensures x in Contents(s) <==> x in s.buckets[Home(s, x)]
  {
  }

  /** Under the invariant no element sits in two buckets. */
  lemma BucketsDisjoint<T>(s: HashSet<T>)
    requires Valid(s)
    ensures forall b, c, x :: 0 <= b < c < |s.buckets| && x in s.buckets[b] ==> x !in s.buckets[c]
  {
  }

  /** getElements returns every element of the abstract set exactly once, `count` of them. */
  lemma GetElementsIsContents<T>(s: HashSet<T>)
    requires Valid(s)
    ensures |Flatten(s.buckets)| == s.count
    ensures Distinct(Flatten(s.buckets))
    ensures Elems(Flatten(s.buckets)) == Contents(s)
  {
    var bs := s.buckets;
    BucketsDisjoint(s);
    FlattenDistinct(bs);
    FlattenLength(bs);
    forall x ensures x in Elems(Flatten(bs)) <==> x in Contents(s) {
      FlattenMember(bs, x);
    }
    assert Elems(Flatten(bs)) == Contents(s);
  }

  /** On a valid table the element count is the size of the abstract set. */
  lemma CountIsCardinality<T>(s: HashSet<T>)
    ensures Valid(s) ==> s.count == |Contents(s)|
  {
    if Valid(s) {
      GetElementsIsContents(s);
      DistinctCardinality(Flatten(s.buckets));
    }
  }

  /** findElement answers membership in the abstract set. */
  lemma FindElementRefines<T>(s: HashSet<T>, x: T)
    requires Valid(s)
    ensures FindElement(s, x).Some? <==> x in Contents(s)
  {
  }

  /** addElement keeps the invariant and adds exactly `x` to the abstract set. */
  lemma AddElementRefines<T>(s: HashSet<T>, x: T)
    requires Valid(s)
    ensures Valid(AddElement(s, x))
    ensures Contents(AddElement(s, x)) == Contents(s) + {x}
  {
    var h := Home(s, x);
    var r := AddElement(s, x);
    var l := s.buckets[h];
    HomeMember(s, x);
    if x !in l {
      TotalSizeUpdate(s.buckets, h, [x] + l);
      forall b, i | 0 <= b < |r.buckets| && 0 <= i < |r.buckets[b]| ensures Home(r, r.buckets[b][i]) == b {
        if b == h && i > 0 {
          assert r.buckets[b][i] == l[i - 1];
        }
      }
      forall i, j | 0 <= i < j < |[x] + l| ensures ([x] + l)[i] != ([x] + l)[j] {
        assert ([x] + l)[j] == l[j - 1];
        if i > 0 {
          assert ([x] + l)[i] == l[i - 1];
        }
      }
      assert Valid(r);
      forall y ensures y in Contents(r) <==> y in Contents(s) || y == x {
        HomeMember(s, y);
        HomeMember(r, y);
        if Home(s, y) != h {
          assert r.buckets[Home(s, y)] == s.buckets[Home(s, y)];
          assert y != x;
        }
      }
    }
  }

  /** removeElement keeps the invariant and removes exactly `x` from the abstract set. */
  lemma RemoveElementRefines<T>(s: HashSet<T>, x: T)
    requires Valid(s)
    ensures Valid(RemoveElement(s, x))
    ensures Contents(RemoveElement(s, x)) == Contents(s) - {x}
  {
    var h := Home(s, x);
    var r := RemoveElement(s, x);
    var l := s.buckets[h];
    HomeMember(s, x);
    if x in l {
      RemoveItemDistinct(l, x);
      TotalSizeUpdate(s.buckets, h, RemoveItem(l, x));
      assert r.buckets[h] == RemoveItem(l, x);
      forall b, i | 0 <= b < |r.buckets| && 0 <= i < |r.buckets[b]| ensures Home(r, r.buckets[b][i]) == b {
        if b == h {
          var y := r.buckets[b][i];
          assert y in RemoveItem(l, x);
          assert multiset(RemoveItem(l, x))[y] > 0;
          assert y in l;
          var k :| 0 <= k < |l| && l[k] == y;
          assert Home(s, s.buckets[h][k]) == h;
        }
      }
      assert Valid(r);
      forall y ensures y in Contents(r) <==> y in Contents(s) && y != x {
        HomeMember(s, y);
        HomeMember(r, y);
        if Home(s, y) != h {
          assert r.buckets[Home(s, y)] == s.buckets[Home(s, y)];
        }
      }
    }
  }

  /** Adding an element twice is the same as adding it once. */
  lemma AddElementIdempotent<T>(s: HashSet<T>, x: T)
    requires WellFormed(s)
    ensures AddElement(AddElement(s, x), x).buckets == AddElement(s, x).buckets
    ensures AddElement(AddElement(s, x), x).count == AddElement(s, x).count
  {
  }

  /** Removing a freshly added element restores the table exactly. */
  lemma AddRemoveRoundTrip<T>(s: HashSet<T>, x: T)
    requires WellFormed(s)
    requires x !in s.buckets[Home(s, x)]
    ensures RemoveElement(AddElement(s, x), x).buckets == s.buckets
    ensures RemoveElement(AddElement(s, x), x).count == s.count
  {
  }
}
