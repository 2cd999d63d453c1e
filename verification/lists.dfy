/**
 * The LIST operations the hash set calls on its buckets, over a sequence
 * read from the head node onwards. Items are compared with `==`, standing
 * for the user's compare function returning 0.
 */
module Lists {
  import opened Wrappers
  import opened Seqs

  /** findItem: the data of the first node equal to `x`, or None. */
  function FindItem<T(==)>(l: seq<T>, x: T): (r: Option<T>)
    ensures r.Some? <==> x in l
    ensures r.Some? ==> r.value == x
  {
    if |l| == 0 then None
    else if l[0] == x then Some(l[0])
    else FindItem(l[1..], x)
  }

  /** removeItem: unlink the first node equal to `x`; no change if there is none. */
  function RemoveItem<T(==)>(l: seq<T>, x: T): (r: seq<T>)
    ensures x !in l ==> r == l
    ensures x in l ==> |r| == |l| - 1
    ensures multiset(r) == multiset(l) - multiset{x}
  {
    if |l| == 0 then []
    else
      assert l == [l[0]] + l[1..];
      if l[0] == x then l[1..]
      else [l[0]] + RemoveItem(l[1..], x)
  }

  /** The node removed is the first one holding `x`; the others keep their order. */
  lemma {:induction false} RemoveItemFirst<T>(l: seq<T>, x: T, i: nat)
    requires i < |l| && l[i] == x && x !in l[..i]
    ensures RemoveItem(l, x) == l[..i] + l[i + 1..]
  {
    if i > 0 {
      assert l[0] == l[..i][0];
      assert l[1..][..i - 1] == l[1..i];
      RemoveItemFirst(l[1..], x, i - 1);
      assert l[..i] == [l[0]] + l[1..i];
      assert l[1..][i..] == l[i + 1..];
    }
  }

  /** On a duplicate-free list, removeItem removes `x` and only `x`. */
  lemma RemoveItemDistinct<T>(l: seq<T>, x: T)
    requires Distinct(l)
    ensures Distinct(RemoveItem(l, x))
    ensures forall y :: y in RemoveItem(l, x) <==> y in l && y != x
  {
    if x in l {
      var i :| 0 <= i < |l| && l[i] == x;
      assert x !in l[..i] by {
        forall k | 0 <= k < i ensures l[..i][k] != x {
          assert l[..i][k] == l[k];
        }
      }
      RemoveItemFirst(l, x, i);
      DropDistinct(l, i);
    }
  }

  /** Dropping position `i` of a duplicate-free sequence leaves it duplicate-free and loses only `l[i]`. */
  lemma DropDistinct<T>(l: seq<T>, i: nat)
    requires Distinct(l) && i < |l|
    ensures Distinct(l[..i] + l[i + 1..])
    ensures forall y :: y in l[..i] + l[i + 1..] <==> y in l && y != l[i]
  {
  }
}
