/**
 * A bounded SET of strings kept in an unsorted array.
 *
 * The array of `length` slots is modelled as a sequence of the same length;
 * a slot holds `None` for a NULL (or never written) pointer and `Some(s)` for
 * a stored string. Only the prefix `data[0..count)` is live. Each operation
 * takes the set and returns its new value, as the C functions update the
 * structure behind the pointer they are given.
 */
module UnsortedSet {
  import opened Wrappers
  import opened Seqs

  type String = seq<char>

  datatype ArraySet = ArraySet(data: seq<Option<String>>, length: int, count: int)

  /** The shape every function relies on: a live prefix of non-NULL strings inside the array. */
  predicate WellFormed(s: ArraySet) {
    && 0 <= s.count <= s.length
    && |s.data| == s.length
    && forall i :: 0 <= i < s.count ==> s.data[i].Some?
  }

  /** The strings in the live prefix, in array order. */
  function Live(s: ArraySet): (r: seq<String>)
    requires WellFormed(s)
    ensures |r| == s.count
    ensures forall i :: 0 <= i < s.count ==> s.data[i] == Some(r[i])
  {
    seq(s.count, i requires 0 <= i < s.count => s.data[i].value)
  }

  /** The representation invariant: well formed and no string stored twice. */
  predicate Valid(s: ArraySet) {
    WellFormed(s) && Distinct(Live(s))
  }

  /** The mathematical set the array stands for. */
  function Contents(s: ArraySet): set<String>
    requires WellFormed(s)
  {
    Elems(Live(s))
  }

  /** search: index of the first live slot equal to `elt`, or -1 when there is none. */
  method Search(s: ArraySet, elt: String) returns (r: int)
    requires WellFormed(s)
    ensures -1 <= r < s.count
    ensures r == -1 <==> forall i :: 0 <= i < s.count ==> s.data[i] != Some(elt)
    ensures r != -1 ==> s.data[r] == Some(elt)
    ensures forall i :: 0 <= i < r ==> s.data[i] != Some(elt)
  {
    var i := 0;
    while i < s.count
      invariant 0 <= i <= s.count
      invariant forall j :: 0 <= j < i ==> s.data[j] != Some(elt)
    {
      if s.data[i].value == elt {
        return i;
      }
      i := i + 1;
    }
    return -1;
  }

  /** `elt` is stored in a live slot exactly when it belongs to the abstract set. */
  lemma ContentsMember(s: ArraySet, elt: String)
    requires WellFormed(s)
    ensures elt in Contents(s) <==> exists i :: 0 <= i < s.count && s.data[i] == Some(elt)
  {
  }

  /** createSet: an empty set with room for `maxElts` strings. */
  method CreateSet(maxElts: nat) returns (s: ArraySet)
    ensures Valid(s)
    ensures s.length == maxElts && s.count == 0
    ensures Contents(s) == {}
  {
    s := ArraySet(seq(maxElts, _ => None), maxElts, 0);
    assert Live(s) == [];
  }

  /** numElements: the number of strings held, which is the size of the abstract set. */
  method NumElements(s: ArraySet) returns (n: int)
    requires Valid(s)
    ensures n == s.count
    ensures n == |Contents(s)|
  {
    DistinctCardinality(Live(s));
    n := s.count;
  }

  /**
   * addElement: nothing happens when the array is full or `elt` is already
   * there; otherwise a copy of `elt` goes into slot `count`.
   */
  method AddElement(s: ArraySet, elt: String) returns (r: ArraySet)
    requires Valid(s)
    ensures Valid(r)
    ensures r.length == s.length
    ensures s.count >= s.length || elt in Contents(s) ==> r == s
    ensures s.count < s.length && elt !in Contents(s) ==>
              r.count == s.count + 1 && r.data == s.data[s.count := Some(elt)]
    ensures s.count < s.length ==> Contents(r) == Contents(s) + {elt}
    ensures s.count >= s.length ==> Contents(r) == Contents(s)
  {
    if s.count >= s.length {
      return s;
    }
    var loc := Search(s, elt);
    ContentsMember(s, elt);
    if loc != -1 {
      return s;
    }
    r := ArraySet(s.data[s.count := Some(elt)], s.length, s.count + 1);
    assert Live(r) == Live(s) + [elt];
  }

  /**
   * removeElement: nothing happens when `elt` is absent; otherwise the last
   * live string moves into the hole, the old last slot becomes NULL and the
   * count drops by one.
   */
  method RemoveElement(s: ArraySet, elt: String) returns (r: ArraySet)
    requires Valid(s)
    ensures Valid(r)
    ensures r.length == s.length
    ensures Contents(r) == Contents(s) - {elt}
    ensures elt !in Contents(s) ==> r == s
    ensures elt in Contents(s) ==>
              && r.count == s.count - 1
              && r.data[r.count] == None
              && exists loc :: 0 <= loc < s.count && s.data[loc] == Some(elt)
                               && r.data == s.data[loc := s.data[s.count - 1]][s.count - 1 := None]
  {
    var loc := Search(s, elt);
    ContentsMember(s, elt);
    if loc == -1 {
      return s;
    }
    var last := s.count - 1;
    r := ArraySet(s.data[loc := s.data[last]][last := None], s.length, last);
    var live := Live(s);
    if loc == last {
      assert Live(r) == live[..loc];
    } else {
      assert Live(r) == live[..loc] + [live[last]] + live[loc + 1..last];
    }
    RemoveLiveContents(live, loc, Live(r));
  }

  /** Filling hole `loc` of a duplicate-free sequence with its last string removes exactly the string at `loc`. */
  lemma RemoveLiveContents(live: seq<String>, loc: int, after: seq<String>)
    requires Distinct(live) && 0 <= loc < |live|
    requires after == if loc == |live| - 1 then live[..loc]
                      else live[..loc] + [live[|live| - 1]] + live[loc + 1..|live| - 1]
    ensures Distinct(after)
    ensures Elems(after) == Elems(live) - {live[loc]}
  {
  }

  /** findElement: the stored string equal to `elt`, or None when it is absent. */
  method FindElement(s: ArraySet, elt: String) returns (r: Option<String>)
    requires WellFormed(s)
    ensures r == None <==> elt !in Contents(s)
    ensures r.Some? ==> r.value == elt && r.value in Contents(s)
  {
    var loc := Search(s, elt);
    ContentsMember(s, elt);
    r := if loc == -1 then None else s.data[loc];
  }

  /** getElements: a copy of the live prefix, in array order. */
  method GetElements(s: ArraySet) returns (arr: seq<String>)
    requires WellFormed(s)
    ensures |arr| == s.count
    ensures forall i :: 0 <= i < s.count ==> s.data[i] == Some(arr[i])
    ensures Elems(arr) == Contents(s)
    ensures Valid(s) ==> Distinct(arr)
  {
    arr := Live(s);
  }
}
