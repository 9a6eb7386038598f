/**
 * The ordered container `Set` of glyph-tools.js: an array of values that
 * `add` keeps in the order of a caller-supplied strict ordering `keyComp`,
 * together with positional and raw operations that do not keep that order.
 *
 * The pure functions below are the specification of the container's
 * operations; the class `OrderedSet` is the container itself, whose methods
 * update its `values` in place and are proved against those functions.
 */
module OrderedSets {
  import opened Wrappers

  // ---------------------------------------------------------------------
  // Orderings
  // ---------------------------------------------------------------------

  /** `less` is a strict weak ordering: irreflexive, transitive, and
      negatively transitive (so "neither is less" is an equivalence). */
  ghost predicate StrictWeakOrder<T(!new)>(less: (T, T) -> bool)
  {
    && (forall x :: !less(x, x))
    && (forall x, y, z :: less(x, y) && less(y, z) ==> less(x, z))
    && (forall x, y, z :: less(x, z) ==> less(x, y) || less(y, z))
  }

  /** Neither value is less than the other: the container's equality. */
  predicate Equiv<T>(less: (T, T) -> bool, x: T, y: T)
  {
    !less(x, y) && !less(y, x)
  }

  /** Non-decreasing: no element is less than an earlier one. */
  predicate Sorted<T>(s: seq<T>, less: (T, T) -> bool)
  {
    forall i, j :: 0 <= i < j < |s| ==> !less(s[j], s[i])
  }

  /** Strictly increasing: every element is less than every later one. */
  predicate StrictlySorted<T>(s: seq<T>, less: (T, T) -> bool)
  {
    forall i, j :: 0 <= i < j < |s| ==> less(s[i], s[j])
  }

  /** Every element of `s` has an equivalent element in `t`. */
  predicate Covers<T>(s: seq<T>, t: seq<T>, less: (T, T) -> bool)
  {
    forall k :: 0 <= k < |s| ==> exists j :: 0 <= j < |t| && Equiv(less, s[k], t[j])
  }

  lemma NegativelyTransitive<T(!new)>(less: (T, T) -> bool, x: T, y: T, z: T)
    requires StrictWeakOrder(less)
    ensures less(x, z) ==> less(x, y) || less(y, z)
  {
  }

  lemma Transitive<T(!new)>(less: (T, T) -> bool, x: T, y: T, z: T)
    requires StrictWeakOrder(less)
    ensures less(x, y) && less(y, z) ==> less(x, z)
  {
  }

  lemma EquivTransitive<T(!new)>(less: (T, T) -> bool, x: T, y: T, z: T)
    requires StrictWeakOrder(less)
    requires Equiv(less, x, y) && Equiv(less, y, z)
    ensures Equiv(less, x, z)
  {
    NegativelyTransitive(less, x, y, z);
    NegativelyTransitive(less, z, y, x);
  }

  // ---------------------------------------------------------------------
  // Specification of the operations
  // ---------------------------------------------------------------------

  /** The index `lowerBound(v)` returns: the first position whose element
      is not less than `v`, or the length when there is none. */
  function LowerBoundIndex<T>(s: seq<T>, v: T, less: (T, T) -> bool): (i: nat)
    ensures i <= |s|
    ensures forall k :: 0 <= k < i ==> less(s[k], v)
    ensures i < |s| ==> !less(s[i], v)
  {
    LowerBoundFrom(s, v, less, 0)
  }

  /** The scan of `lowerBound` from position `from` on. */
  function LowerBoundFrom<T>(s: seq<T>, v: T, less: (T, T) -> bool, from: nat): (i: nat)
    requires from <= |s|
    requires forall k :: 0 <= k < from ==> less(s[k], v)
    ensures from <= i <= |s|
    ensures forall k :: 0 <= k < i ==> less(s[k], v)
    ensures i < |s| ==> !less(s[i], v)
    decreases |s| - from
  {
    if from == |s| || !less(s[from], v) then from else LowerBoundFrom(s, v, less, from + 1)
  }

  /** Where `splice(i, 0, v)` puts `v` in an array of length `len`: a
      negative index counts back from the end, and an index beyond either
      end is clamped to it. */
  function SpliceIndex(i: int, len: nat): (p: nat)
    ensures p <= len
  {
    if i < 0 then (if len + i < 0 then 0 else len + i)
    else if i > len then len
    else i
  }

  /** The array after `splice(i, 0, v)`. */
  function Inserted<T>(s: seq<T>, i: int, v: T): (r: seq<T>)
    ensures |r| == |s| + 1
  {
    var p := SpliceIndex(i, |s|);
    s[..p] + [v] + s[p..]
  }

  /** For an index in range, which is the only kind `add` and `addMulti`
      pass, `splice` puts `v` exactly at that index. */
  lemma InsertedInRange<T>(s: seq<T>, i: int, v: T)
    requires 0 <= i <= |s|
    ensures Inserted(s, i, v) == s[..i] + [v] + s[i..]
  {
  }

  /** `splice` adds `v` to the contents and moves nothing else. */
  lemma InsertedContents<T>(s: seq<T>, i: int, v: T)
    ensures multiset(Inserted(s, i, v)) == multiset(s) + multiset{v}
    ensures var p := SpliceIndex(i, |s|);
      Inserted(s, i, v)[p] == v && Inserted(s, i, v)[..p] == s[..p] && Inserted(s, i, v)[p + 1..] == s[p..]
  {
    var p := SpliceIndex(i, |s|);
    assert s == s[..p] + s[p..];
  }

  /** The test `add` makes: `v` is inserted when its lower bound is the end
      or holds an element that `v` is less than. */
  predicate AddsNew<T>(s: seq<T>, v: T, less: (T, T) -> bool)
  {
    var i := LowerBoundIndex(s, v, less);
    i == |s| || less(v, s[i])
  }

  /** The values after `add(v)`. */
  function Added<T>(s: seq<T>, v: T, less: (T, T) -> bool): seq<T>
  {
    if AddsNew(s, v, less) then Inserted(s, LowerBoundIndex(s, v, less), v) else s
  }

  /** The compaction pass of `sortAndUnique`: the first element is kept,
      and each later one is kept exactly when its predecessor in `s` is
      less than it. */
  function Compact<T>(s: seq<T>, less: (T, T) -> bool): seq<T>
    decreases |s|
  {
    if |s| <= 1 then s
    else if less(s[|s| - 2], s[|s| - 1]) then Compact(s[..|s| - 1], less) + [s[|s| - 1]]
    else Compact(s[..|s| - 1], less)
  }

  // ---------------------------------------------------------------------
  // Properties of lowerBound and add
  // ---------------------------------------------------------------------

  /** On a sorted sequence the lower bound splits it in two: everything
      before it is less than `v`, nothing from it on is. */
  lemma LowerBoundSplits<T(!new)>(s: seq<T>, v: T, less: (T, T) -> bool)
    requires StrictWeakOrder(less) && Sorted(s, less)
    ensures var i := LowerBoundIndex(s, v, less);
      forall k :: i <= k < |s| ==> !less(s[k], v)
  {
    var i := LowerBoundIndex(s, v, less);
    forall k | i < k < |s| ensures !less(s[k], v) {
      assert !less(s[k], s[i]);
      NegativelyTransitive(less, s[k], s[i], v);
    }
  }

  /** `add` on a strictly increasing sequence: it inserts exactly when no
      equivalent element is present, it then puts `v` at its lower bound,
      it otherwise changes nothing, and it keeps the sequence strictly
      increasing. */
  lemma AddIntoStrictlySorted<T(!new)>(s: seq<T>, v: T, less: (T, T) -> bool)
    requires StrictWeakOrder(less) && StrictlySorted(s, less)
    ensures AddsNew(s, v, less) <==> forall k :: 0 <= k < |s| ==> !Equiv(less, s[k], v)
    ensures AddsNew(s, v, less) ==>
      var i := LowerBoundIndex(s, v, less);
      Added(s, v, less) == s[..i] + [v] + s[i..]
    ensures !AddsNew(s, v, less) ==> Added(s, v, less) == s
    ensures StrictlySorted(Added(s, v, less), less)
  {
  }

  /** A strictly sorted sequence is a strictly sorted prefix followed by an
      element above all of it. */
  lemma StrictlySortedSplit<T>(s: seq<T>, less: (T, T) -> bool)
    requires s != [] && StrictlySorted(s, less)
    ensures s == s[..|s| - 1] + [s[|s| - 1]]
    ensures StrictlySorted(s[..|s| - 1], less)
    ensures forall k :: 0 <= k < |s| - 1 ==> less(s[k], s[|s| - 1])
  {
  }

  /** `add` either inserts `v` and nothing else, or changes nothing. */
  lemma AddedElements<T>(s: seq<T>, v: T, less: (T, T) -> bool)
    ensures AddsNew(s, v, less) ==>
      && |Added(s, v, less)| == |s| + 1
      && forall x :: x in Added(s, v, less) <==> x in s || x == v
    ensures !AddsNew(s, v, less) ==> Added(s, v, less) == s
  {
    if AddsNew(s, v, less) {
      var r := Added(s, v, less);
      InsertedContents(s, LowerBoundIndex(s, v, less), v);
      assert multiset(r) == multiset(s) + multiset{v};
      forall x ensures x in r <==> x in s || x == v {
        assert x in r <==> x in multiset(r);
        assert x in s <==> x in multiset(s);
      }
    }
  }

  /** An element greater than every present one is appended at the end. */
  lemma AddedAtEnd<T>(s: seq<T>, v: T, less: (T, T) -> bool)
    requires forall k :: 0 <= k < |s| ==> less(s[k], v)
    ensures Added(s, v, less) == s + [v]
  {
    assert LowerBoundIndex(s, v, less) == |s|;
    assert s[..|s|] == s && s[|s|..] == [];
  }

  /** Putting `x` after every element it is not less than, and before one it
      is less than, keeps a sequence sorted and adds `x` to its contents. */
  lemma InsertKeepsSorted<T(!new)>(s: seq<T>, j: nat, x: T, less: (T, T) -> bool)
    requires StrictWeakOrder(less) && Sorted(s, less)
    requires j <= |s|
    requires forall k :: 0 <= k < j ==> !less(x, s[k])
    requires forall k :: j <= k < |s| ==> !less(s[k], x)
    ensures Sorted(s[..j] + [x] + s[j..], less)
    ensures multiset(s[..j] + [x] + s[j..]) == multiset(s) + multiset{x}
  {
    var r := s[..j] + [x] + s[j..];
    forall p, q | 0 <= p < q < |r| ensures !less(r[q], r[p]) {
      if q < j {
        assert r[p] == s[p] && r[q] == s[q];
      } else if q == j {
        assert r[p] == s[p];
      } else if p < j {
        assert r[p] == s[p] && r[q] == s[q - 1];
      } else if p == j {
        assert r[q] == s[q - 1];
      } else {
        assert r[p] == s[p - 1] && r[q] == s[q - 1];
      }
    }
    assert s == s[..j] + s[j..];
  }

  /** If `x` is less than the element at `j` of a sorted sequence, no
      element from `j` on is less than `x`. */
  lemma NotLessThanSmaller<T(!new)>(s: seq<T>, j: nat, x: T, less: (T, T) -> bool)
    requires StrictWeakOrder(less) && Sorted(s, less)
    requires j < |s| ==> less(x, s[j])
    ensures forall k :: j <= k < |s| ==> !less(s[k], x)
  {
    forall k | j <= k < |s| ensures !less(s[k], x) {
      assert !less(s[k], s[j]);
      Transitive(less, s[k], x, s[j]);
    }
  }

  /** `addMulti` keeps a sorted sequence sorted. */
  lemma AddMultiKeepsSorted<T(!new)>(s: seq<T>, v: T, less: (T, T) -> bool)
    requires StrictWeakOrder(less) && Sorted(s, less)
    ensures Sorted(Inserted(s, LowerBoundIndex(s, v, less), v), less)
  {
    var i := LowerBoundIndex(s, v, less);
    LowerBoundSplits(s, v, less);
    InsertKeepsSorted(s, i, v, less);
  }

  // ---------------------------------------------------------------------
  // Properties of sortAndUnique
  // ---------------------------------------------------------------------

  /** Every element of the compaction comes from the input. */
  lemma {:induction false} CompactFromInput<T>(s: seq<T>, less: (T, T) -> bool)
    ensures forall x :: x in Compact(s, less) ==> x in s
    decreases |s|
  {
    if |s| > 1 {
      var s' := s[..|s| - 1];
      CompactFromInput(s', less);
      assert forall x :: x in s' ==> x in s;
    }
  }

  /** The compaction of a non-empty sorted sequence is non-empty and ends
      with an element equivalent to the input's last one. */
  lemma {:induction false} CompactLast<T(!new)>(s: seq<T>, less: (T, T) -> bool)
    requires StrictWeakOrder(less) && Sorted(s, less) && |s| >= 1
    ensures |Compact(s, less)| >= 1
    ensures Equiv(less, Compact(s, less)[|Compact(s, less)| - 1], s[|s| - 1])
    decreases |s|
  {
    if |s| > 1 {
      var s' := s[..|s| - 1];
      CompactLast(s', less);
      var c' := Compact(s', less);
      if !less(s[|s| - 2], s[|s| - 1]) {
        assert !less(s[|s| - 1], s[|s| - 2]);
        EquivTransitive(less, c'[|c'| - 1], s[|s| - 2], s[|s| - 1]);
      }
    }
  }

  /** The compaction of a sorted sequence is strictly increasing. */
  lemma {:induction false} CompactStrictlySorted<T(!new)>(s: seq<T>, less: (T, T) -> bool)
    requires StrictWeakOrder(less) && Sorted(s, less)
    ensures StrictlySorted(Compact(s, less), less)
    decreases |s|
  {
    if |s| > 1 {
      var s' := s[..|s| - 1];
      var last := s[|s| - 1];
      CompactStrictlySorted(s', less);
      if less(s[|s| - 2], last) {
        var c' := Compact(s', less);
        CompactLast(s', less);
        var m := |c'| - 1;
        NegativelyTransitive(less, s[|s| - 2], c'[m], last);
        forall j | 0 <= j < m ensures less(c'[j], last) {
          assert less(c'[j], c'[m]);
        }
        var c := c' + [last];
        forall p, q | 0 <= p < q < |c| ensures less(c[p], c[q]) {
          if q < |c'| { assert c[p] == c'[p] && c[q] == c'[q]; }
        }
      }
    }
  }

  /** Every element of a sorted input has an equivalent element in its
      compaction. */
  lemma {:induction false} CompactCovers<T(!new)>(s: seq<T>, less: (T, T) -> bool)
    requires StrictWeakOrder(less) && Sorted(s, less)
    ensures forall k :: 0 <= k < |s| ==>
      exists j :: 0 <= j < |Compact(s, less)| && Equiv(less, s[k], Compact(s, less)[j])
    decreases |s|
  {
    if |s| > 1 {
      var s' := s[..|s| - 1];
      var last := s[|s| - 1];
      var c' := Compact(s', less);
      var c := Compact(s, less);
      CompactCovers(s', less);
      CompactLast(s', less);
      assert forall j :: 0 <= j < |c'| ==> c[j] == c'[j];
      forall k | 0 <= k < |s| ensures exists j :: 0 <= j < |c| && Equiv(less, s[k], c[j]) {
        if k < |s'| {
          assert s[k] == s'[k];
          var j :| 0 <= j < |c'| && Equiv(less, s'[k], c'[j]);
          assert c[j] == c'[j];
        } else if less(s[|s| - 2], last) {
          assert c[|c| - 1] == last;
        } else {
          var m := |c'| - 1;
          assert !less(last, s[|s| - 2]);
          EquivTransitive(less, last, s[|s| - 2], c'[m]);
          assert c[m] == c'[m];
        }
      }
    } else if |s| == 1 {
      assert Compact(s, less) == s;
      assert 0 <= 0 < |Compact(s, less)| && Equiv(less, s[0], Compact(s, less)[0]);
    }
  }

  /** Compaction leaves a strictly increasing sequence as it is. */
  lemma {:induction false} CompactOfStrictlySorted<T>(s: seq<T>, less: (T, T) -> bool)
    requires StrictlySorted(s, less)
    ensures Compact(s, less) == s
    decreases |s|
  {
    if |s| > 1 {
      var s' := s[..|s| - 1];
      assert StrictlySorted(s', less);
      CompactOfStrictlySorted(s', less);
      assert less(s[|s| - 2], s[|s| - 1]);
      assert s' + [s[|s| - 1]] == s;
    }
  }

  /** A sorted permutation of a strictly increasing sequence starts with
      the same element. */
  lemma SortedPermutationHead<T(!new)>(s: seq<T>, t: seq<T>, less: (T, T) -> bool)
    requires StrictWeakOrder(less)
    requires StrictlySorted(s, less) && Sorted(t, less)
    requires multiset(t) == multiset(s) && |s| > 0
    ensures |t| == |s| && t[0] == s[0]
  {
    assert |t| == |multiset(t)| == |multiset(s)| == |s|;
    assert t[0] in multiset(s);
    var k :| 0 <= k < |s| && s[k] == t[0];
    assert s[0] in multiset(t);
    var j :| 0 <= j < |t| && t[j] == s[0];
    assert !less(t[j], t[0]);
    assert !less(s[0], s[k]);
    assert k == 0;
  }

  /** A strictly increasing sequence is the only sorted permutation of
      itself, so sorting it cannot change it. */
  lemma {:induction false} SortedPermutationOfStrictlySorted<T(!new)>(s: seq<T>, t: seq<T>, less: (T, T) -> bool)
    requires StrictWeakOrder(less)
    requires StrictlySorted(s, less) && Sorted(t, less)
    requires multiset(t) == multiset(s)
    ensures t == s
    decreases |s|
  {
    if |s| == 0 {
      assert |t| == |multiset(t)| == 0;
    } else {
      SortedPermutationHead(s, t, less);
      assert s == [s[0]] + s[1..];
      assert t == [t[0]] + t[1..];
      assert multiset(t[1..]) == multiset(s[1..]) by {
        calc {
          multiset(t[1..]);
          multiset([t[0]] + t[1..]) - multiset{t[0]};
          multiset(t) - multiset{s[0]};
          multiset([s[0]] + s[1..]) - multiset{s[0]};
          multiset(s[1..]);
        }
      }
      assert StrictlySorted(s[1..], less);
      assert Sorted(t[1..], less);
      SortedPermutationOfStrictlySorted(s[1..], t[1..], less);
    }
  }

  /** One turn of the compaction loop of `sortAndUnique`. */
  lemma CompactStep<T>(s: seq<T>, i: nat, less: (T, T) -> bool)
    requires 1 <= i < |s|
    ensures Compact(s[..i + 1], less) ==
      if less(s[i - 1], s[i]) then Compact(s[..i], less) + [s[i]] else Compact(s[..i], less)
  {
    var t := s[..i + 1];
    assert t[..|t| - 1] == s[..i] && t[|t| - 2] == s[i - 1] && t[|t| - 1] == s[i];
  }

  /** `sortAndUnique` as a whole: compacting a sorted permutation of `s`
      gives a strictly increasing sequence of elements of `s` that covers
      every element of `s` up to equivalence, and gives `s` back when `s`
      is already strictly increasing. */
  lemma CompactOfSortedPermutation<T(!new)>(s: seq<T>, sorted: seq<T>, less: (T, T) -> bool)
    requires StrictWeakOrder(less) && Sorted(sorted, less)
    requires multiset(sorted) == multiset(s)
    ensures StrictlySorted(Compact(sorted, less), less)
    ensures forall x :: x in Compact(sorted, less) ==> x in s
    ensures Covers(s, Compact(sorted, less), less)
    ensures StrictlySorted(s, less) ==> Compact(sorted, less) == s
  {
    var c := Compact(sorted, less);
    CompactStrictlySorted(sorted, less);
    CompactFromInput(sorted, less);
    CompactCovers(sorted, less);
    forall x | x in c ensures x in s {
      assert x in multiset(sorted);
    }
    forall k | 0 <= k < |s|
      ensures exists j :: 0 <= j < |c| && Equiv(less, s[k], c[j])
    {
      assert s[k] in multiset(sorted);
      var m :| 0 <= m < |sorted| && sorted[m] == s[k];
    }
    if StrictlySorted(s, less) {
      SortedPermutationOfStrictlySorted(s, sorted, less);
      CompactOfStrictlySorted(sorted, less);
    }
  }

  // ---------------------------------------------------------------------
  // The container
  // ---------------------------------------------------------------------

  class OrderedSet<T(!new)> {
    /** The stored elements, in their current (not necessarily sorted) order. */
    var values: seq<T>
    /** The strict ordering supplied at construction. */
    const keyComp: (T, T) -> bool

    /** The comparator is a strict weak ordering, as every caller supplies. */
    ghost predicate Valid()
    {
      StrictWeakOrder(keyComp)
    }

    constructor (keyComp: (T, T) -> bool)
      ensures this.keyComp == keyComp && values == []
    {
      this.keyComp := keyComp;
      values := [];
    }

    method Size() returns (n: nat)
      ensures n == |values|
    {
      n := |values|;
    }

    /** The element at `i`; `None` stands for JavaScript's `undefined`. */
    method At(i: int) returns (r: Option<T>)
      ensures 0 <= i < |values| ==> r == Some(values[i])
      ensures !(0 <= i < |values|) ==> r == None
    {
      if 0 <= i < |values| {
        r := Some(values[i]);
      } else {
        r := None;
      }
    }

    /** Linear scan for the first element that is not less than `v`. */
    method LowerBound(v: T) returns (i: nat)
      ensures i <= |values|
      ensures forall k :: 0 <= k < i ==> keyComp(values[k], v)
      ensures i < |values| ==> !keyComp(values[i], v)
    {
      i := 0;
      while i < |values|
        invariant i <= |values|
        invariant forall k :: 0 <= k < i ==> keyComp(values[k], v)
      {
        if !keyComp(values[i], v) {
          break;
        }
        i := i + 1;
      }
    }

    method Add(v: T) returns (added: bool)
      modifies this
      ensures added == AddsNew(old(values), v, keyComp)
      ensures values == Added(old(values), v, keyComp)
      ensures Valid() && StrictlySorted(old(values), keyComp) ==>
        && StrictlySorted(values, keyComp)
        && (added <==> forall k :: 0 <= k < |old(values)| ==> !Equiv(keyComp, old(values)[k], v))
    {
      var i := LowerBound(v);
      if i == |values| || keyComp(v, values[i]) {
        Insert(i, v);
        added := true;
      } else {
        added := false;
      }
      if Valid() && StrictlySorted(old(values), keyComp) {
        AddIntoStrictlySorted(old(values), v, keyComp);
      }
    }

    method AddMulti(v: T)
      modifies this
      ensures values == Inserted(old(values), LowerBoundIndex(old(values), v, keyComp), v)
      ensures Valid() && Sorted(old(values), keyComp) ==> Sorted(values, keyComp)
    {
      var i := LowerBound(v);
      Insert(i, v);
      if Valid() && Sorted(old(values), keyComp) {
        AddMultiKeepsSorted(old(values), v, keyComp);
      }
    }

    method Insert(i: int, v: T)
      modifies this
      ensures values == Inserted(old(values), i, v)
    {
      values := Inserted(values, i, v);
    }

    method Push(v: T)
      modifies this
      ensures values == old(values) + [v]
    {
      values := values + [v];
    }

    /** Removes and returns the last element; `None` when empty. */
    method Pop() returns (last: Option<T>)
      modifies this
      ensures old(values) == [] ==> last == None && values == []
      ensures old(values) != [] ==>
        last == Some(old(values)[|old(values)| - 1]) && values == old(values)[..|old(values)| - 1]
    {
      if values == [] {
        last := None;
      } else {
        last := Some(values[|values| - 1]);
        values := values[..|values| - 1];
      }
    }

    /** Sorts by `keyComp`: the result is sorted and a permutation. */
    method Sort()
      requires Valid()
      modifies this
      ensures Sorted(values, keyComp)
      ensures multiset(values) == multiset(old(values))
    {
      var input := values;
      var sorted: seq<T> := [];
      for n := 0 to |input|
        invariant Sorted(sorted, keyComp)
        invariant multiset(sorted) == multiset(input[..n])
      {
        var x := input[n];
        var j := 0;
        while j < |sorted| && !keyComp(x, sorted[j])
          invariant j <= |sorted|
          invariant forall k :: 0 <= k < j ==> !keyComp(x, sorted[k])
        {
          j := j + 1;
        }
        NotLessThanSmaller(sorted, j, x, keyComp);
        InsertKeepsSorted(sorted, j, x, keyComp);
        assert input[..n + 1] == input[..n] + [x];
        sorted := sorted[..j] + [x] + sorted[j..];
      }
      assert input[..|input|] == input;
      values := sorted;
    }

    /** Sorts, then keeps only the first of each run of equivalent elements. */
    method SortAndUnique()
      requires Valid()
      modifies this
      ensures StrictlySorted(values, keyComp)
      ensures forall x :: x in values ==> x in old(values)
      ensures Covers(old(values), values, keyComp)
      ensures old(values) == [] ==> values == []
      ensures StrictlySorted(old(values), keyComp) ==> values == old(values)
    {
      if |values| >= 1 {
        Sort();
        var sorted := values;
        var newValues := CompactLoop(sorted);
        CompactOfSortedPermutation(old(values), sorted, keyComp);
        values := newValues;
      }
    }

    /** The compaction pass of `sortAndUnique` over the sorted values: the
        first is kept, and each later one when its predecessor is less. */
    method CompactLoop(sorted: seq<T>) returns (newValues: seq<T>)
      requires |sorted| >= 1
      ensures newValues == Compact(sorted, keyComp)
    {
      newValues := [sorted[0]];
      assert sorted[..1] == [sorted[0]];
      for i := 1 to |sorted|
        invariant newValues == Compact(sorted[..i], keyComp)
      {
        CompactStep(sorted, i, keyComp);
        if keyComp(sorted[i - 1], sorted[i]) {
          newValues := newValues + [sorted[i]];
        }
      }
      assert sorted[..|sorted|] == sorted;
    }

    /** A new container with a copy of the values and the same ordering. */
    method Clone() returns (copy: OrderedSet<T>)
      ensures fresh(copy)
      ensures copy.values == values && copy.keyComp == keyComp
    {
      copy := new OrderedSet(keyComp);
      copy.values := values;
    }
  }
}
