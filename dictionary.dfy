/**
 * `DictionaryEntry` and `Dictionary` of glyph-tools.js: a lookup table from
 * glyphs to values, held as an ordered container of entries sorted by the
 * key glyph under `Glyph.compare`.
 *
 * An entry keeps the edges of its key glyph as a value. The JavaScript entry
 * holds a reference to the caller's glyph object instead; see README.md.
 * A stored value may itself be JavaScript's `null`, so values are `Option`s
 * and `get` returns the stored `Option`, or `None` when no key matches.
 */
module Dictionaries {
  import opened Wrappers
  import opened OrderedSets
  import opened Edges
  import opened Glyphs

  datatype Entry<V> = Entry(keyGlyph: seq<Edge>, value: Option<V>)

  /** `DictionaryEntry.compare`: `Glyph.compare` of the key glyphs. */
  function EntryCompare<V>(x: Entry<V>, y: Entry<V>): int
  {
    CompareEdges(x.keyGlyph, y.keyGlyph)
  }

  /** `DictionaryEntry.less` */
  predicate EntryLess<V>(x: Entry<V>, y: Entry<V>)
  {
    EntryCompare(x, y) < 0
  }

  /** `DictionaryEntry.equals`: the key glyphs have the same edges. */
  predicate EntryEquals<V>(x: Entry<V>, y: Entry<V>)
  {
    EntryCompare(x, y) == 0
  }

  /** `DictionaryEntry.less` is a strict weak ordering, as the ordered
      container requires, and two entries are equivalent under it exactly
      when their key glyphs are equal, whatever their values. */
  lemma EntryLessIsStrictWeakOrder<V(!new)>()
    ensures StrictWeakOrder(EntryLess<V>)
    ensures forall x: Entry<V>, y: Entry<V> :: Equiv(EntryLess, x, y) <==> x.keyGlyph == y.keyGlyph
    ensures forall x: Entry<V>, y: Entry<V> :: EntryEquals(x, y) <==> x.keyGlyph == y.keyGlyph
  {
    forall x: Entry<V>, y: Entry<V> ensures Equiv(EntryLess, x, y) <==> x.keyGlyph == y.keyGlyph {
      CompareEdgesTrichotomy(x.keyGlyph, y.keyGlyph);
    }
    forall x: Entry<V>, y: Entry<V>, z: Entry<V> | EntryLess(x, y) && EntryLess(y, z)
      ensures EntryLess(x, z)
    {
      CompareEdgesTransitive(x.keyGlyph, y.keyGlyph, z.keyGlyph);
    }
    forall x: Entry<V>, y: Entry<V>, z: Entry<V> | EntryLess(x, z)
      ensures EntryLess(x, y) || EntryLess(y, z)
    {
      CompareEdgesTrichotomy(x.keyGlyph, y.keyGlyph);
      if CompareEdges(y.keyGlyph, x.keyGlyph) < 0 {
        CompareEdgesTransitive(y.keyGlyph, x.keyGlyph, z.keyGlyph);
      }
    }
  }

  // ---------------------------------------------------------------------
  // The contents as a map
  // ---------------------------------------------------------------------

  /** No two entries have equal key glyphs. */
  predicate DistinctKeys<V>(s: seq<Entry<V>>)
  {
    forall i, j :: 0 <= i < j < |s| ==> s[i].keyGlyph != s[j].keyGlyph
  }

  /** The table the entries stand for: each key glyph's edges mapped to its
      value (a later entry wins, which matters only when keys repeat). */
  function AsMap<V>(s: seq<Entry<V>>): map<seq<Edge>, Option<V>>
  {
    if s == [] then map[]
    else AsMap(s[..|s| - 1])[s[|s| - 1].keyGlyph := s[|s| - 1].value]
  }

  /** Entries ordered by `DictionaryEntry.less` have distinct keys. */
  lemma SortedEntriesDistinct<V>(s: seq<Entry<V>>)
    requires StrictlySorted(s, EntryLess)
    ensures DistinctKeys(s)
  {
    forall i, j | 0 <= i < j < |s| ensures s[i].keyGlyph != s[j].keyGlyph {
      assert EntryLess(s[i], s[j]);
    }
  }

  /** With distinct keys, the table maps each entry's key to that entry's
      value, and holds no other key. */
  lemma {:induction false} AsMapOfDistinct<V>(s: seq<Entry<V>>)
    requires DistinctKeys(s)
    ensures forall x :: x in s ==> x.keyGlyph in AsMap(s) && AsMap(s)[x.keyGlyph] == x.value
    ensures forall key :: key in AsMap(s) ==> exists x :: x in s && x.keyGlyph == key
  {
    if s != [] {
      var p := s[..|s| - 1];
      var e := s[|s| - 1];
      assert DistinctKeys(p) by {
        forall i, j | 0 <= i < j < |p| ensures p[i].keyGlyph != p[j].keyGlyph {
          assert p[i] == s[i] && p[j] == s[j];
        }
      }
      AsMapOfDistinct(p);
      assert s == p + [e];
      forall x | x in p ensures x.keyGlyph != e.keyGlyph {
        var i :| 0 <= i < |p| && p[i] == x;
        assert s[i] == x;
      }
    }
  }

  /** An entry whose key is absent from the table is new to the container. */
  lemma NewKeyAdds<V(!new)>(s: seq<Entry<V>>, e: Entry<V>)
    requires StrictlySorted(s, EntryLess)
    requires e.keyGlyph !in AsMap(s)
    ensures AddsNew(s, e, EntryLess)
  {
    EntryLessIsStrictWeakOrder<V>();
    SortedEntriesDistinct(s);
    AsMapOfDistinct(s);
    AddIntoStrictlySorted(s, e, EntryLess);
    forall k | 0 <= k < |s| ensures !Equiv(EntryLess, s[k], e) {
      assert s[k] in s;
    }
  }

  /** An entry whose key is in the table is rejected by the container. */
  lemma PresentKeyRejected<V(!new)>(s: seq<Entry<V>>, e: Entry<V>)
    requires StrictlySorted(s, EntryLess)
    requires e.keyGlyph in AsMap(s)
    ensures !AddsNew(s, e, EntryLess)
  {
    EntryLessIsStrictWeakOrder<V>();
    SortedEntriesDistinct(s);
    AsMapOfDistinct(s);
    AddIntoStrictlySorted(s, e, EntryLess);
    var x :| x in s && x.keyGlyph == e.keyGlyph;
    var k :| 0 <= k < |s| && s[k] == x;
    assert Equiv(EntryLess, s[k], e);
  }

  /** Entries holding one entry more, under a key the table lacks, stand for
      the table extended by that key. */
  lemma AsMapOfInsertion<V>(s: seq<Entry<V>>, r: seq<Entry<V>>, e: Entry<V>)
    requires DistinctKeys(s) && DistinctKeys(r)
    requires forall x :: x in r <==> x in s || x == e
    requires e.keyGlyph !in AsMap(s)
    ensures AsMap(r) == AsMap(s)[e.keyGlyph := e.value]
  {
    AsMapOfDistinct(s);
    AsMapOfDistinct(r);
    var m := AsMap(s)[e.keyGlyph := e.value];
    forall k | k in AsMap(r) ensures k in m && AsMap(r)[k] == m[k] {
      var x :| x in r && x.keyGlyph == k;
    }
    forall k | k in m ensures k in AsMap(r) {
      if k != e.keyGlyph {
        var x :| x in s && x.keyGlyph == k;
      }
    }
  }

  /** Adding an entry under a new key extends the table by that key. */
  lemma AsMapAdded<V(!new)>(s: seq<Entry<V>>, e: Entry<V>)
    requires StrictlySorted(s, EntryLess)
    requires e.keyGlyph !in AsMap(s)
    ensures AsMap(Added(s, e, EntryLess)) == AsMap(s)[e.keyGlyph := e.value]
  {
    var r := Added(s, e, EntryLess);
    NewKeyAdds(s, e);
    AddedElements(s, e, EntryLess);
    EntryLessIsStrictWeakOrder<V>();
    AddIntoStrictlySorted(s, e, EntryLess);
    SortedEntriesDistinct(s);
    SortedEntriesDistinct(r);
    AsMapOfInsertion(s, r, e);
  }

  /** `Dictionary.add` on the entries: a new key extends the table by one
      entry, a present key is rejected and nothing changes; the entries stay
      ordered either way. */
  lemma AddedEntry<V(!new)>(s: seq<Entry<V>>, key: seq<Edge>, value: Option<V>)
    requires StrictlySorted(s, EntryLess)
    ensures StrictlySorted(Added(s, Entry(key, value), EntryLess), EntryLess)
    ensures AddsNew(s, Entry(key, value), EntryLess) <==> key !in AsMap(s)
    ensures key in AsMap(s) ==> Added(s, Entry(key, value), EntryLess) == s
    ensures key !in AsMap(s) ==>
      && |Added(s, Entry(key, value), EntryLess)| == |s| + 1
      && AsMap(Added(s, Entry(key, value), EntryLess)) == AsMap(s)[key := value]
  {
    var e := Entry(key, value);
    EntryLessIsStrictWeakOrder<V>();
    AddIntoStrictlySorted(s, e, EntryLess);
    AddedElements(s, e, EntryLess);
    if key in AsMap(s) {
      PresentKeyRejected(s, e);
    } else {
      NewKeyAdds(s, e);
      AsMapAdded(s, e);
    }
  }

  // ---------------------------------------------------------------------
  // The dictionary
  // ---------------------------------------------------------------------

  class Dictionary<V(!new)> {
    /** The entries, in the container ordered by `DictionaryEntry.less`. */
    const entries: OrderedSet<Entry<V>>

    /** The entries are ordered by key, as only `add` ever inserts them. */
    ghost predicate Valid()
      reads entries
    {
      entries.keyComp == EntryLess && StrictlySorted(entries.values, EntryLess)
    }

    /** The table the dictionary stands for. */
    ghost function Contents(): map<seq<Edge>, Option<V>>
      reads entries
    {
      AsMap(entries.values)
    }

    constructor ()
      ensures Valid() && fresh(entries) && Contents() == map[]
    {
      entries := new OrderedSet(EntryLess);
    }

    /** `add`: stores `value` under the edges of `glyph` unless an equal key
        is present, and says whether it did. */
    method Add(glyph: Glyph, value: Option<V>) returns (added: bool)
      requires Valid()
      modifies entries
      ensures Valid()
      ensures added <==> glyph.edges.values !in old(Contents())
      ensures added ==> Contents() == old(Contents())[glyph.edges.values := value]
      ensures added ==> |entries.values| == |old(entries.values)| + 1
      ensures !added ==> entries.values == old(entries.values)
    {
      EntryLessIsStrictWeakOrder<V>();
      AddedEntry(entries.values, glyph.edges.values, value);
      added := entries.Add(Entry(glyph.edges.values, value));
    }

    /** `lowerBound`: the position of the first entry whose key does not
        compare below `glyph`, found with a probe entry holding `null`. */
    method LowerBound(glyph: Glyph) returns (i: nat)
      requires Valid()
      ensures i <= |entries.values|
      ensures forall k :: 0 <= k < i ==> CompareEdges(entries.values[k].keyGlyph, glyph.edges.values) < 0
      ensures i < |entries.values| ==> CompareEdges(entries.values[i].keyGlyph, glyph.edges.values) >= 0
    {
      i := entries.LowerBound(Entry(glyph.edges.values, None));
    }

    /** `get`: the value stored under a key equal to `glyph`, and `None` (the
        JavaScript `null`) when there is none. */
    method Get(glyph: Glyph) returns (r: Option<V>)
      requires Valid()
      ensures glyph.edges.values in Contents() ==> r == Contents()[glyph.edges.values]
      ensures glyph.edges.values !in Contents() ==> r == None
    {
      var key := glyph.edges.values;
      var i := LowerBound(glyph);
      var n := entries.Size();
      SortedEntriesDistinct(entries.values);
      AsMapOfDistinct(entries.values);
      // `Glyph.equals` of the two keys, which holds exactly on equal edges.
      if i < n && entries.values[i].keyGlyph == key {
        var at := entries.At(i);
        r := at.value.value;
        assert entries.values[i] in entries.values;
      } else {
        r := None;
        forall x | x in entries.values ensures x.keyGlyph != key {
          var k :| 0 <= k < |entries.values| && entries.values[k] == x;
          LookupMiss(entries.values, key, i, k);
        }
      }
    }

    method GetEntryCount() returns (n: nat)
      ensures n == |entries.values|
    {
      n := entries.Size();
    }
  }

  /** In entries ordered by key, no entry other than the one at the lower
      bound can have a key equal to the probe's. */
  lemma LookupMiss<V>(s: seq<Entry<V>>, key: seq<Edge>, i: nat, k: nat)
    requires StrictlySorted(s, EntryLess)
    requires i <= |s| && k < |s|
    requires forall j :: 0 <= j < i ==> CompareEdges(s[j].keyGlyph, key) < 0
    requires i < |s| ==> CompareEdges(s[i].keyGlyph, key) >= 0
    requires i < |s| ==> s[i].keyGlyph != key
    ensures s[k].keyGlyph != key
  {
    if k > i {
      assert EntryLess(s[i], s[k]);
      CompareEdgesTrichotomy(s[i].keyGlyph, key);
      CompareEdgesAntisymmetric(s[i].keyGlyph, key);
    }
  }
}
