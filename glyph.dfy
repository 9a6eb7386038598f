/**
 * `Glyph` of glyph-tools.js: a drawn symbol, held as an ordered container
 * of edges. The container is kept sorted and duplicate-free by `addEdge`
 * and `normalize`, and left in stroke order by `addEdgeForced` so that
 * `removeLastEdge` can undo the last stroke segment.
 *
 * The functions below specify `Glyph.compare` (`CompareEdges`), `addEdge`
 * (`WithEdge`), `toString` (`Encode`) and `fromString` (`Decode`); the
 * class methods are proved against them.
 */
module Glyphs {
  import opened Wrappers
  import opened OrderedSets
  import opened Edges

  // ---------------------------------------------------------------------
  // Glyph.compare
  // ---------------------------------------------------------------------

  /** `Glyph.compare` on two edge sequences: the first nonzero edge
      comparison over the common prefix, otherwise the difference of the
      lengths. It is zero exactly when the sequences are equal. */
  function CompareEdges(s: seq<Edge>, t: seq<Edge>): (c: int)
    ensures c == 0 <==> s == t
  {
    if |s| == 0 || |t| == 0 then |s| - |t|
    else if Compare(s[0], t[0]) != 0 then
      assert s[0] != t[0];
      Compare(s[0], t[0])
    else
      assert s == [s[0]] + s[1..] && t == [t[0]] + t[1..];
      CompareEdges(s[1..], t[1..])
  }

  /** Swapping the operands negates the result, so `compare(A, B)` and
      `compare(B, A)` have opposite signs. */
  lemma {:induction false} CompareEdgesAntisymmetric(s: seq<Edge>, t: seq<Edge>)
    ensures CompareEdges(t, s) == -CompareEdges(s, t)
  {
    if |s| > 0 && |t| > 0 {
      CompareLexicographic(s[0], t[0]);
      if Compare(s[0], t[0]) == 0 {
        CompareEdgesAntisymmetric(s[1..], t[1..]);
      }
    }
  }

  /** "Compares below" is transitive. */
  lemma {:induction false} CompareEdgesTransitive(s: seq<Edge>, t: seq<Edge>, u: seq<Edge>)
    requires CompareEdges(s, t) < 0 && CompareEdges(t, u) < 0
    ensures CompareEdges(s, u) < 0
  {
    if |s| > 0 && |t| > 0 && |u| > 0 {
      CompareLexicographic(s[0], t[0]);
      CompareLexicographic(t[0], u[0]);
      CompareLexicographic(s[0], u[0]);
      if Compare(s[0], t[0]) == 0 && Compare(t[0], u[0]) == 0 {
        CompareEdgesTransitive(s[1..], t[1..], u[1..]);
      }
    }
  }

  /** Any two edge sequences compare one way, the other, or equal. */
  lemma CompareEdgesTrichotomy(s: seq<Edge>, t: seq<Edge>)
    ensures CompareEdges(s, t) < 0 || s == t || CompareEdges(t, s) < 0
  {
    CompareEdgesAntisymmetric(s, t);
  }

  // ---------------------------------------------------------------------
  // Base-11 text
  // ---------------------------------------------------------------------

  /** The digit that `toString(11)` writes for `d`. */
  function DigitChar(d: nat): char
    requires d < NodeCount
  {
    if d < 10 then ('0' as int + d) as char else 'a'
  }

  /** `n.toString(11)` for a natural number. */
  function NatToBase11(n: nat): string
    decreases n
  {
    if n < NodeCount then [DigitChar(n)]
    else NatToBase11(n / NodeCount) + [DigitChar(n % NodeCount)]
  }

  /** `n.toString(11)` for an integer: a minus sign before a negative one. */
  function IntToBase11(n: int): string
  {
    if n < 0 then "-" + NatToBase11(-n) else NatToBase11(n)
  }

  /** `parseInt(c, 11)` of a one-character string: the value of a base-11
      digit (either case of the letter), and -1 for the NaN it returns for
      anything else. An edge with a NaN end fails `isValid` just as one
      with a -1 end does. */
  function ParseDigit(c: char): int
  {
    if '0' <= c <= '9' then c as int - '0' as int
    else if c == 'a' || c == 'A' then 10
    else -1
  }

  /** Parsing reads back every digit `toString(11)` writes. */
  lemma ParseDigitChar(d: nat)
    requires d < NodeCount
    ensures ParseDigit(DigitChar(d)) == d
  {
  }

  /** The text `toString` writes for one edge. */
  function EdgeText(e: Edge): string
  {
    IntToBase11(e.a) + IntToBase11(e.b)
  }

  /** `toString`: the texts of the edges, concatenated in sequence order. */
  function Encode(s: seq<Edge>): string
  {
    if s == [] then "" else Encode(s[..|s| - 1]) + EdgeText(s[|s| - 1])
  }

  /** A glyph of valid edges is written as exactly two digits per edge, the
      base-11 digits of `a` and `b`, in sequence order. */
  lemma {:induction false} EncodeValid(s: seq<Edge>)
    requires forall k :: 0 <= k < |s| ==> IsValid(s[k])
    ensures |Encode(s)| == 2 * |s|
    ensures forall k :: 0 <= k < |s| ==>
      IsValid(s[k]) && Encode(s)[2 * k] == DigitChar(s[k].a) && Encode(s)[2 * k + 1] == DigitChar(s[k].b)
  {
    if s != [] {
      var p := s[..|s| - 1];
      var e := s[|s| - 1];
      EncodeValid(p);
      assert EdgeText(e) == [DigitChar(e.a), DigitChar(e.b)];
      assert Encode(s) == Encode(p) + [DigitChar(e.a), DigitChar(e.b)];
      forall k | 0 <= k < |s|
        ensures IsValid(s[k]) && Encode(s)[2 * k] == DigitChar(s[k].a) && Encode(s)[2 * k + 1] == DigitChar(s[k].b)
      {
        if k < |p| {
          assert s[k] == p[k];
        }
      }
    }
  }

  // ---------------------------------------------------------------------
  // addEdge and fromString
  // ---------------------------------------------------------------------

  /** `addEdge`: an invalid edge is rejected, a valid one goes through the
      container's `add`. */
  function WithEdge(s: seq<Edge>, e: Edge): seq<Edge>
  {
    if IsValid(e) then Added(s, e, Less) else s
  }

  /** On a normalized glyph, `addEdge` leaves the edges alone when the edge
      is invalid or already present, and otherwise inserts it so that the
      glyph stays normalized. */
  lemma WithEdgeNormalized(s: seq<Edge>, e: Edge)
    requires StrictlySorted(s, Less)
    ensures !IsValid(e) || e in s ==> WithEdge(s, e) == s
    ensures IsValid(e) && e !in s ==> multiset(WithEdge(s, e)) == multiset(s) + multiset{e}
    ensures StrictlySorted(WithEdge(s, e), Less)
  {
    LessIsStrictWeakOrder();
    AddIntoStrictlySorted(s, e, Less);
    InsertedContents(s, LowerBoundIndex(s, e, Less), e);
    if e in s {
      var k :| 0 <= k < |s| && s[k] == e;
      assert Equiv(Less, s[k], e);
    }
  }

  /** The edge `fromString` reads from two characters. */
  function PairEdge(c: char, d: char): Edge
  {
    NewEdge(ParseDigit(c), ParseDigit(d))
  }

  /** `fromString`: every complete pair of characters, from the front, goes
      through `addEdge`; a trailing odd character is never read. */
  function Decode(str: string): seq<Edge>
  {
    if |str| % 2 == 1 then Decode(str[..|str| - 1])
    else if str == [] then []
    else WithEdge(Decode(str[..|str| - 2]), PairEdge(str[|str| - 2], str[|str| - 1]))
  }

  /** Whatever the text, `fromString` yields a normalized glyph of valid
      edges. */
  lemma {:induction false} DecodeNormalized(str: string)
    ensures StrictlySorted(Decode(str), Less)
    ensures forall e :: e in Decode(str) ==> IsValid(e)
  {
    if |str| % 2 == 1 {
      DecodeNormalized(str[..|str| - 1]);
    } else if str != [] {
      var p := Decode(str[..|str| - 2]);
      var e := PairEdge(str[|str| - 2], str[|str| - 1]);
      DecodeNormalized(str[..|str| - 2]);
      WithEdgeNormalized(p, e);
      if IsValid(e) && e !in p {
        assert forall x :: x in WithEdge(p, e) ==> x in multiset(p) + multiset{e};
      }
    }
  }

  /** Parity of lengths around an even one. */
  lemma EvenLength(n: nat, k: nat)
    requires n == 2 * k
    ensures n % 2 == 0 && (n + 1) % 2 == 1 && (n + 2) % 2 == 0
  {
  }

  /** `fromString` ignores a trailing odd character. */
  lemma DecodeOdd(str: string, c: char)
    requires |str| % 2 == 0
    ensures Decode(str + [c]) == Decode(str)
  {
    var t := str + [c];
    assert |t| % 2 == 1;
    assert Decode(t) == Decode(t[..|t| - 1]);
    assert t[..|t| - 1] == str;
  }

  /** Each further pair of characters acts as one `addEdge` of the edge it
      spells. */
  lemma DecodeExtend(str: string, c: char, d: char)
    requires |str| % 2 == 0
    ensures Decode(str + [c, d]) == WithEdge(Decode(str), NewEdge(ParseDigit(c), ParseDigit(d)))
  {
    var t := str + [c, d];
    assert |t| % 2 == 0 && t != [];
    assert Decode(t) == WithEdge(Decode(t[..|t| - 2]), PairEdge(t[|t| - 2], t[|t| - 1]));
    assert t[..|t| - 2] == str && t[|t| - 2] == c && t[|t| - 1] == d;
  }

  /** The loop of `fromString`, one pair further into the text. */
  lemma DecodePrefixStep(str: string, pairs: nat)
    requires 2 * pairs + 2 <= |str|
    ensures Decode(str[..2 * pairs + 2]) ==
      WithEdge(Decode(str[..2 * pairs]), NewEdge(ParseDigit(str[2 * pairs]), ParseDigit(str[2 * pairs + 1])))
  {
    var t := str[..2 * pairs];
    EvenLength(|t|, pairs);
    DecodeExtend(t, str[2 * pairs], str[2 * pairs + 1]);
    assert t + [str[2 * pairs], str[2 * pairs + 1]] == str[..2 * pairs + 2];
  }

  /** The loop of `fromString` stops with at most one character unread. */
  lemma DecodePrefixEnd(str: string, pairs: nat)
    requires |str| == 2 * pairs || |str| == 2 * pairs + 1
    ensures Decode(str[..2 * pairs]) == Decode(str)
  {
    var t := str[..2 * pairs];
    EvenLength(|t|, pairs);
    if |str| == 2 * pairs + 1 {
      DecodeOdd(t, str[2 * pairs]);
      assert t + [str[2 * pairs]] == str;
    } else {
      assert t == str;
    }
  }

  /** A pair that spells an invalid edge, or one already read, is dropped;
      any other pair adds its edge and nothing else. */
  lemma DecodeDropsRejectedPairs(str: string, c: char, d: char)
    requires |str| % 2 == 0
    ensures var e := NewEdge(ParseDigit(c), ParseDigit(d));
      !IsValid(e) || e in Decode(str) ==> Decode(str + [c, d]) == Decode(str)
    ensures var e := NewEdge(ParseDigit(c), ParseDigit(d));
      IsValid(e) && e !in Decode(str) ==> multiset(Decode(str + [c, d])) == multiset(Decode(str)) + multiset{e}
  {
    DecodeExtend(str, c, d);
    DecodeNormalized(str);
    WithEdgeNormalized(Decode(str), NewEdge(ParseDigit(c), ParseDigit(d)));
  }

  /** The text of a valid edge is its two base-11 digits. */
  lemma EdgeTextValid(e: Edge)
    requires IsValid(e)
    ensures EdgeText(e) == [DigitChar(e.a), DigitChar(e.b)]
  {
  }

  /** One step of the round trip: an edge above all the others is read back
      at the end. */
  lemma DecodeEncodeStep(p: seq<Edge>, e: Edge)
    requires IsValid(e) && |Encode(p)| == 2 * |p|
    requires forall k :: 0 <= k < |p| ==> Less(p[k], e)
    requires Decode(Encode(p)) == p
    ensures Decode(Encode(p + [e])) == p + [e]
  {
    var s := p + [e];
    assert s[..|s| - 1] == p && s[|s| - 1] == e;
    EdgeTextValid(e);
    ParseDigitChar(e.a);
    ParseDigitChar(e.b);
    var str := Encode(s);
    assert str == Encode(p) + [DigitChar(e.a), DigitChar(e.b)];
    EvenLength(|Encode(p)|, |p|);
    assert str[..|str| - 2] == Encode(p);
    assert PairEdge(str[|str| - 2], str[|str| - 1]) == e;
    assert Decode(str) == WithEdge(Decode(Encode(p)), e);
    AddedAtEnd(p, e, Less);
  }

  /** The round trip: `fromString(g.toString())` gives back the edges of a
      normalized glyph of valid edges, element by element. */
  lemma {:induction false} DecodeEncode(s: seq<Edge>)
    requires StrictlySorted(s, Less)
    requires forall k :: 0 <= k < |s| ==> IsValid(s[k])
    ensures Decode(Encode(s)) == s
  {
    if s != [] {
      var p := s[..|s| - 1];
      var e := s[|s| - 1];
      StrictlySortedSplit(s, Less);
      assert forall k :: 0 <= k < |p| ==> IsValid(p[k]) && Less(p[k], e);
      DecodeEncode(p);
      EncodeValid(p);
      DecodeEncodeStep(p, e);
    }
  }

  // ---------------------------------------------------------------------
  // The glyph
  // ---------------------------------------------------------------------

  class Glyph {
    /** The edges, in the container ordered by `Edge.less`. */
    const edges: OrderedSet<Edge>

    ghost predicate Valid()
    {
      edges.keyComp == Edges.Less
    }

    constructor ()
      ensures Valid() && fresh(edges) && edges.values == []
    {
      edges := new OrderedSet(Edges.Less);
    }

    /** A glyph over a given container, as `clone` builds one. */
    constructor Over(edges: OrderedSet<Edge>)
      ensures this.edges == edges
    {
      this.edges := edges;
    }

    /** The edge at `i`; `None` stands for JavaScript's `undefined`. */
    method GetEdge(i: int) returns (r: Option<Edge>)
      ensures 0 <= i < |edges.values| ==> r == Some(edges.values[i])
      ensures !(0 <= i < |edges.values|) ==> r == None
    {
      r := edges.At(i);
    }

    method AddEdge(e: Edge) returns (added: bool)
      requires Valid()
      modifies edges
      ensures added == (IsValid(e) && AddsNew(old(edges.values), e, Edges.Less))
      ensures edges.values == WithEdge(old(edges.values), e)
      ensures StrictlySorted(old(edges.values), Edges.Less) ==>
        && StrictlySorted(edges.values, Edges.Less)
        && (added <==> IsValid(e) && e !in old(edges.values))
    {
      if IsValid(e) {
        added := edges.Add(e);
      } else {
        added := false;
      }
      if StrictlySorted(old(edges.values), Edges.Less) {
        WithEdgeNormalized(old(edges.values), e);
        LessIsStrictWeakOrder();
        AddIntoStrictlySorted(old(edges.values), e, Edges.Less);
        if e in old(edges.values) {
          var k :| 0 <= k < |old(edges.values)| && old(edges.values)[k] == e;
          assert Equiv(Edges.Less, old(edges.values)[k], e);
        }
      }
    }

    /** Appends without validation or de-duplication, so that an undo can
        reverse exactly what was drawn. */
    method AddEdgeForced(e: Edge) returns (ok: bool)
      modifies edges
      ensures ok
      ensures edges.values == old(edges.values) + [e]
    {
      edges.Push(e);
      ok := true;
    }

    /** Removes and returns the last edge; `None` when there is none. */
    method RemoveLastEdge() returns (last: Option<Edge>)
      modifies edges
      ensures old(edges.values) == [] ==> last == None && edges.values == []
      ensures old(edges.values) != [] ==>
        && last == Some(old(edges.values)[|old(edges.values)| - 1])
        && edges.values == old(edges.values)[..|old(edges.values)| - 1]
    {
      last := edges.Pop();
    }

    method GetEdgeCount() returns (n: nat)
      ensures n == |edges.values|
    {
      n := edges.Size();
    }

    /** Sorts the edges and removes duplicates, in place. */
    method Normalize()
      requires Valid()
      modifies edges
      ensures StrictlySorted(edges.values, Edges.Less)
      ensures forall e :: e in edges.values <==> e in old(edges.values)
      ensures StrictlySorted(old(edges.values), Edges.Less) ==> edges.values == old(edges.values)
    {
      LessIsStrictWeakOrder();
      edges.SortAndUnique();
      forall e | e in old(edges.values) ensures e in edges.values {
        var k :| 0 <= k < |old(edges.values)| && old(edges.values)[k] == e;
        var j :| 0 <= j < |edges.values| && Equiv(Edges.Less, old(edges.values)[k], edges.values[j]);
      }
    }

    /** An independent copy: a new glyph over a new container. */
    method Clone() returns (g: Glyph)
      requires Valid()
      ensures fresh(g) && fresh(g.edges)
      ensures g.Valid() && g.edges.values == edges.values
    {
      var copy := edges.Clone();
      g := new Glyph.Over(copy);
    }

    method ToString() returns (str: string)
      ensures str == Encode(edges.values)
    {
      var n := GetEdgeCount();
      str := "";
      for ei := 0 to n
        invariant str == Encode(edges.values[..ei])
      {
        var e := edges.values[ei];
        assert edges.values[..ei + 1][..ei] == edges.values[..ei];
        str := str + (IntToBase11(e.a) + IntToBase11(e.b));
      }
      assert edges.values[..n] == edges.values;
    }

    /** `Glyph.compare`: scan the common prefix for the first edge that
        differs, else compare the edge counts. */
    static method Compare(ga: Glyph, gb: Glyph) returns (c: int)
      ensures c == CompareEdges(ga.edges.values, gb.edges.values)
    {
      var ea, eb := ga.edges.values, gb.edges.values;
      var gi := 0;
      while gi < |ea| && gi < |eb|
        invariant gi <= |ea| && gi <= |eb|
        invariant CompareEdges(ea, eb) == CompareEdges(ea[gi..], eb[gi..])
      {
        c := Edges.Compare(ea[gi], eb[gi]);
        if c != 0 {
          return;
        }
        assert ea[gi..][1..] == ea[gi + 1..] && eb[gi..][1..] == eb[gi + 1..];
        gi := gi + 1;
      }
      c := |ea| - |eb|;
    }

    /** `Glyph.less` */
    static method Less(ga: Glyph, gb: Glyph) returns (b: bool)
      ensures b <==> CompareEdges(ga.edges.values, gb.edges.values) < 0
    {
      var c := Compare(ga, gb);
      b := c < 0;
    }

    /** `Glyph.equals`: the two edge sequences are equal element by element. */
    static method Equals(ga: Glyph, gb: Glyph) returns (b: bool)
      ensures b <==> ga.edges.values == gb.edges.values
    {
      var c := Compare(ga, gb);
      b := c == 0;
    }

    /** `Glyph.fromString`: reads the text two characters at a time and
        passes each edge to `addEdge`. */
    static method FromString(str: string) returns (g: Glyph)
      ensures fresh(g) && fresh(g.edges) && g.Valid()
      ensures g.edges.values == Decode(str)
    {
      g := new Glyph();
      var i := 1;
      ghost var pairs := 0;
      while i < |str|
        invariant i == 2 * pairs + 1 && i <= |str| + 1
        invariant fresh(g.edges) && g.Valid()
        invariant g.edges.values == Decode(str[..i - 1])
      {
        var _ := g.AddEdge(NewEdge(ParseDigit(str[i - 1]), ParseDigit(str[i])));
        DecodePrefixStep(str, pairs);
        i := i + 2;
        pairs := pairs + 1;
      }
      DecodePrefixEnd(str, pairs);
    }
  }
}
