# Glyph tools in Dafny

A model of the core of `glyph-tools.js`, a small browser library for drawing
glyphs on an 11-node grid, comparing them and looking them up. This model
covers five parts:

- **The ordered container `Set`** (`ordered_set.dfy`, module `OrderedSets`).
  It is an array of values. `add` keeps the array in the order of a
  caller-supplied strict ordering `keyComp`. `push`, `insert` and `pop` work by
  position. `sortAndUnique` restores a strictly increasing order. The class
  `OrderedSet` holds the array as a `seq` field that its methods reassign. Pure
  functions specify the results: `LowerBoundIndex`, `Inserted` (which is
  `splice`), `Added` (which is `add`) and `Compact` (the de-duplicating pass).
- **`Edge`** (`edge.dfy`, module `Edges`). An edge is a connection between two
  grid nodes, stored with the smaller index first. This part also has its
  validity test and its lexicographic `compare`.
- **`Glyph`** (`glyph.dfy`, module `Glyphs`). A glyph is an ordered container of
  edges. The class `Glyph` has the edge edits, `normalize`, `clone`, `toString`
  and the statics `compare`, `less`, `equals` and `fromString`. Each method is
  proved against a pure function:
  - `CompareEdges` for `compare`;
  - `WithEdge` for `addEdge`;
  - `Encode` for `toString`;
  - `Decode` for `fromString`.
  Lemmas prove these properties:
  - the ordering laws of `compare`;
  - the two-characters-per-edge base-11 encoding;
  - that `fromString` drops invalid and repeated pairs and ignores a trailing
    odd character;
  - the round trip `Decode(Encode(s)) == s` for a normalized glyph of valid
    edges.
- **`DictionaryEntry` and `Dictionary`** (`dictionary.dfy`, module
  `Dictionaries`). A dictionary is an ordered container of entries, sorted by
  key glyph. Its contents are given as a map from key edges to values
  (`AsMap`). `add` extends that map by a new key and rejects a present one.
  `get` looks a key up in it.
- **The stroke logic of the input pad** (`input_pad.dfy`, module `InputPads`).
  The state is `mouseDown`, `lastNodeIndex`, `limitInputStroke` and the glyph
  being drawn, plus counters of the `glyphchange` and `glyphstrokeend` events
  fired. The datatype `Pad` and its transition functions specify press,
  release and move. They also specify `setGlyph`, `clearGlyph` and
  `removeLastEdge`. `Run` folds a sequence of pointer events. Lemmas about runs
  prove four things:
  - the stroke limit;
  - that every edge drawn is valid and fires exactly one change;
  - that the pad stays settled;
  - that stroke ends match accepted presses.
  The class `InputPad` holds the state in place; each of its methods is proved
  against the matching transition.

How some JavaScript behaviour is modelled:

- An `undefined` or `null` result is modelled as `Option.None`.
- `parseInt(c, 11)` of a character that is not a base-11 digit returns `NaN`.
  The model returns -1 instead. An edge with a `NaN` end and an edge with a -1
  end both fail `isValid`, so `fromString` drops either one.
- `splice(i, 0, v)` counts a negative index back from the end and clamps an
  index beyond either end; `SpliceIndex` models that.
- A pointer event reaches the pad as the node index the hit test found
  (`NodeHit`, -1 to 10) rather than as a mouse position.

Two behaviours of the code to note:

- `lowerBound` is a linear scan; the code's own `@todo binary search?`
  (glyph-tools.js:89) leaves a binary search for later.
- `pop` on an empty container returns `undefined` (`None`) rather than
  failing.

## Model

| member | source | states |
|---|---|---|
| OrderedSets.LowerBoundIndex | glyph-tools.js:88-97 | the index is at most the length, every element before it is less than `v`, and the element at it (if any) is not, so it is the smallest such index |
| OrderedSets.Inserted | glyph-tools.js:79-81 | `insert` lengthens the values by exactly one |
| OrderedSets.InsertedInRange | glyph-tools.js:79-81 | for an index in range, as `add` and `addMulti` pass, `insert` puts `v` exactly there: the values become `s[..i] + [v] + s[i..]` |
| OrderedSets.InsertedContents | glyph-tools.js:79-81 | `insert` adds `v` to the multiset of values, puts it at the splice position, and leaves the elements before and after that position as they were |
| OrderedSets.LowerBoundSplits | glyph-tools.js:88-97 | on a sorted sequence, no element from the lower bound on is less than `v` |
| OrderedSets.AddIntoStrictlySorted | glyph-tools.js:66-75 | on strictly increasing values, `add` inserts exactly when no element is equivalent to `v`; then the values become `s[..i] + [v] + s[i..]` at the lower bound `i`; otherwise they are unchanged; either way they stay strictly increasing |
| OrderedSets.AddedElements | glyph-tools.js:66-75 | a successful `add` grows the values by one, and the new values are the old ones plus `v`; a rejected `add` changes nothing |
| OrderedSets.AddedAtEnd | glyph-tools.js:66-75 | a value greater than every present one is appended at the end |
| OrderedSets.AddMultiKeepsSorted | glyph-tools.js:76-78 | `addMulti` keeps a sorted sequence sorted (duplicates allowed) |
| OrderedSets.InsertKeepsSorted | glyph-tools.js:98-107 | inserting an element between those it is not less than and those not less than it keeps the sequence sorted, and adds exactly that element to the contents (the step of the sort) |
| OrderedSets.CompactFromInput | glyph-tools.js:108-120 | every element `sortAndUnique` keeps comes from the input |
| OrderedSets.CompactLast | glyph-tools.js:108-120 | the compaction of a non-empty sorted sequence ends with an element equivalent to the input's last one |
| OrderedSets.CompactStrictlySorted | glyph-tools.js:108-120 | the compaction of a sorted sequence is strictly increasing |
| OrderedSets.CompactCovers | glyph-tools.js:108-120 | every input element has an equivalent element in the compaction |
| OrderedSets.CompactOfStrictlySorted | glyph-tools.js:108-120 | compaction leaves a strictly increasing sequence unchanged |
| OrderedSets.CompactStep | glyph-tools.js:112-116 | one turn of the compaction loop keeps the next element exactly when its predecessor is less than it |
| OrderedSets.CompactOfSortedPermutation | glyph-tools.js:108-120 | compacting a sorted permutation of the values gives a strictly increasing sequence of their elements that covers each of them up to equivalence, and the values themselves when they were already strictly increasing |
| OrderedSets.SortedPermutationHead | glyph-tools.js:98-107 | a sorted permutation of a strictly increasing sequence starts with the same element |
| OrderedSets.SortedPermutationOfStrictlySorted | glyph-tools.js:98-107 | the only sorted permutation of a strictly increasing sequence is the sequence itself, so sorting it changes nothing |
| OrderedSets.OrderedSet.constructor | glyph-tools.js:54-57 | a new container is empty and keeps the comparator given |
| OrderedSets.OrderedSet.Size | glyph-tools.js:60-62 | the number of values |
| OrderedSets.OrderedSet.At | glyph-tools.js:63-65 | the value at an index in range, and `undefined` (None) outside it |
| OrderedSets.OrderedSet.LowerBound | glyph-tools.js:88-97 | the linear scan returns an index with every earlier value less than `v` and the value at it not less than `v` |
| OrderedSets.OrderedSet.Add | glyph-tools.js:66-75 | returns whether `v` was new; the values become `Added`; on strictly increasing values under a strict weak ordering, they stay strictly increasing and the result is true exactly when no equivalent value was present |
| OrderedSets.OrderedSet.AddMulti | glyph-tools.js:76-78 | inserts at the lower bound unconditionally and keeps sorted values sorted |
| OrderedSets.OrderedSet.Insert | glyph-tools.js:79-81 | the values become the `splice` insertion of `v` at `i` |
| OrderedSets.OrderedSet.Push | glyph-tools.js:82-84 | appends `v` at the end |
| OrderedSets.OrderedSet.Pop | glyph-tools.js:85-87 | removes and returns the last value, and returns `undefined` (None) with nothing changed when empty |
| OrderedSets.OrderedSet.Sort | glyph-tools.js:98-107 | the new values are sorted and are a permutation of the old ones |
| OrderedSets.OrderedSet.SortAndUnique | glyph-tools.js:108-120 | the new values are strictly increasing; each comes from the old values and each old value has an equivalent one among them; an empty container stays empty; strictly increasing values are left as they are, so a second call changes nothing |
| OrderedSets.OrderedSet.CompactLoop | glyph-tools.js:111-116 | the compaction loop over the sorted values computes `Compact` of them |
| OrderedSets.OrderedSet.Clone | glyph-tools.js:121-126 | a new container with the same values and comparator |
| Edges.NewEdge | glyph-tools.js:183-192 | the stored pair is the two indices with the smaller first |
| Edges.NewEdgeCanonical | glyph-tools.js:183-199 | `Edge(p, q)` and `Edge(q, p)` are equal and compare equal; the edge is valid exactly when `p` and `q` are distinct nodes in `0..10` |
| Edges.CompareLexicographic | glyph-tools.js:201-213 | `compare` is -1, 0 or 1 and is lexicographic on `(a, b)`; `less` is the lexicographic order; `equals` holds exactly on equal edges; swapping the arguments negates the result |
| Edges.LessIsStrictWeakOrder | glyph-tools.js:208-210 | `Edge.less` is a strict weak ordering whose equivalence is equality |
| Glyphs.CompareEdges | glyph-tools.js:259-267 | `Glyph.compare` is zero exactly when the two edge sequences are equal |
| Glyphs.CompareEdgesAntisymmetric | glyph-tools.js:259-267 | `compare(B, A) == -compare(A, B)` |
| Glyphs.CompareEdgesTransitive | glyph-tools.js:268-270 | `Glyph.less` is transitive |
| Glyphs.CompareEdgesTrichotomy | glyph-tools.js:259-273 | any two glyphs are `less` one way, the other way, or `equals` |
| Glyphs.ParseDigitChar | glyph-tools.js:274-282 | `parseInt(_, 11)` reads back every digit `toString(11)` writes for a node index |
| Glyphs.EncodeValid | glyph-tools.js:249-257 | for valid edges, `toString` writes exactly two characters per edge, the base-11 digits of `a` and `b`, in sequence order |
| Glyphs.EdgeTextValid | glyph-tools.js:253-254 | a valid edge is written as its two single base-11 digits |
| Glyphs.WithEdgeNormalized | glyph-tools.js:227-229 | on a normalized glyph, `addEdge` leaves the edges unchanged for an invalid or present edge; otherwise it adds exactly that edge; the glyph stays normalized |
| Glyphs.DecodeNormalized | glyph-tools.js:274-282 | whatever the text, `fromString` yields a strictly increasing sequence of valid edges |
| Glyphs.DecodeOdd | glyph-tools.js:274-282 | a trailing odd character is ignored |
| Glyphs.DecodeExtend | glyph-tools.js:274-282 | each further pair of characters acts as one `addEdge` of the edge it spells |
| Glyphs.DecodeDropsRejectedPairs | glyph-tools.js:274-282 | a pair spelling an invalid edge or one already read changes nothing; any other pair adds exactly its edge |
| Glyphs.DecodePrefixStep | glyph-tools.js:276-280 | one turn of the `fromString` loop extends the text read by one pair |
| Glyphs.DecodePrefixEnd | glyph-tools.js:276-280 | the loop stops with at most one character unread, and that character does not change the result |
| Glyphs.DecodeEncodeStep | glyph-tools.js:249-282 | an edge above all others is written last and read back at the end |
| Glyphs.DecodeEncode | glyph-tools.js:249-282 | round trip: `fromString(g.toString())` gives back the edge sequence of a normalized glyph of valid edges |
| Glyphs.Glyph.constructor | glyph-tools.js:219-222 | a new glyph is empty, over a container ordered by `Edge.less` |
| Glyphs.Glyph.Over | glyph-tools.js:244-248 | a glyph over the given container, as `clone` builds one |
| Glyphs.Glyph.GetEdge | glyph-tools.js:224-226 | the edge at an index in range, `undefined` (None) outside it |
| Glyphs.Glyph.AddEdge | glyph-tools.js:227-229 | false and no change for an invalid edge, otherwise `Set.add`; on a normalized glyph the result is true exactly when the edge is valid and absent, and the glyph stays normalized |
| Glyphs.Glyph.AddEdgeForced | glyph-tools.js:230-233 | appends the edge at the end and returns true |
| Glyphs.Glyph.RemoveLastEdge | glyph-tools.js:234-236 | removes and returns the last edge, and returns None with nothing changed when empty |
| Glyphs.Glyph.GetEdgeCount | glyph-tools.js:237-239 | the number of edges |
| Glyphs.Glyph.Normalize | glyph-tools.js:240-243 | the edges become strictly increasing with the same set of edges, and a normalized glyph is left as it is |
| Glyphs.Glyph.Clone | glyph-tools.js:244-248 | a new glyph over a new container with the same edges |
| Glyphs.Glyph.ToString | glyph-tools.js:249-257 | the text is `Encode` of the edges |
| Glyphs.Glyph.Compare | glyph-tools.js:259-267 | the loop returns the first nonzero edge comparison over the common prefix, else the difference of the edge counts |
| Glyphs.Glyph.Less | glyph-tools.js:268-270 | true exactly when `compare` is negative |
| Glyphs.Glyph.Equals | glyph-tools.js:271-273 | true exactly when the two glyphs have the same edges in the same order |
| Glyphs.Glyph.FromString | glyph-tools.js:274-282 | a new glyph whose edges are `Decode` of the text |
| Dictionaries.EntryLessIsStrictWeakOrder | glyph-tools.js:522-530 | `DictionaryEntry.less` is a strict weak ordering; entries are equivalent, and `equals` holds, exactly when their key glyphs are equal |
| Dictionaries.SortedEntriesDistinct | glyph-tools.js:535-538 | entries ordered by `DictionaryEntry.less` have distinct keys |
| Dictionaries.AsMapOfDistinct | glyph-tools.js:546-553 | with distinct keys, the table maps each entry's key to its value and holds no other key |
| Dictionaries.NewKeyAdds | glyph-tools.js:540-542 | an entry under a key absent from the table is accepted by `add` |
| Dictionaries.PresentKeyRejected | glyph-tools.js:540-542 | an entry under a key present in the table is rejected by `add` |
| Dictionaries.AsMapOfInsertion | glyph-tools.js:540-542 | entries holding one more entry, under a new key, stand for the table extended by that key |
| Dictionaries.AsMapAdded | glyph-tools.js:540-542 | adding an entry under a new key extends the table by exactly that key and value |
| Dictionaries.AddedEntry | glyph-tools.js:540-542 | `add` succeeds exactly when the key is new: then the count grows by one and the table gains the key; otherwise nothing changes; the entries stay ordered |
| Dictionaries.LookupMiss | glyph-tools.js:546-553 | when the entry at the lower bound does not match the key, no entry matches it |
| Dictionaries.Dictionary.constructor | glyph-tools.js:535-538 | a new dictionary is empty |
| Dictionaries.Dictionary.Add | glyph-tools.js:540-542 | true exactly when the key is new, and then the table gains the key with the value and the count grows by one; false leaves the entries (and the count) unchanged |
| Dictionaries.Dictionary.LowerBound | glyph-tools.js:543-545 | the first position whose key does not compare below the query |
| Dictionaries.Dictionary.Get | glyph-tools.js:546-553 | the value stored under a key equal to the query, and `null` (None) when there is none; so after a successful `add(k, v)`, `get(k)` returns `v` |
| Dictionaries.Dictionary.GetEntryCount | glyph-tools.js:555-557 | the number of entries |
| InputPads.MoveDrawsEdge | glyph-tools.js:453-464 | a move to a new node during a stroke begun on a node appends exactly the (valid) edge between them, fires one change and remembers the new node |
| InputPads.RunSettled | glyph-tools.js:430-464 | pointer events keep "released implies no node remembered" |
| InputPads.StrokeLimit | glyph-tools.js:434-443 | with a limit `n >= 0` at most `n` presses are taken and the limit drops by one per press; a negative limit never changes |
| InputPads.ExhaustedPadIgnoresEvents | glyph-tools.js:434-464 | a released pad whose limit is used up ignores every pointer event |
| InputPads.RunAppendsValidEdges | glyph-tools.js:370-378 | pointer events only append edges, all valid, and fire exactly one change per edge |
| InputPads.StrokeEndsMatchPresses | glyph-tools.js:434-452 | stroke ends fired plus a stroke under way equal presses taken plus a stroke under way at the start |
| InputPads.InputPad.constructor | glyph-tools.js:430-432 | a new pad is empty, released, with no node remembered and no limit |
| InputPads.InputPad.GetGlyph | glyph-tools.js:348-351 | a new, normalized glyph with the same set of edges as the one drawn |
| InputPads.InputPad.SetGlyph | glyph-tools.js:358-363 | the pad holds a fresh copy of the glyph given and fires a change |
| InputPads.InputPad.ClearGlyph | glyph-tools.js:364-369 | the pad holds a fresh empty glyph and fires a change |
| InputPads.InputPad.AddEdge | glyph-tools.js:370-378 | a valid edge is appended and fires a change; an invalid one changes nothing |
| InputPads.InputPad.RemoveLastEdge | glyph-tools.js:379-390 | removes and returns the last edge and fires a change; returns `null` (None) and fires nothing when the glyph is empty |
| InputPads.InputPad.OnMouseDown | glyph-tools.js:434-443 | a press is taken only when released and the limit is not 0; a taken press decrements a positive limit by one and remembers the node |
| InputPads.InputPad.OnMouseUp | glyph-tools.js:444-452 | a release during a stroke clears `mouseDown` and the node and fires a stroke end; otherwise nothing happens |
| InputPads.InputPad.OnMouseMove | glyph-tools.js:453-464 | during a stroke, a move onto a node other than -1 and the last one draws the edge from the last node when there is one, and then remembers the new node |
| InputPads.InputPad.SetLimitInputStroke | glyph-tools.js:465-468 | sets the limit and nothing else |
| InputPads.InputPad.GetLimitInputStroke | glyph-tools.js:469-472 | the current limit |

## Left out

- DOM helpers (`getLastScriptNode`, `getElementAbsPos`, `getMousePosOnElement`), node geometry (`NODE_POS`, `getNodePosX`/`getNodePosY`) and the hit test `getNodeIndexAtPosition` are not modelled: they are browser I/O and floating point. Of the geometry, only the node count 11 is kept, and a hit is the node index it returns (-1 to 10).
- Canvas drawing (`drawGrid`, `drawEdge`, `drawGlyph`, `createGlyphImage`, `redraw`) is not modelled: it is rendering only.
- Event dispatch (`fireGlyphChangeEvent`, `fireGlyphStrokeEndEvent`, the `addEventListener` wiring) is replaced by two counters. The wiring's mapping of mouse and touch events onto press, release and move is recorded in `InputPads.PointerEvent`.
- `placeInputPadExample`, the commented-out editor and the global export are not modelled: they are page glue.
- OrderedSets.OrderedSet.Sort: an insertion sort, specified by its result (sorted and a permutation). It does not model the engine's `Array.prototype.sort` algorithm or its stability. The code only relies on the sorted permutation.
- Dictionaries.Entry: holds the edges of the key glyph as a value. The JavaScript entry holds a reference to the caller's glyph object, so changing that glyph after `add` changes that entry's key where it sits. The entries can then fall out of key order, after which `lowerBound` and `get` can miss an entry that is present and `add` can accept a duplicate key. That aliasing is not modelled.
- Dictionaries.Dictionary.Get: compares the key edges with `==`. This is what `Glyph.equals` computes (`Glyphs.Glyph.Equals` proves that), but the method does not call it, because entries hold edge sequences rather than glyph objects.
- Glyphs.Glyph.FromString: the text is a Dafny string, a sequence of Unicode scalar values, while `str.length` and `charAt` count UTF-16 code units. Text holding a character outside the Basic Multilingual Plane therefore pairs differently: in JavaScript such a character is two surrogate halves, each an invalid digit, so "😀01" yields the edge (0, 1), while `Decode` pairs the emoji with `0`, drops that invalid pair and ignores the trailing `1`. Text of Basic Multilingual Plane characters, which includes every text `toString` writes, is read as in JavaScript.
- Glyphs.ParseDigit: returns -1 where `parseInt` returns `NaN`. An edge with such an end is invalid either way and `fromString` drops it, but the edge value built before the check differs.
- The `this` that `sort`, `sortAndUnique` and `normalize` return for chaining is not modelled: the methods return nothing.
- The JavaScript integers are doubles; node indices and counts stay far below 2^53, so unbounded integers model them exactly.
