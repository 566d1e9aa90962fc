/** What the text of a remap looks like (`remap_markers`, apps/api/core/reports.py): the references are
    exchanged and nothing else, and the two repairs and the strip change the gaps and nothing else. */
module RemapText {
  import opened Text
  import opened Markers
  import opened Remap
  import opened RemapComposition
  import opened Layouts

  // ----- the substitution -----

  /** A piece of prose: one character, or a whole marker. */
  datatype Chunk = Plain(c: char) | Reference(text: string, number: nat)

  function Written(chunk: Chunk): string {
    match chunk
    case Plain(c) => [c]
    case Reference(text, _) => text
  }

  /** A reference with an entry in its new number, one without left out. */
  function Rewritten(chunk: Chunk, mapping: Numbering): string {
    match chunk
    case Plain(c) => [c]
    case Reference(_, n) => if n in mapping then "[" + IntText(mapping[n]) + "]" else ""
  }

  function NumberIn(chunk: Chunk): seq<nat> {
    match chunk
    case Plain(_) => []
    case Reference(_, n) => [n]
  }

  function AsWritten(chunks: seq<Chunk>): string {
    if chunks == [] then [] else Written(chunks[0]) + AsWritten(chunks[1..])
  }

  function AsRenumbered(chunks: seq<Chunk>, mapping: Numbering): string {
    if chunks == [] then [] else Rewritten(chunks[0], mapping) + AsRenumbered(chunks[1..], mapping)
  }

  function Numbers(chunks: seq<Chunk>): seq<nat> {
    if chunks == [] then [] else NumberIn(chunks[0]) + Numbers(chunks[1..])
  }

  ghost predicate SpellsReferences(chunks: seq<Chunk>) {
    forall k | 0 <= k < |chunks| && chunks[k].Reference? :: SpellsMarker(chunks[k].text, chunks[k].number)
  }

  lemma ChunkCons(chunk: Chunk, chunks: seq<Chunk>, mapping: Numbering)
    ensures var all := [chunk] + chunks;
            && AsWritten(all) == Written(chunk) + AsWritten(chunks)
            && AsRenumbered(all, mapping) == Rewritten(chunk, mapping) + AsRenumbered(chunks, mapping)
            && Numbers(all) == NumberIn(chunk) + Numbers(chunks)
  {
    assert ([chunk] + chunks)[1..] == chunks;
  }

  lemma ReferencesCons(chunk: Chunk, chunks: seq<Chunk>)
    requires SpellsReferences(chunks) && (chunk.Reference? ==> SpellsMarker(chunk.text, chunk.number))
    ensures SpellsReferences([chunk] + chunks)
  {
  }

  /** What the scan does at the beginning of a text. */
  lemma FirstChunk(t: string, mapping: Numbering) returns (chunk: Chunk, rest: string)
    requires t != []
    ensures |rest| < |t| && Written(chunk) + rest == t
    ensures chunk.Reference? ==> SpellsMarker(chunk.text, chunk.number)
    ensures Substitute(t, mapping) == Rewritten(chunk, mapping) + Substitute(rest, mapping)
    ensures FindMarkers(t) == NumberIn(chunk) + FindMarkers(rest)
  {
    match MarkerAt(t)
    case Some(hit) =>
      MarkerAtSound(t);
      rest := hit.rest;
      chunk := Reference(t[..|t| - |rest|], hit.number);
    case None =>
      chunk, rest := Plain(t[0]), t[1..];
  }

  /** A text falls into characters and markers, the markers being all the scan finds, and the
      substitution writes the same characters with the markers' replacements between them. */
  lemma {:induction false} SubstituteExactly(t: string, mapping: Numbering) returns (chunks: seq<Chunk>)
    ensures AsWritten(chunks) == t && SpellsReferences(chunks) && Numbers(chunks) == FindMarkers(t)
    ensures Substitute(t, mapping) == AsRenumbered(chunks, mapping)
    decreases |t|
  {
    if t == [] {
      chunks := [];
    } else {
      var chunk, rest := FirstChunk(t, mapping);
      var others := SubstituteExactly(rest, mapping);
      ChunkCons(chunk, others, mapping);
      ReferencesCons(chunk, others);
      chunks := [chunk] + others;
    }
  }

  // ----- the gaps -----

  /** Two or more blanks become one space. */
  function Squashed(blanks: string): string { if |blanks| >= 2 then " " else blanks }

  ghost predicate RunsSquashed(l: Layout, r: Layout) {
    && |r.spots| == |l.spots| && r.tail == Squashed(l.tail)
    && forall k | 0 <= k < |l.spots| :: r.spots[k] == Spot(Squashed(l.spots[k].gap), l.spots[k].ch)
  }

  lemma SquashedChar(c: char, l: Layout, r: Layout)
    requires RunsSquashed(l, r)
    ensures RunsSquashed(Layout([Spot([], c)] + l.spots, l.tail), Layout([Spot([], c)] + r.spots, r.tail))
  {
  }

  lemma SquashedGap(c: char, l: Layout, r: Layout)
    requires RunsSquashed(l, r)
    ensures FirstGap(r) == Squashed(FirstGap(l))
    ensures RunsSquashed(WithFirstGap(l, [c] + FirstGap(l)), WithFirstGap(r, Squashed([c] + FirstGap(l))))
  {
  }

  lemma {:induction false} CollapsedLayout(t: string)
    ensures RunsSquashed(Lay(IsBlank, t), Lay(IsBlank, Repair(BlankRuns, t)))
  {
    if t != [] {
      var c, r, rest := t[0], Repair(BlankRuns, t[1..]), Lay(IsBlank, t[1..]);
      var laid := Lay(IsBlank, r);
      CollapsedLayout(t[1..]);
      if IsBlank(c) {
        SquashedGap(c, rest, laid);
        PrependToGap(c, rest);
        BlankBefore(c, r);
      } else {
        SquashedChar(c, rest, laid);
        assert ([c] + r)[1..] == r;
      }
    }
  }

  lemma BlankBefore(c: char, r: string)
    requires IsBlank(c)
    ensures var laid := Lay(IsBlank, r);
            Lay(IsBlank, Step(BlankRuns, c, r))
            == WithFirstGap(laid, if FirstGap(laid) == [] then [c] else [' '] + FirstGap(laid)[1..])
  {
    HeadOfLayout(IsBlank, r);
    if r != [] && IsBlank(r[0]) {
      HeadExchanged(IsBlank, ' ', r);
    } else {
      PrependToGap(c, Lay(IsBlank, r));
      assert ([c] + r)[1..] == r && [c] + "" == [c];
    }
  }

  ghost predicate PunctuationClosedUp(l: Layout, r: Layout) {
    && |r.spots| == |l.spots| && r.tail == l.tail
    && forall k | 0 <= k < |l.spots| ::
         r.spots[k] == Spot(if IsMark(l.spots[k].ch) then "" else l.spots[k].gap, l.spots[k].ch)
  }

  /** The nine marks no whitespace may stand before: six, and the Arabic comma, semicolon and question
      mark. */
  predicate IsMark(c: char) {
    c == ',' || c == '.' || c == ';' || c == ':' || c == '!' || c == '?'
    || c == '\U{060C}' || c == '\U{061B}' || c == '\U{061F}'
  }

  lemma ClosedUpChar(c: char, l: Layout, r: Layout)
    requires PunctuationClosedUp(l, r)
    ensures PunctuationClosedUp(Layout([Spot([], c)] + l.spots, l.tail), Layout([Spot([], c)] + r.spots, r.tail))
  {
  }

  lemma ClosedUpGap(c: char, l: Layout, r: Layout)
    requires PunctuationClosedUp(l, r)
    ensures PunctuationClosedUp(Prepend(c, l), if l.spots != [] && IsMark(l.spots[0].ch) then r else Prepend(c, r))
  {
  }

  lemma {:induction false} TidiedLayout(t: string)
    ensures PunctuationClosedUp(Lay(IsSpace, t), Lay(IsSpace, Repair(BeforePunctuation, t)))
  {
    if t != [] {
      var r := Repair(BeforePunctuation, t[1..]);
      var rest := Lay(IsSpace, t[1..]);
      TidiedLayout(t[1..]);
      assert ([t[0]] + r)[1..] == r;
      if IsSpace(t[0]) {
        HeadOfLayout(IsSpace, r);
        ClosedUpGap(t[0], rest, Lay(IsSpace, r));
      } else {
        ClosedUpChar(t[0], rest, Lay(IsSpace, r));
      }
    }
  }

  /** Squashing blanks opens and closes no gap. */
  ghost predicate SameGaps(l: Layout, r: Layout) {
    && |r.spots| == |l.spots|
    && forall k | 0 <= k < |l.spots| ::
         r.spots[k].ch == l.spots[k].ch && (r.spots[k].gap == [] <==> l.spots[k].gap == [])
  }

  lemma {:induction false} CollapseKeepsGaps(t: string)
    ensures SameGaps(Lay(IsSpace, t), Lay(IsSpace, Repair(BlankRuns, t)))
  {
    if t != [] {
      var c, r := t[0], Repair(BlankRuns, t[1..]);
      CollapseKeepsGaps(t[1..]);
      if IsSpace(c) { SpaceBefore(c, r); } else { assert ([c] + r)[1..] == r; }
    }
  }

  lemma SameWithFirstGap(l: Layout, gap: string, other: string)
    requires gap == [] <==> other == []
    ensures SameGaps(WithFirstGap(l, gap), WithFirstGap(l, other))
  {
  }

  lemma SpaceBefore(c: char, r: string)
    requires IsSpace(c)
    ensures SameGaps(Prepend(c, Lay(IsSpace, r)), Lay(IsSpace, Step(BlankRuns, c, r)))
  {
    var laid := Lay(IsSpace, r);
    PrependToGap(c, laid);
    if Act(BlankRuns, c, Head(r)) == Merge {
      HeadExchanged(IsSpace, ' ', r);
      SameWithFirstGap(laid, [c] + FirstGap(laid), [' '] + FirstGap(laid)[1..]);
    } else {
      assert ([c] + r)[1..] == r;
      SameWithFirstGap(laid, [c] + FirstGap(laid), [c] + FirstGap(laid));
    }
  }

  /** What the repair makes of a text, gap by gap: runs of blanks become one space, then the gaps
      before marks and at both ends go. Nothing else changes. */
  lemma RepairExactly(t: string)
    ensures RunsSquashed(Lay(IsBlank, t), Lay(IsBlank, CollapseBlanks(t)))
    ensures var l, r := Lay(IsSpace, CollapseBlanks(t)), Lay(IsSpace, RepairWhitespace(t));
            && |r.spots| == |l.spots| && r.tail == []
            && forall k | 0 <= k < |l.spots| ::
                 r.spots[k] == Spot(if k == 0 || IsMark(l.spots[k].ch) then "" else l.spots[k].gap, l.spots[k].ch)
  {
    CollapseIsRepair(t);
    CollapsedLayout(t);
    var a := CollapseBlanks(t);
    TidyIsRepair(a);
    TidiedLayout(a);
    StripLayout(IsSpace, TidyPunctuation(a));
  }

  // ----- what a reader sees -----

  /** The characters that are no whitespace. */
  function Shown(s: string): string {
    if s == [] then [] else (if IsSpace(s[0]) then [] else [s[0]]) + Shown(s[1..])
  }

  lemma {:induction false} ShownLayout(s: string)
    ensures var l := Lay(IsSpace, s);
            |Shown(s)| == |l.spots| && forall k | 0 <= k < |l.spots| :: Shown(s)[k] == l.spots[k].ch
  {
    if s != [] { ShownLayout(s[1..]); }
  }

  /** No defect the repair is for: two blanks side by side, whitespace before a mark, or whitespace at
      an end. */
  ghost predicate WellSpaced(r: string) {
    && (forall i | 0 <= i < |r| - 1 :: !BlankPairAt(r, i))
    && (forall i | 0 <= i < |r| - 1 :: !SpaceBeforeMarkAt(r, i))
    && (r != [] ==> !IsSpace(r[0]) && !IsSpace(r[|r| - 1]))
  }

  predicate BlankPairAt(r: string, i: nat)
    requires i < |r| - 1
  {
    (r[i] == ' ' || r[i] == '\t') && (r[i + 1] == ' ' || r[i + 1] == '\t')
  }

  predicate SpaceBeforeMarkAt(r: string, i: nat)
    requires i < |r| - 1
  {
    IsSpace(r[i]) && IsMark(r[i + 1])
  }

  lemma SettledIsSpaced(s: string)
    ensures Settled(BlankRuns, s) <==> forall i | 0 <= i < |s| - 1 :: !BlankPairAt(s, i)
    ensures Settled(BeforePunctuation, s) <==> forall i | 0 <= i < |s| - 1 :: !SpaceBeforeMarkAt(s, i)
  {
    forall i | 0 <= i < |s|
      ensures Act(BlankRuns, s[i], Head(s[i + 1..])) == Keep <==> (i < |s| - 1 ==> !BlankPairAt(s, i))
      ensures Act(BeforePunctuation, s[i], Head(s[i + 1..])) == Keep <==> (i < |s| - 1 ==> !SpaceBeforeMarkAt(s, i))
    {
      if i < |s| - 1 { assert s[i + 1..][0] == s[i + 1]; } else { assert s[i + 1..] == []; }
    }
  }

  lemma RepairedIsSpaced(t: string)
    ensures WellSpaced(RepairWhitespace(t))
  {
    var a, b := CollapseBlanks(t), TidyPunctuation(CollapseBlanks(t));
    CollapseIsRepair(t); RepairSettles(BlankRuns, t);
    TidyIsRepair(a); RepairSettles(BeforePunctuation, a); TidyKeepsBlanksApart(a);
    var i, j := StripIfIsSlice(IsSpace, b);
    SettledSlice(BlankRuns, b, i, j); SettledSlice(BeforePunctuation, b, i, j);
    SettledIsSpaced(b[i..j]);
  }

  lemma SpacedIsFixed(t: string)
    requires WellSpaced(t)
    ensures RepairWhitespace(t) == t
  {
    SettledIsSpaced(t);
    CollapseIsRepair(t); SettledIsFixed(BlankRuns, t);
    TidyIsRepair(t); SettledIsFixed(BeforePunctuation, t);
    StripIfFixed(IsSpace, t);
  }

  /** Whitespace stands somewhere between the `k`-th shown character and the one before it. */
  predicate StandsApart(s: string, k: nat)
    requires k < |Lay(IsSpace, s).spots|
  {
    Lay(IsSpace, s).spots[k].gap != []
  }

  /** The text of a remap: well spaced, with the characters of the substituted text in order, two of
      them apart exactly if they were and the second is no mark; a well-spaced text is left alone. */
  lemma RemapTextExactly(t: string, mapping: Numbering)
    ensures var u, r := Substitute(t, mapping), RemapMarkers(t, mapping);
            && WellSpaced(r) && Shown(r) == Shown(u)
            && |Lay(IsSpace, r).spots| == |Lay(IsSpace, u).spots| == |Shown(u)|
            && (forall k | 0 < k < |Shown(u)| :: StandsApart(r, k) <==> StandsApart(u, k) && !IsMark(Shown(u)[k]))
            && (WellSpaced(u) ==> r == u)
  {
    var u := Substitute(t, mapping);
    RepairedIsSpaced(u);
    RepairExactly(u);
    CollapseIsRepair(u);
    CollapseKeepsGaps(u);
    ShownLayout(u);
    ShownLayout(RepairWhitespace(u));
    if WellSpaced(u) { SpacedIsFixed(u); }
  }

  /** The gap a removed marker leaves in mid-sentence is closed. */
  lemma RemovedInMidSentence()
    ensures RepairWhitespace("A  B") == "A B"
  {
    assert CollapseBlanks("A  B") == "A B" by {
      assert LStripIf(IsBlank, "  B") == "B" by { assert "  B"[1..] == " B" && " B"[1..] == "B"; }
      assert "A  B"[1..] == "  B";
      assert CollapseBlanks("B") == "B";
    }
    forall i | 0 <= i < 2 ensures !SpaceBeforeMarkAt("A B", i) { }
    SettledIsSpaced("A B");
    TidyIsRepair("A B"); SettledIsFixed(BeforePunctuation, "A B");
    StripIfFixed(IsSpace, "A B");
  }
}
