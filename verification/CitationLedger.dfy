/** The report's global citation numbering (apps/api/services/report.py): `CitationLedger`, which
    gives every source of the report one number, and the assembly that rewrites each section's
    prose against it. */
module CitationLedger {
  import opened Text
  import opened Markers
  import opened Remap

  /** What a reader checks: document, version and page. */
  datatype Source = Source(document: string, version: int, page: int)

  datatype Citation = Citation(marker: int, source: Source, excerpt: string, referenced: bool)

  /** A section as the pipeline wrote it, with the sources its own markers stand for. */
  datatype Draft = Draft(content: string, citations: seq<Citation>)

  type References = seq<Citation>

  // ----- the numbering as a value -----

  /** Where the source stands among the first `n` references. */
  function PositionBefore(refs: References, source: Source, n: nat): (at: Option<nat>)
    requires n <= |refs|
    ensures at.Some? ==> at.value < n && refs[at.value].source == source
    ensures at.None? ==> forall i | 0 <= i < n :: refs[i].source != source
  {
    if n == 0 then None
    else if refs[n - 1].source == source then Some(n - 1)
    else PositionBefore(refs, source, n - 1)
  }

  function Position(refs: References, source: Source): (at: Option<nat>)
    ensures at.Some? ==> at.value < |refs| && refs[at.value].source == source
    ensures at.None? ==> forall i | 0 <= i < |refs| :: refs[i].source != source
  {
    PositionBefore(refs, source, |refs|)
  }

  /** The reference list after one more citation. */
  function Enter(refs: References, limit: nat, c: Citation): References {
    match Position(refs, c.source)
    case Some(i) => if c.referenced then refs[i := refs[i].(referenced := true)] else refs
    case None => if |refs| >= limit then refs else refs + [c.(marker := |refs| + 1)]
  }

  function EnterAll(refs: References, limit: nat, cites: seq<Citation>): References {
    if cites == [] then refs
    else Enter(EnterAll(refs, limit, cites[..|cites| - 1]), limit, cites[|cites| - 1])
  }

  /** The mapping after one more citation. */
  function Noted(refs: References, limit: nat, mapping: Numbering, c: Citation): Numbering {
    match NumberOf(Enter(refs, limit, c), c.source)
    case Some(n) => mapping[c.marker := n]
    case None => mapping
  }

  /** Local to global numbers for the citations entered on top of `refs`. */
  function Mapping(refs: References, limit: nat, cites: seq<Citation>): Numbering {
    if cites == [] then map[]
    else
      var n := |cites| - 1;
      Noted(EnterAll(refs, limit, cites[..n]), limit, Mapping(refs, limit, cites[..n]), cites[n])
  }

  /** Numbered 1, 2, 3, ... with one entry per source and no more entries than the ceiling. */
  ghost predicate WellNumbered(refs: References, limit: nat) {
    && |refs| <= limit
    && (forall i | 0 <= i < |refs| :: refs[i].marker == i + 1)
    && (forall i, j | 0 <= i < j < |refs| :: refs[i].source != refs[j].source)
  }

  /** `later` keeps every entry of `earlier` in place; only a `referenced` flag may have been set. */
  ghost predicate Extends(earlier: References, later: References) {
    && |earlier| <= |later|
    && forall i | 0 <= i < |earlier| ::
         && later[i] == earlier[i].(referenced := later[i].referenced)
         && (earlier[i].referenced ==> later[i].referenced)
  }

  lemma {:induction false} SamePosition(a: References, b: References, source: Source, n: nat)
    requires n <= |a| && n <= |b| && forall i | 0 <= i < n :: a[i].source == b[i].source
    ensures PositionBefore(a, source, n) == PositionBefore(b, source, n)
  {
    if n > 0 { SamePosition(a, b, source, n - 1); }
  }

  lemma PositionAfterAppend(refs: References, c: Citation)
    ensures forall s :: Position(refs + [c], s) == if s == c.source then Some(|refs|) else Position(refs, s)
  {
    forall s { SamePosition(refs + [c], refs, s, |refs|); }
  }

  lemma PositionAfterFlag(refs: References, i: nat)
    requires i < |refs|
    ensures forall s :: Position(refs[i := refs[i].(referenced := true)], s) == Position(refs, s)
  {
    forall s { SamePosition(refs[i := refs[i].(referenced := true)], refs, s, |refs|); }
  }

  lemma EnterWellNumbered(refs: References, limit: nat, c: Citation)
    requires WellNumbered(refs, limit)
    ensures WellNumbered(Enter(refs, limit, c), limit)
  {
  }

  lemma EnterExtends(refs: References, limit: nat, c: Citation)
    requires WellNumbered(refs, limit)
    ensures Extends(refs, Enter(refs, limit, c))
  {
  }

  lemma {:induction false} EnterAllKeeps(refs: References, limit: nat, cites: seq<Citation>)
    requires WellNumbered(refs, limit)
    ensures WellNumbered(EnterAll(refs, limit, cites), limit)
    ensures Extends(refs, EnterAll(refs, limit, cites))
  {
    if cites != [] {
      EnterAllKeeps(refs, limit, cites[..|cites| - 1]);
      var before := EnterAll(refs, limit, cites[..|cites| - 1]);
      EnterWellNumbered(before, limit, cites[|cites| - 1]);
      EnterExtends(before, limit, cites[|cites| - 1]);
    }
  }

  /** The ledger's dictionary answers what a search of the reference list would. */
  ghost predicate Indexes(markers: map<Source, nat>, refs: References) {
    forall s :: (if s in markers then Some(markers[s]) else None) == NumberOf(refs, s)
  }

  function NumberOf(refs: References, source: Source): Option<nat> {
    match Position(refs, source)
    case Some(i) => Some(i + 1)
    case None => None
  }

  lemma IndexesAfterAppend(markers: map<Source, nat>, refs: References, c: Citation)
    requires Indexes(markers, refs)
    ensures Indexes(markers[c.source := |refs| + 1], refs + [c])
  {
    PositionAfterAppend(refs, c);
  }

  // ----- the ledger object -----

  class Ledger {
    const limit: nat
    var markers: map<Source, nat>
    var citations: seq<Citation>

    ghost predicate Valid()
      reads this
    {
      WellNumbered(citations, limit) && Indexes(markers, citations)
    }

    constructor (limit: int)
      ensures Valid() && citations == []
      ensures this.limit == if limit >= 1 then limit else 1
    {
      this.limit := if limit >= 1 then limit else 1;
      markers, citations := map[], [];
    }

    method Register(cites: seq<Citation>) returns (mapping: Numbering)
      requires Valid()
      modifies this`markers, this`citations
      ensures Valid()
      ensures citations == EnterAll(old(citations), limit, cites)
      ensures mapping == Mapping(old(citations), limit, cites)
    {
      mapping := map[];
      for k := 0 to |cites|
        invariant Valid()
        invariant citations == EnterAll(old(citations), limit, cites[..k])
        invariant mapping == Mapping(old(citations), limit, cites[..k])
      {
        assert cites[..k + 1][..k] == cites[..k];
        var place := RegisterOne(cites[k]);
        if place.Some? {
          mapping := mapping[cites[k].marker := place.value];
        }
      }
      assert cites[..|cites|] == cites;
    }

    /** One round of the loop: the global number of the citation's source, unless there is no
        room for it. */
    method RegisterOne(c: Citation) returns (place: Option<nat>)
      requires Valid()
      modifies this`markers, this`citations
      ensures Valid()
      ensures citations == Enter(old(citations), limit, c)
      ensures place == NumberOf(citations, c.source)
    {
      EnterWellNumbered(citations, limit, c);
      if c.source in markers {
        var existing := markers[c.source];
        if c.referenced {
          Promote(existing);
        }
        place := Some(existing);
      } else if |citations| >= limit {
        place := None;
      } else {
        var marker := |citations| + 1;
        IndexesAfterAppend(markers, citations, c.(marker := marker));
        markers := markers[c.source := marker];
        citations := citations + [c.(marker := marker)];
        place := Some(marker);
      }
    }

    method Promote(marker: nat)
      requires Valid() && 1 <= marker <= |citations|
      modifies this`citations
      ensures Valid()
      ensures citations == old(citations)[marker - 1 := old(citations)[marker - 1].(referenced := true)]
    {
      var index := marker - 1;
      PositionAfterFlag(citations, index);
      if !citations[index].referenced {
        citations := citations[index := citations[index].(referenced := true)];
      }
    }
  }

  // ----- the numbers a section receives -----

  predicate DistinctMarkers(cites: seq<Citation>) {
    forall i, j | 0 <= i < j < |cites| :: cites[i].marker != cites[j].marker
  }

  /** The source a section's own marker stands for. */
  function SourceOf(cites: seq<Citation>, marker: int): Option<Source> {
    if cites == [] then None
    else
      var n := |cites| - 1;
      if cites[n].marker == marker then Some(cites[n].source) else SourceOf(cites[..n], marker)
  }

  predicate LastWith(cites: seq<Citation>, marker: int, k: int) {
    0 <= k < |cites| && cites[k].marker == marker && forall j | k < j < |cites| :: cites[j].marker != marker
  }

  /** The source of the last citation with that number, if there is one. */
  lemma {:induction false} SourceOfExactly(cites: seq<Citation>, marker: int)
    ensures match SourceOf(cites, marker)
            case None => forall k | 0 <= k < |cites| :: cites[k].marker != marker
            case Some(source) => exists k :: LastWith(cites, marker, k) && cites[k].source == source
  {
    if cites != [] {
      var n := |cites| - 1;
      SourceOfExactly(cites[..n], marker);
      assert forall k | 0 <= k < n :: cites[..n][k] == cites[k];
      if cites[n].marker == marker {
        assert LastWith(cites, marker, n);
      } else if SourceOf(cites, marker).Some? {
        var k :| LastWith(cites[..n], marker, k) && cites[..n][k].source == SourceOf(cites, marker).value;
        assert LastWith(cites, marker, k);
      }
    }
  }

  /** What a mapping says about one local number: a number without a source is not mapped, one
      with a source is mapped to that source's entry, and has none only if the list is full. */
  predicate Placed(refs: References, limit: nat, mapping: Numbering, marker: int, source: Option<Source>) {
    match source
    case None => marker !in mapping
    case Some(s) =>
      && (if marker in mapping then Some(mapping[marker]) else None) == NumberOf(refs, s)
      && (NumberOf(refs, s).Some? || |refs| == limit)
  }

  lemma PositionUnique(refs: References, limit: nat, i: nat)
    requires WellNumbered(refs, limit) && i < |refs|
    ensures Position(refs, refs[i].source) == Some(i)
  {
    var at := Position(refs, refs[i].source);
    assert at.Some? && refs[at.value].source == refs[i].source;
  }

  /** A source keeps its number as the list grows, and one the list had no room for stays out. */
  lemma NumberStable(earlier: References, later: References, limit: nat, source: Source)
    requires Extends(earlier, later) && WellNumbered(later, limit)
    requires NumberOf(earlier, source).Some? || |earlier| == limit
    ensures NumberOf(later, source) == NumberOf(earlier, source)
  {
    match Position(earlier, source)
    case Some(i) =>
      assert later[i].source == source;
      PositionUnique(later, limit, i);
    case None =>
  }

  lemma {:induction false} MappingPlaces(refs: References, limit: nat, cites: seq<Citation>, marker: int)
    requires WellNumbered(refs, limit) && DistinctMarkers(cites)
    ensures Placed(EnterAll(refs, limit, cites), limit, Mapping(refs, limit, cites), marker, SourceOf(cites, marker))
  {
    if cites != [] {
      var n := |cites| - 1;
      var before, noted, source := EnterAll(refs, limit, cites[..n]), Mapping(refs, limit, cites[..n]),
                                   SourceOf(cites[..n], marker);
      EnterAllKeeps(refs, limit, cites[..n]);
      MappingPlaces(refs, limit, cites[..n], marker);
      if cites[n].marker == marker { SourceOfPrefix(cites, n); }
      NotedPlaces(before, limit, noted, cites[n], marker, source);
      LastCitation(refs, limit, cites, marker);
    }
  }

  lemma LastCitation(refs: References, limit: nat, cites: seq<Citation>, marker: int)
    requires cites != []
    ensures var n := |cites| - 1;
            var before := EnterAll(refs, limit, cites[..n]);
            && EnterAll(refs, limit, cites) == Enter(before, limit, cites[n])
            && Mapping(refs, limit, cites) == Noted(before, limit, Mapping(refs, limit, cites[..n]), cites[n])
            && SourceOf(cites, marker)
               == if cites[n].marker == marker then Some(cites[n].source) else SourceOf(cites[..n], marker)
  {
  }

  lemma NotedPlaces(
      before: References, limit: nat, mapping: Numbering, c: Citation, marker: int, source: Option<Source>)
    requires WellNumbered(before, limit) && Placed(before, limit, mapping, marker, source)
    requires c.marker == marker ==> source == None
    ensures Placed(Enter(before, limit, c), limit, Noted(before, limit, mapping, c), marker,
                   if c.marker == marker then Some(c.source) else source)
  {
    EnterPlaces(before, limit, c);
    if c.marker != marker && source.Some? {
      EnterWellNumbered(before, limit, c);
      EnterExtends(before, limit, c);
      NumberStable(before, Enter(before, limit, c), limit, source.value);
    }
  }

  lemma SourceOfPrefix(cites: seq<Citation>, n: nat)
    requires DistinctMarkers(cites) && n + 1 == |cites|
    ensures SourceOf(cites[..n], cites[n].marker) == None
  {
    SourceOfExactly(cites[..n], cites[n].marker);
  }

  lemma EnterPlaces(refs: References, limit: nat, c: Citation)
    requires |refs| <= limit
    ensures NumberOf(Enter(refs, limit, c), c.source).Some? || |Enter(refs, limit, c)| == limit
  {
    var after := Enter(refs, limit, c);
    match Position(refs, c.source)
    case Some(i) => assert after[i].source == c.source;
    case None => if |refs| < limit { assert after[|refs|].source == c.source; }
  }

  // ----- the assembled report -----

  /** A section's prose in the report. A section whose mapping is empty keeps its text as it was. */
  function Assembled(content: string, mapping: Numbering): string {
    if mapping != map[] then RemapMarkers(content, mapping) else content
  }

  /** The sources a section cites, in reading order, as far as the report lists them. */
  function CitedSources(numbers: seq<nat>, cites: seq<Citation>, refs: References): seq<Option<Source>> {
    if numbers == [] then []
    else
      var source := SourceOf(cites, numbers[0]);
      (if source.Some? && Position(refs, source.value).Some? then [source] else [])
      + CitedSources(numbers[1..], cites, refs)
  }

  function Entry(number: int, refs: References): Option<Source> {
    if 1 <= number <= |refs| then Some(refs[number - 1].source) else None
  }

  /** What a reader finds who follows each number to the report's reference list. */
  function Resolve(numbers: seq<int>, refs: References): (found: seq<Option<Source>>)
    ensures |found| == |numbers|
  {
    if numbers == [] then [] else [Entry(numbers[0], refs)] + Resolve(numbers[1..], refs)
  }

  /** Following the references of the printed section leads to the sources its draft cited. */
  ghost predicate Faithful(printed: string, draft: Draft, refs: References) {
    Resolve(FindMarkers(printed), refs) == CitedSources(FindMarkers(draft.content), draft.citations, refs)
  }

  /** The check that decides it: the section kept a source, removing the others splices nothing
      together and the numbers it is given can be written as markers, or it kept none and its prose
      has no marker to begin with. */
  ghost predicate Rewritable(content: string, mapping: Numbering) {
    if mapping == map[] then FindMarkers(content) == []
    else SplicedMarkers(content, mapping) == [] && TargetsFit(content, mapping)
  }

  /** All of a section's numbers are placed in the finished reference list. */
  ghost predicate AllPlaced(refs: References, limit: nat, mapping: Numbering, cites: seq<Citation>) {
    forall marker: int :: Placed(refs, limit, mapping, marker, SourceOf(cites, marker))
  }

  lemma ResolveHead(number: int, rest: seq<int>, refs: References)
    ensures Resolve([number] + rest, refs) == [Entry(number, refs)] + Resolve(rest, refs)
  {
    assert ([number] + rest)[1..] == rest;
  }

  lemma {:induction false} RenumberedResolve(
      numbers: seq<nat>, refs: References, limit: nat, mapping: Numbering, cites: seq<Citation>)
    requires AllPlaced(refs, limit, mapping, cites)
    ensures Resolve(Renumbered(numbers, mapping), refs) == CitedSources(numbers, cites, refs)
  {
    if numbers != [] {
      var n, rest := numbers[0], Renumbered(numbers[1..], mapping);
      assert Placed(refs, limit, mapping, n, SourceOf(cites, n));
      RenumberedResolve(numbers[1..], refs, limit, mapping, cites);
      if n in mapping {
        ResolveHead(mapping[n], rest, refs);
      }
    }
  }

  lemma {:induction false} CitedContains(numbers: seq<nat>, cites: seq<Citation>, refs: References, n: nat)
    requires n in numbers && SourceOf(cites, n).Some? && Position(refs, SourceOf(cites, n).value).Some?
    ensures SourceOf(cites, n) in CitedSources(numbers, cites, refs)
  {
    if n != numbers[0] { CitedContains(numbers[1..], cites, refs, n); }
  }

  lemma {:induction false} ResolveNumbers(numbers: seq<int>, refs: References, found: Option<Source>)
    requires found in Resolve(numbers, refs)
    ensures exists m :: m in numbers && Entry(m, refs) == found
  {
    if found == Entry(numbers[0], refs) {
      assert numbers[0] in numbers;
    } else {
      ResolveNumbers(numbers[1..], refs, found);
      var m :| m in numbers[1..] && Entry(m, refs) == found;
      assert m in numbers;
    }
  }

  /** A source listed past number 999 is one no marker leads to. */
  lemma BeyondMarkers(draft: Draft, refs: References, limit: nat, mapping: Numbering)
    requires AllPlaced(refs, limit, mapping, draft.citations) && WellNumbered(refs, limit)
    requires !TargetsFit(draft.content, mapping)
    ensures !Faithful(Assembled(draft.content, mapping), draft, refs)
  {
    var numbers, found := FindMarkers(draft.content), FindMarkers(Assembled(draft.content, mapping));
    var n :| n in numbers && n in mapping && !(0 <= mapping[n] <= 999);
    assert Placed(refs, limit, mapping, n, SourceOf(draft.citations, n));
    var source := SourceOf(draft.citations, n);
    CitedContains(numbers, draft.citations, refs, n);
    if source in Resolve(found, refs) {
      ResolveNumbers(found, refs, source);
      var m :| m in found && Entry(m, refs) == source;
      FoundAtMost999(Assembled(draft.content, mapping));
      assert false;
    }
  }

  /** Exactly when an assembled section is faithful. */
  lemma FaithfulExactly(draft: Draft, refs: References, limit: nat, mapping: Numbering)
    requires AllPlaced(refs, limit, mapping, draft.citations) && WellNumbered(refs, limit)
    ensures Faithful(Assembled(draft.content, mapping), draft, refs) <==> Rewritable(draft.content, mapping)
  {
    var numbers := FindMarkers(draft.content);
    var printed := Assembled(draft.content, mapping);
    RenumberedResolve(numbers, refs, limit, mapping, draft.citations);
    if mapping == map[] {
      NothingRenumbered(numbers);
      assert |Resolve(FindMarkers(printed), refs)| == |numbers|;
    } else if TargetsFit(draft.content, mapping) {
      RemapExact(draft.content, mapping);
      RemapCount(draft.content, mapping);
    } else {
      BeyondMarkers(draft, refs, limit, mapping);
    }
  }

  /** Up to 999 references every number can be written as a marker. */
  lemma NumbersFit(draft: Draft, refs: References, limit: nat, mapping: Numbering)
    requires AllPlaced(refs, limit, mapping, draft.citations) && |refs| <= 999
    ensures TargetsFit(draft.content, mapping)
  {
    var numbers := FindMarkers(draft.content);
    forall n | n in numbers && n in mapping ensures 0 <= mapping[n] <= 999 {
      assert Placed(refs, limit, mapping, n, SourceOf(draft.citations, n));
    }
  }

  lemma {:induction false} NothingRenumbered(numbers: seq<nat>)
    ensures Renumbered(numbers, map[]) == []
  {
    if numbers != [] { NothingRenumbered(numbers[1..]); }
  }

  lemma RemapCount(t: string, mapping: Numbering)
    requires TargetsFit(t, mapping)
    ensures |FindMarkers(RemapMarkers(t, mapping))|
         == |Renumbered(FindMarkers(t), mapping)| + |SplicedMarkers(t, mapping)|
  {
    RepairWhitespaceKeepsMarkers(Substitute(t, mapping));
    SubstituteLeaves(t, mapping);
    LeftAreRenumberedOrSpliced(t, mapping);
    assert |Bag(MarkersLeft(t, mapping))| == |MarkersLeft(t, mapping)|;
  }

  // ----- whole reports -----

  /** The reference list once the given drafts have been registered. */
  function Entered(drafts: seq<Draft>, limit: nat): References {
    if drafts == [] then []
    else EnterAll(Entered(drafts[..|drafts| - 1], limit), limit, drafts[|drafts| - 1].citations)
  }

  function SectionMapping(drafts: seq<Draft>, limit: nat, i: nat): Numbering
    requires i < |drafts|
  {
    Mapping(Entered(drafts[..i], limit), limit, drafts[i].citations)
  }

  lemma ExtendsFurther(a: References, b: References, c: References)
    requires Extends(a, b) && Extends(b, c)
    ensures Extends(a, c)
  {
  }

  lemma {:induction false} EnteredKeeps(drafts: seq<Draft>, limit: nat, i: nat)
    requires i <= |drafts|
    ensures WellNumbered(Entered(drafts, limit), limit)
    ensures Extends(Entered(drafts[..i], limit), Entered(drafts, limit))
  {
    if drafts != [] {
      var n := |drafts| - 1;
      var before := Entered(drafts[..n], limit);
      EnteredKeeps(drafts[..n], limit, if i <= n then i else n);
      EnterAllKeeps(before, limit, drafts[n].citations);
      if i <= n {
        assert drafts[..n][..i] == drafts[..i];
        ExtendsFurther(Entered(drafts[..i], limit), before, Entered(drafts, limit));
      }
    }
    if i == |drafts| {
      assert drafts[..i] == drafts;
    }
  }

  lemma {:induction false} SectionPlaced(drafts: seq<Draft>, limit: nat, i: nat)
    requires i < |drafts| && DistinctMarkers(drafts[i].citations)
    ensures AllPlaced(Entered(drafts, limit), limit, SectionMapping(drafts, limit, i), drafts[i].citations)
  {
    var cites := drafts[i].citations;
    var before, final := Entered(drafts[..i], limit), Entered(drafts, limit);
    var after, mapping := EnterAll(before, limit, cites), SectionMapping(drafts, limit, i);
    EnteredKeeps(drafts[..i], limit, i);
    assert drafts[..i + 1][..i] == drafts[..i];
    assert after == Entered(drafts[..i + 1], limit);
    EnteredKeeps(drafts, limit, i + 1);
    forall marker: int ensures Placed(final, limit, mapping, marker, SourceOf(cites, marker)) {
      MappingPlaces(before, limit, cites, marker);
      if SourceOf(cites, marker).Some? {
        NumberStable(after, final, limit, SourceOf(cites, marker).value);
      }
    }
  }

  /** What `assemble_report` prints for one section. */
  function Section(drafts: seq<Draft>, limit: nat, i: nat): string
    requires i < |drafts|
  {
    Assembled(drafts[i].content, SectionMapping(drafts, limit, i))
  }

  /** Exactly when the references of a printed section lead where its draft's did, once the whole
      report is assembled. */
  lemma SectionFaithfulExactly(drafts: seq<Draft>, limit: nat, i: nat)
    requires i < |drafts| && DistinctMarkers(drafts[i].citations)
    ensures Faithful(Section(drafts, limit, i), drafts[i], Entered(drafts, limit))
       <==> Rewritable(drafts[i].content, SectionMapping(drafts, limit, i))
  {
    EnteredKeeps(drafts, limit, i);
    SectionPlaced(drafts, limit, i);
    FaithfulExactly(drafts[i], Entered(drafts, limit), limit, SectionMapping(drafts, limit, i));
  }

  /** All printed sections, each rewritten when its turn comes. */
  function Printed(drafts: seq<Draft>, limit: nat): (sections: seq<string>)
    ensures |sections| == |drafts|
  {
    if drafts == [] then []
    else
      var n := |drafts| - 1;
      Printed(drafts[..n], limit) + [Section(drafts, limit, n)]
  }

  lemma {:induction false} PrintedIsSection(drafts: seq<Draft>, limit: nat, i: nat)
    requires i < |drafts|
    ensures Printed(drafts, limit)[i] == Section(drafts, limit, i)
  {
    var n := |drafts| - 1;
    PrintedStep(drafts, limit, i);
    if i < n {
      PrintedIsSection(drafts[..n], limit, i);
      SectionOfPrefix(drafts, limit, n, i);
    }
  }

  lemma PrintedStep(drafts: seq<Draft>, limit: nat, i: nat)
    requires i < |drafts|
    ensures Printed(drafts, limit)[i]
         == if i < |drafts| - 1 then Printed(drafts[..|drafts| - 1], limit)[i] else Section(drafts, limit, i)
  {
  }

  lemma SectionOfPrefix(drafts: seq<Draft>, limit: nat, n: nat, i: nat)
    requires i < n <= |drafts|
    ensures Section(drafts[..n], limit, i) == Section(drafts, limit, i)
  {
    assert drafts[..n][..i] == drafts[..i];
  }

  // ----- the reference list -----

  /** The citations of a report, section by section. */
  function AllCitations(drafts: seq<Draft>): seq<Citation> {
    if drafts == [] then [] else AllCitations(drafts[..|drafts| - 1]) + drafts[|drafts| - 1].citations
  }

  lemma {:induction false} EnterConcat(refs: References, limit: nat, a: seq<Citation>, b: seq<Citation>)
    ensures EnterAll(refs, limit, a + b) == EnterAll(EnterAll(refs, limit, a), limit, b)
    decreases |b|
  {
    if b == [] {
      assert a + b == a;
    } else {
      var n := |b| - 1;
      assert (a + b)[..|a + b| - 1] == a + b[..n];
      EnterConcat(refs, limit, a, b[..n]);
    }
  }

  lemma {:induction false} EnteredIsEnterAll(drafts: seq<Draft>, limit: nat)
    ensures Entered(drafts, limit) == EnterAll([], limit, AllCitations(drafts))
  {
    if drafts != [] {
      var n := |drafts| - 1;
      EnteredIsEnterAll(drafts[..n], limit);
      EnterConcat([], limit, AllCitations(drafts[..n]), drafts[n].citations);
    }
  }

  /** The first citation of its source. */
  predicate FirstAt(cites: seq<Citation>, p: int) {
    0 <= p < |cites| && forall q | 0 <= q < p :: cites[q].source != cites[p].source
  }

  predicate Lists(refs: References, source: Source) { exists i | 0 <= i < |refs| :: refs[i].source == source }

  /** The `i`-th reference is the first citation of its source as given, with its number and flag. */
  predicate ListedFrom(refs: References, cites: seq<Citation>, i: nat, p: int)
    requires i < |refs|
  {
    FirstAt(cites, p) && refs[i] == cites[p].(marker := i + 1, referenced := refs[i].referenced)
  }

  /** A source that is not listed was first cited when the list was full. */
  predicate LeftOutWhenFull(refs: References, cites: seq<Citation>, ceiling: nat, firsts: seq<int>, p: int)
    requires 0 <= p < |cites|
  {
    Lists(refs, cites[p].source) || (|refs| == ceiling && forall i | 0 <= i < |firsts| :: firsts[i] < p)
  }

  /** The references are the first citations of the first `ceiling` sources, in the order they are first
      cited. */
  ghost predicate IsReferenceList(refs: References, cites: seq<Citation>, ceiling: nat, firsts: seq<int>) {
    && |firsts| == |refs| <= ceiling
    && (forall i | 0 <= i < |refs| :: ListedFrom(refs, cites, i, firsts[i]))
    && (forall i, j | 0 <= i < j < |refs| :: firsts[i] < firsts[j])
    && (forall p | 0 <= p < |cites| :: LeftOutWhenFull(refs, cites, ceiling, firsts, p))
  }

  /** One more citation whose source is listed, or for whose source there is no room. */
  lemma SameList(refs: References, next: References, cites: seq<Citation>, ceiling: nat, firsts: seq<int>)
    requires cites != [] && IsReferenceList(refs, cites[..|cites| - 1], ceiling, firsts)
    requires |next| == |refs| && forall i | 0 <= i < |refs| :: next[i] == refs[i].(referenced := next[i].referenced)
    requires Lists(refs, cites[|cites| - 1].source) || |refs| == ceiling
    ensures IsReferenceList(next, cites, ceiling, firsts)
  {
    var n := |cites| - 1;
    var prefix := cites[..n];
    forall i | 0 <= i < |refs| ensures ListedFrom(next, cites, i, firsts[i]) {
      assert ListedFrom(refs, prefix, i, firsts[i]);
      assert forall q | 0 <= q < n :: cites[q] == prefix[q];
    }
    forall p | 0 <= p < |cites| ensures LeftOutWhenFull(next, cites, ceiling, firsts, p) {
      SameSources(refs, next, cites[p].source);
      if p < n {
        assert LeftOutWhenFull(refs, prefix, ceiling, firsts, p) && prefix[p] == cites[p];
      } else {
        forall i | 0 <= i < |firsts| ensures firsts[i] < n { assert ListedFrom(refs, prefix, i, firsts[i]); }
      }
    }
  }

  lemma SameSources(refs: References, next: References, source: Source)
    requires |next| == |refs| && forall i | 0 <= i < |refs| :: next[i].source == refs[i].source
    ensures Lists(next, source) <==> Lists(refs, source)
  {
    if i :| 0 <= i < |refs| && refs[i].source == source { assert next[i].source == source; }
    if i :| 0 <= i < |next| && next[i].source == source { assert refs[i].source == source; }
  }

  /** One more citation of a new source there is room for. */
  lemma LongerList(refs: References, cites: seq<Citation>, ceiling: nat, firsts: seq<int>)
    requires cites != [] && IsReferenceList(refs, cites[..|cites| - 1], ceiling, firsts)
    requires !Lists(refs, cites[|cites| - 1].source) && |refs| < ceiling
    ensures IsReferenceList(
              refs + [cites[|cites| - 1].(marker := |refs| + 1)], cites, ceiling, firsts + [|cites| - 1])
  {
    var n := |cites| - 1;
    var prefix, next := cites[..n], refs + [cites[n].(marker := |refs| + 1)];
    forall q | 0 <= q < n ensures cites[q].source != cites[n].source {
      assert LeftOutWhenFull(refs, prefix, ceiling, firsts, q) && prefix[q] == cites[q];
    }
    forall i | 0 <= i < |next| ensures ListedFrom(next, cites, i, (firsts + [n])[i]) {
      if i < |refs| {
        assert ListedFrom(refs, prefix, i, firsts[i]);
        assert forall q | 0 <= q < n :: cites[q] == prefix[q];
      }
    }
    forall i, j | 0 <= i < j < |next| ensures (firsts + [n])[i] < (firsts + [n])[j] {
      assert ListedFrom(refs, prefix, i, firsts[i]);
    }
    forall p | 0 <= p < |cites| ensures LeftOutWhenFull(next, cites, ceiling, firsts + [n], p) {
      if p < n {
        assert LeftOutWhenFull(refs, prefix, ceiling, firsts, p) && prefix[p] == cites[p];
        var i :| 0 <= i < |refs| && refs[i].source == cites[p].source;
        assert next[i].source == cites[p].source;
      } else {
        assert next[|refs|].source == cites[p].source;
      }
    }
  }

  lemma {:induction false} ListExactly(cites: seq<Citation>, ceiling: nat) returns (firsts: seq<int>)
    ensures IsReferenceList(EnterAll([], ceiling, cites), cites, ceiling, firsts)
  {
    if cites == [] {
      firsts := [];
    } else {
      var n := |cites| - 1;
      var before := EnterAll([], ceiling, cites[..n]);
      firsts := ListExactly(cites[..n], ceiling);
      if Lists(before, cites[n].source) || |before| == ceiling {
        SameList(before, Enter(before, ceiling, cites[n]), cites, ceiling, firsts);
      } else {
        LongerList(before, cites, ceiling, firsts);
        firsts := firsts + [n];
      }
    }
  }

  lemma OneDraftMore(drafts: seq<Draft>, limit: nat, k: nat)
    requires k < |drafts|
    ensures Entered(drafts[..k + 1], limit) == EnterAll(Entered(drafts[..k], limit), limit, drafts[k].citations)
    ensures Printed(drafts[..k + 1], limit)
         == Printed(drafts[..k], limit)
            + [Assembled(drafts[k].content, Mapping(Entered(drafts[..k], limit), limit, drafts[k].citations))]
  {
    assert drafts[..k + 1][..k] == drafts[..k];
  }

  lemma EnteredIsList(drafts: seq<Draft>, ceiling: nat) returns (firsts: seq<int>)
    ensures IsReferenceList(Entered(drafts, ceiling), AllCitations(drafts), ceiling, firsts)
  {
    EnteredIsEnterAll(drafts, ceiling);
    firsts := ListExactly(AllCitations(drafts), ceiling);
  }

  /** `assemble_report`: register every section's sources and rewrite its prose. The report lists the
      first citations of its first sources, as many as the ceiling allows, and at least one. */
  method AssembleReport(drafts: seq<Draft>, maxCitations: int)
    returns (sections: seq<string>, references: References, ghost firsts: seq<int>)
    ensures var ceiling := if maxCitations >= 1 then maxCitations else 1;
            sections == Printed(drafts, ceiling) && references == Entered(drafts, ceiling)
    ensures IsReferenceList(references, AllCitations(drafts), if maxCitations >= 1 then maxCitations else 1, firsts)
  {
    var ledger := new Ledger(maxCitations);
    sections := [];
    for k := 0 to |drafts|
      invariant fresh(ledger) && ledger.Valid()
      invariant ledger.limit == if maxCitations >= 1 then maxCitations else 1
      invariant ledger.citations == Entered(drafts[..k], ledger.limit)
      invariant sections == Printed(drafts[..k], ledger.limit)
    {
      OneDraftMore(drafts, ledger.limit, k);
      var mapping := ledger.Register(drafts[k].citations);
      sections := sections + [Assembled(drafts[k].content, mapping)];
    }
    assert drafts[..|drafts|] == drafts;
    references := ledger.citations;
    firsts := EnteredIsList(drafts, ledger.limit);
  }

  // ----- the referenced flag -----

  predicate MarkedReferenced(cites: seq<Citation>, source: Source) {
    exists k | 0 <= k < |cites| :: cites[k].source == source && cites[k].referenced
  }

  lemma MarkedStep(cites: seq<Citation>, n: nat, source: Source)
    requires n + 1 == |cites|
    ensures MarkedReferenced(cites, source)
       <==> MarkedReferenced(cites[..n], source) || (cites[n].source == source && cites[n].referenced)
  {
    if MarkedReferenced(cites[..n], source) {
      var k :| 0 <= k < n && cites[..n][k].source == source && cites[..n][k].referenced;
      assert cites[k].source == source;
    }
    if MarkedReferenced(cites, source) {
      var k :| 0 <= k < |cites| && cites[k].source == source && cites[k].referenced;
      if k < n { assert cites[..n][k] == cites[k]; }
    }
  }

  lemma EnterFlag(refs: References, limit: nat, c: Citation, i: nat)
    requires WellNumbered(refs, limit) && i < |Enter(refs, limit, c)|
    ensures var entry := Enter(refs, limit, c)[i];
            entry.referenced
            <==> (i < |refs| && refs[i].referenced) || (c.source == entry.source && c.referenced)
  {
  }

  lemma {:induction false} FlagAfterSection(refs: References, limit: nat, cites: seq<Citation>, i: nat)
    requires WellNumbered(refs, limit) && i < |EnterAll(refs, limit, cites)|
    ensures var entry := EnterAll(refs, limit, cites)[i];
            entry.referenced <==> (i < |refs| && refs[i].referenced) || MarkedReferenced(cites, entry.source)
  {
    if cites != [] {
      var n := |cites| - 1;
      var before, source := EnterAll(refs, limit, cites[..n]), EnterAll(refs, limit, cites)[i].source;
      EnterAllKeeps(refs, limit, cites[..n]);
      EnterFlag(before, limit, cites[n], i);
      MarkedStep(cites, n, source);
      if i < |before| {
        FlagAfterSection(refs, limit, cites[..n], i);
        EnterExtends(before, limit, cites[n]);
      } else {
        MarkedEnteredOrFull(refs, limit, cites[..n], source);
        AppendedIsNew(before, limit, cites[n]);
      }
    }
  }

  lemma AppendedIsNew(refs: References, limit: nat, c: Citation)
    requires |Enter(refs, limit, c)| > |refs|
    ensures |refs| < limit && NumberOf(refs, c.source) == None
    ensures Enter(refs, limit, c)[|refs|].source == c.source
  {
  }

  lemma {:induction false} MarkedEnteredOrFull(refs: References, limit: nat, cites: seq<Citation>, source: Source)
    requires WellNumbered(refs, limit)
    ensures var after := EnterAll(refs, limit, cites);
            MarkedReferenced(cites, source) ==> NumberOf(after, source).Some? || |after| == limit
  {
    if MarkedReferenced(cites, source) {
      var k :| 0 <= k < |cites| && cites[k].source == source && cites[k].referenced;
      EnteredOrFull(refs, limit, cites, k);
    }
  }

  lemma {:induction false} EnteredOrFull(refs: References, limit: nat, cites: seq<Citation>, k: nat)
    requires WellNumbered(refs, limit) && k < |cites|
    ensures var after := EnterAll(refs, limit, cites);
            NumberOf(after, cites[k].source).Some? || |after| == limit
  {
    var n := |cites| - 1;
    var before, c := EnterAll(refs, limit, cites[..n]), cites[n];
    EnterAllKeeps(refs, limit, cites[..n]);
    if k < n {
      assert cites[..n][k] == cites[k];
      EnteredOrFull(refs, limit, cites[..n], k);
      EnterWellNumbered(before, limit, c);
      EnterExtends(before, limit, c);
      NumberStable(before, Enter(before, limit, c), limit, cites[k].source);
    } else {
      EnterPlaces(before, limit, c);
    }
  }

  ghost predicate SomeSectionReferenced(drafts: seq<Draft>, source: Source) {
    exists d | 0 <= d < |drafts| :: MarkedReferenced(drafts[d].citations, source)
  }

  lemma SomeSectionStep(drafts: seq<Draft>, n: nat, source: Source)
    requires n + 1 == |drafts|
    ensures SomeSectionReferenced(drafts, source)
       <==> SomeSectionReferenced(drafts[..n], source) || MarkedReferenced(drafts[n].citations, source)
  {
    if SomeSectionReferenced(drafts, source) {
      var d :| 0 <= d < |drafts| && MarkedReferenced(drafts[d].citations, source);
      assert d < n ==> drafts[..n][d] == drafts[d];
    }
    if SomeSectionReferenced(drafts[..n], source) {
      var d :| 0 <= d < n && MarkedReferenced(drafts[..n][d].citations, source);
      assert drafts[..n][d] == drafts[d];
    }
  }

  lemma ReferencedIsEntered(drafts: seq<Draft>, limit: nat, source: Source)
    requires SomeSectionReferenced(drafts, source)
    ensures NumberOf(Entered(drafts, limit), source).Some? || |Entered(drafts, limit)| == limit
  {
    var d :| 0 <= d < |drafts| && MarkedReferenced(drafts[d].citations, source);
    var k :| 0 <= k < |drafts[d].citations| && drafts[d].citations[k].source == source;
    AbsentMeansFull(drafts, limit, d, k);
  }

  /** An entry of the report's list is flagged as referenced exactly when some section referenced
      its source. */
  lemma {:induction false} ReferencedExactly(drafts: seq<Draft>, limit: nat, i: nat)
    requires i < |Entered(drafts, limit)|
    ensures var entry := Entered(drafts, limit)[i];
            entry.referenced <==> SomeSectionReferenced(drafts, entry.source)
  {
    if drafts != [] {
      var n := |drafts| - 1;
      var before, source := Entered(drafts[..n], limit), Entered(drafts, limit)[i].source;
      EnteredKeeps(drafts[..n], limit, n);
      EnterAllKeeps(before, limit, drafts[n].citations);
      FlagAfterSection(before, limit, drafts[n].citations, i);
      SomeSectionStep(drafts, n, source);
      if i < |before| {
        ReferencedExactly(drafts[..n], limit, i);
      } else if SomeSectionReferenced(drafts[..n], source) {
        ReferencedIsEntered(drafts[..n], limit, source);
      }
    }
  }

  lemma AbsentMeansFull(drafts: seq<Draft>, limit: nat, d: nat, k: nat)
    requires d < |drafts| && k < |drafts[d].citations|
    ensures var refs := Entered(drafts, limit);
            NumberOf(refs, drafts[d].citations[k].source).Some? || |refs| == limit
  {
    var before := Entered(drafts[..d], limit);
    EnteredKeeps(drafts[..d], limit, d);
    EnteredKeeps(drafts, limit, d + 1);
    assert drafts[..d + 1][..d] == drafts[..d];
    EnteredOrFull(before, limit, drafts[d].citations, k);
    NumberStable(Entered(drafts[..d + 1], limit), Entered(drafts, limit), limit, drafts[d].citations[k].source);
  }

  // ----- where the promise fails -----

  lemma FullLedgerTurnsAway(first: string, second: string, a: Citation, b: Citation)
    requires a.marker == 1 && a.source != b.source
    ensures var drafts := [Draft(first, [a]), Draft(second, [b])];
            Entered(drafts, 1) == [a] && SectionMapping(drafts, 1, 1) == map[]
  {
    var drafts := [Draft(first, [a]), Draft(second, [b])];
    assert drafts[..1][..0] == [] && [a][..0] == [] && [b][..0] == [];
    assert EnterAll([], 1, [a]) == Enter(EnterAll([], 1, []), 1, a) == [a];
    assert Entered(drafts[..1], 1) == [a];
    assert Enter([a], 1, b) == [a];
    assert Mapping([a], 1, [b]) == Noted([a], 1, map[], b);
  }

  /** The promise that an unplaced reference is removed from the prose does not reach a section
      none of whose sources fit: whatever its text, it is kept, and its `[1]` now names another
      source. */
  lemma KeptMarkerNamesAnotherSource(first: string, second: string, a: Citation, b: Citation)
    requires a.marker == b.marker == 1 && a.source != b.source && FindMarkers(second) == [1]
    ensures var drafts := [Draft(first, [a]), Draft(second, [b])];
            && Section(drafts, 1, 1) == second
            && Resolve(FindMarkers(Section(drafts, 1, 1)), Entered(drafts, 1)) == [Some(a.source)]
            && SourceOf([b], 1) == Some(b.source)
  {
    FullLedgerTurnsAway(first, second, a, b);
  }

  /** Prose of any length is such a text, so also a section long enough to be kept as drafted. */
  lemma ProseWithOneMarker(prose: string)
    requires '[' !in prose
    ensures FindMarkers(prose + "[1]") == [1]
  {
    assert MarkerText(1) == "[1]" && "[1]" + "" == "[1]";
    MarkerTextIsRead(1, "");
    NoBracketNoMarker(prose, "[1]");
  }
}
