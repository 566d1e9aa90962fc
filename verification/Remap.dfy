/** `remap_markers` of apps/api/core/reports.py: one simultaneous substitution of the citation
    markers, then two whitespace repairs and a strip. */
module Remap {
  import opened Text
  import opened Markers

  type Numbering = map<int, int>

  function MarkerText(n: int): string { ['['] + IntText(n) + [']'] }

  function Replacement(number: nat, mapping: Numbering): string {
    if number in mapping then MarkerText(mapping[number]) else []
  }

  /** `CITATION_MARKER_PATTERN.sub(replace, text)`. */
  function Substitute(t: string, mapping: Numbering): string
    decreases |t|
  {
    if t == [] then []
    else match MarkerAt(t)
      case Some(hit) => Replacement(hit.number, mapping) + Substitute(hit.rest, mapping)
      case None => [t[0]] + Substitute(t[1..], mapping)
  }

  predicate IsPunctuation(c: char) {
    c in {',', '.', ';', ':', '!', '?', '\U{060C}', '\U{061B}', '\U{061F}'}
  }

  /** `_SPACE_RUN.sub(" ", text)`: a run of two or more blanks becomes one space. */
  function CollapseBlanks(t: string): string
    decreases |t|
  {
    if t == [] then []
    else if |t| > 1 && IsBlank(t[0]) && IsBlank(t[1]) then
      LStripIfShortens(IsBlank, t);
      [' '] + CollapseBlanks(LStripIf(IsBlank, t))
    else [t[0]] + CollapseBlanks(t[1..])
  }

  /** `_SPACE_BEFORE_PUNCTUATION.sub(r"\1", text)`: whitespace directly before punctuation goes. */
  function TidyPunctuation(t: string): string
    decreases |t|
  {
    if t == [] then []
    else if IsSpace(t[0]) && LStrip(t) != [] && IsPunctuation(LStrip(t)[0]) then
      LStripIfShortens(IsSpace, t);
      [LStrip(t)[0]] + TidyPunctuation(LStrip(t)[1..])
    else [t[0]] + TidyPunctuation(t[1..])
  }

  function RepairWhitespace(t: string): string {
    Strip(TidyPunctuation(CollapseBlanks(t)))
  }

  function RemapMarkers(t: string, mapping: Numbering): string {
    RepairWhitespace(Substitute(t, mapping))
  }

  // ----- the repairs as one-character rules -----

  /** The three passes: blank runs, whitespace before punctuation, whitespace at the end. */
  datatype Pass = BlankRuns | BeforePunctuation | AtEnd

  /** What a pass does with one character once everything behind it has been repaired:
      keep it, drop it, or let it and the character behind it become one space. */
  datatype Action = Keep | Drop | Merge

  function Head(s: string): Option<char> { if s == [] then None else Some(s[0]) }

  function Act(pass: Pass, c: char, next: Option<char>): Action {
    match pass
    case BlankRuns => if IsBlank(c) && next.Some? && IsBlank(next.value) then Merge else Keep
    case BeforePunctuation => if IsSpace(c) && next.Some? && IsPunctuation(next.value) then Drop else Keep
    case AtEnd => if IsSpace(c) && next.None? then Drop else Keep
  }

  function Step(pass: Pass, c: char, repaired: string): string {
    match Act(pass, c, Head(repaired))
    case Keep => [c] + repaired
    case Drop => repaired
    case Merge => [' '] + repaired[1..]
  }

  function Repair(pass: Pass, t: string): string {
    if t == [] then [] else Step(pass, t[0], Repair(pass, t[1..]))
  }

  lemma {:induction false} CollapseIsRepair(t: string)
    ensures CollapseBlanks(t) == Repair(BlankRuns, t)
    decreases |t|
  {
    if t != [] {
      CollapseIsRepair(t[1..]);
      if |t| > 1 && IsBlank(t[0]) && IsBlank(t[1]) {
        var rest := LStripIf(IsBlank, t);
        assert rest == LStripIf(IsBlank, t[1..]);
        assert rest == LStripIf(IsBlank, t[1..][1..]);
      }
    }
  }

  lemma {:induction false} TidyIsRepair(t: string)
    ensures TidyPunctuation(t) == Repair(BeforePunctuation, t)
    decreases |t|
  {
    if t != [] {
      TidyIsRepair(t[1..]);
      if IsSpace(t[0]) {
        assert LStrip(t) == LStrip(t[1..]);
      }
    }
  }

  lemma {:induction false} RStripIsRepair(t: string)
    ensures RStrip(t) == Repair(AtEnd, t)
  {
    if t != [] { RStripIsRepair(t[1..]); }
  }

  // ----- repairs and markers -----

  function Carry(f: string -> string, hit: Option<Hit>): Option<Hit> {
    match hit
    case None => None
    case Some(h) => Some(Hit(h.number, f(h.rest)))
  }

  lemma RepairKeepsFirst(pass: Pass, u: string)
    requires u != [] && !IsSpace(u[0])
    ensures var repaired := Repair(pass, u);
            repaired != [] && repaired[0] == u[0] && repaired[1..] == Repair(pass, u[1..])
  {
    assert Repair(pass, u) == [u[0]] + Repair(pass, u[1..]);
  }

  lemma SpaceHasNoBody(pass: Pass, u: string, k: nat, acc: nat)
    requires u != [] && IsSpace(u[0])
    ensures Body(u, k, acc).None? && Body(Repair(pass, u), k, acc).None?
  {
    RepairOfSpace(pass, u);
  }

  lemma {:induction false} RepairKeepsBody(pass: Pass, u: string, k: nat, acc: nat)
    ensures Body(Repair(pass, u), k, acc) == Carry(t => Repair(pass, t), Body(u, k, acc))
    decreases |u|
  {
    if u != [] {
      if IsSpace(u[0]) {
        SpaceHasNoBody(pass, u, k, acc);
      } else {
        RepairKeepsFirst(pass, u);
        if u[0] != ']' && k < 3 && IsDigit(u[0]) {
          RepairKeepsBody(pass, u[1..], k + 1, 10 * acc + DigitValue(u[0]));
        }
      }
    }
  }

  /** A repaired text that began with whitespace begins with whitespace or punctuation, or is gone. */
  lemma RepairOfSpace(pass: Pass, u: string)
    requires u != [] && IsSpace(u[0])
    ensures var s := Repair(pass, u); s == [] || IsSpace(s[0]) || IsPunctuation(s[0])
  {
  }

  lemma RepairKeepsMarkerAt(pass: Pass, t: string)
    ensures MarkerAt(Repair(pass, t)) == Carry(u => Repair(pass, u), MarkerAt(t))
  {
    if t != [] {
      if IsSpace(t[0]) {
        RepairOfSpace(pass, t);
      } else {
        assert Repair(pass, t) == [t[0]] + Repair(pass, t[1..]);
        RepairKeepsBody(pass, t[1..], 0, 0);
      }
    }
  }

  lemma {:induction false} RepairKeepsMarkers(pass: Pass, t: string)
    ensures FindMarkers(Repair(pass, t)) == FindMarkers(t)
    decreases |t|
  {
    if t != [] {
      RepairKeepsMarkerAt(pass, t);
      match MarkerAt(t)
      case Some(hit) => RepairKeepsMarkers(pass, hit.rest);
      case None =>
        RepairKeepsMarkers(pass, t[1..]);
        var r := Repair(pass, t[1..]);
        match Act(pass, t[0], Head(r)) {
          case Keep =>
            assert ([t[0]] + r)[1..] == r;
          case Drop =>
          case Merge =>
            assert ([' '] + r[1..])[1..] == r[1..];
        }
    }
  }

  lemma {:induction false} LStripKeepsMarkers(t: string)
    ensures FindMarkers(LStrip(t)) == FindMarkers(t)
    decreases |t|
  {
    if t != [] && IsSpace(t[0]) { LStripKeepsMarkers(t[1..]); }
  }

  /** Neither whitespace repair nor the strip creates, removes or reorders a marker. */
  lemma RepairWhitespaceKeepsMarkers(t: string)
    ensures FindMarkers(RepairWhitespace(t)) == FindMarkers(t)
  {
    var a := CollapseBlanks(t);
    var b := TidyPunctuation(a);
    CollapseIsRepair(t); RepairKeepsMarkers(BlankRuns, t);
    TidyIsRepair(a); RepairKeepsMarkers(BeforePunctuation, a);
    LStripKeepsMarkers(b);
    RStripIsRepair(LStrip(b)); RepairKeepsMarkers(AtEnd, LStrip(b));
  }

  // ----- what a substitution does to the markers -----

  /** Reads on behind an opening bracket the way the pattern will once the unmapped markers in
      between are gone. `Some` means that removing them splices a new marker together. */
  function Splice(u: string, mapping: Numbering, k: nat, acc: nat): (hit: Option<Hit>)
    ensures hit.Some? ==> |hit.value.rest| < |u|
    decreases |u|
  {
    if u == [] then None
    else match MarkerAt(u)
      case Some(hit) => if hit.number in mapping then None else Splice(hit.rest, mapping, k, acc)
      case None =>
        if u[0] == ']' then (if k >= 1 then Some(Hit(acc, u[1..])) else None)
        else if k < 3 && IsDigit(u[0]) then Splice(u[1..], mapping, k + 1, 10 * acc + DigitValue(u[0]))
        else None
  }

  function SpliceAt(t: string, mapping: Numbering): (hit: Option<Hit>)
    ensures hit.Some? ==> |hit.value.rest| < |t|
  {
    if t != [] && t[0] == '[' && MarkerAt(t).None? then Splice(t[1..], mapping, 0, 0) else None
  }

  /** The numbers of the markers that removing the unmapped ones would splice together. */
  function SplicedMarkers(t: string, mapping: Numbering): seq<nat>
    decreases |t|
  {
    if t == [] then []
    else match MarkerAt(t)
      case Some(hit) => SplicedMarkers(hit.rest, mapping)
      case None =>
        match SpliceAt(t, mapping)
        case Some(hit) => [hit.number] + SplicedMarkers(hit.rest, mapping)
        case None => SplicedMarkers(t[1..], mapping)
  }

  /** The references a remap should leave: those with an entry, renumbered, in order. */
  function Renumbered(markers: seq<nat>, mapping: Numbering): seq<int> {
    if markers == [] then []
    else if markers[0] in mapping then [mapping[markers[0]]] + Renumbered(markers[1..], mapping)
    else Renumbered(markers[1..], mapping)
  }

  function Bag(numbers: seq<int>): multiset<int> { multiset(numbers) }

  /** Every number a marker of `t` is mapped to can be written with one to three digits. */
  ghost predicate TargetsFit(t: string, mapping: Numbering) {
    forall n | n in FindMarkers(t) && n in mapping :: 0 <= mapping[n] <= 999
  }

  lemma {:induction false} SubstituteBody(u: string, mapping: Numbering, k: nat, acc: nat)
    ensures Body(Substitute(u, mapping), k, acc)
         == Carry(t => Substitute(t, mapping), Splice(u, mapping, k, acc))
    decreases |u|
  {
    if u != [] {
      match MarkerAt(u)
      case Some(hit) =>
        if hit.number in mapping {
          assert Substitute(u, mapping)[0] == '[';
        } else {
          assert Substitute(u, mapping) == Substitute(hit.rest, mapping);
          SubstituteBody(hit.rest, mapping, k, acc);
        }
      case None =>
        assert Substitute(u, mapping)[1..] == Substitute(u[1..], mapping);
        if u[0] != ']' && k < 3 && IsDigit(u[0]) {
          SubstituteBody(u[1..], mapping, k + 1, 10 * acc + DigitValue(u[0]));
        }
    }
  }

  lemma OverlongIsNotRead(n: int, x: string)
    requires n < 0 || (n > 999 && |Decimal(n)| >= 4)
    ensures FindMarkers(MarkerText(n) + x) == FindMarkers(x)
  {
    var s := MarkerText(n);
    if MarkerAt(s + x).Some? {
      MarkerAtSound(s + x);
      UnreadableMarkerText(n, x, |s + x| - |MarkerAt(s + x).value.rest|);
    }
    assert s[1..|s| - 1] == IntText(n) && (s + x)[1..] == s[1..] + x;
    forall c | c in s[1..] ensures c != '[' {
      assert c in IntText(n) || c == ']';
    }
    NoBracketNoMarker(s[1..], x);
  }

  lemma UnreadableMarkerText(n: int, x: string, m: nat)
    requires n < 0 || (n > 999 && |Decimal(n)| >= 4)
    requires m <= |MarkerText(n) + x|
    ensures forall number: nat :: !SpellsMarker((MarkerText(n) + x)[..m], number)
  {
    var s := MarkerText(n);
    forall number: nat ensures !SpellsMarker((s + x)[..m], number) {
      var piece := (s + x)[..m];
      if 3 <= m <= 5 {
        if n < 0 {
          assert s[1] == IntText(n)[0] == '-';
          assert piece[1..m - 1][0] == '-';
          assert '-' in piece[1..m - 1];
        } else {
          assert |s| >= 6;
          assert s == ['['] + Decimal(n) + [']'];
          assert piece[m - 1] == (s + x)[m - 1] == s[m - 1] == Decimal(n)[m - 2];
          assert Decimal(n)[m - 2] in Decimal(n);
        }
      }
    }
  }

  lemma {:induction false} NoBracketNoMarker(s: string, x: string)
    requires '[' !in s
    ensures FindMarkers(s + x) == FindMarkers(x)
  {
    if s == [] {
      assert s + x == x;
    } else {
      assert (s + x)[1..] == s[1..] + x;
      NoBracketNoMarker(s[1..], x);
    }
  }

  lemma ThreeDigits(n: nat)
    ensures |Decimal(n)| <= 3 <==> n <= 999
  {
    assert Pow10(3) == 10 * Pow10(2) == 100 * Pow10(1) == 1000 * Pow10(0) == 1000;
    DecimalWidth(n, 3);
  }

  lemma WrittenMarker(n: int)
    requires 0 <= n <= 999
    ensures SpellsMarker(MarkerText(n), n)
  {
    var s := MarkerText(n);
    assert s[1..|s| - 1] == IntText(n);
    ThreeDigits(n);
    NatOfDecimal(n);
  }

  /** A written number is read back exactly when it has at most three digits. */
  lemma MarkerTextIsRead(n: int, x: string)
    ensures FindMarkers(MarkerText(n) + x) == (if 0 <= n <= 999 then [n] else []) + FindMarkers(x)
    ensures 0 <= n <= 999 ==> MarkerAt(MarkerText(n) + x) == Some(Hit(n, x))
  {
    if 0 <= n <= 999 {
      WrittenMarker(n);
      MarkerAtComplete(MarkerText(n), n, x);
    } else {
      if n > 999 { ThreeDigits(n); }
      OverlongIsNotRead(n, x);
    }
  }

  /** Splicing only reads over unmapped markers, so it uses up no reference that should remain. */
  lemma {:induction false} SpliceSkipsUnmapped(u: string, mapping: Numbering, k: nat, acc: nat)
    requires Splice(u, mapping, k, acc).Some?
    ensures Renumbered(FindMarkers(u), mapping)
         == Renumbered(FindMarkers(Splice(u, mapping, k, acc).value.rest), mapping)
    ensures TargetsFit(u, mapping) ==> TargetsFit(Splice(u, mapping, k, acc).value.rest, mapping)
    ensures SplicedMarkers(u, mapping) == SplicedMarkers(Splice(u, mapping, k, acc).value.rest, mapping)
    decreases |u|
  {
    match MarkerAt(u)
    case Some(hit) =>
      SpliceSkipsUnmapped(hit.rest, mapping, k, acc);
      assert Renumbered(FindMarkers(u), mapping) == Renumbered(FindMarkers(hit.rest), mapping);
    case None =>
      if u[0] != ']' {
        SpliceSkipsUnmapped(u[1..], mapping, k + 1, 10 * acc + DigitValue(u[0]));
      }
  }

  /** The markers a substitution leaves, from left to right, spliced ones included. */
  function MarkersLeft(t: string, mapping: Numbering): seq<int>
    decreases |t|
  {
    if t == [] then []
    else match MarkerAt(t)
      case Some(hit) =>
        (if hit.number in mapping then [mapping[hit.number]] else []) + MarkersLeft(hit.rest, mapping)
      case None =>
        match SpliceAt(t, mapping)
        case Some(hit) => [hit.number] + MarkersLeft(hit.rest, mapping)
        case None => MarkersLeft(t[1..], mapping)
  }

  lemma {:induction false} SubstituteLeaves(t: string, mapping: Numbering)
    requires TargetsFit(t, mapping)
    ensures FindMarkers(Substitute(t, mapping)) == MarkersLeft(t, mapping)
    decreases |t|
  {
    if t != [] {
      match MarkerAt(t)
      case Some(hit) =>
        assert FindMarkers(t) == [hit.number] + FindMarkers(hit.rest);
        SubstituteLeaves(hit.rest, mapping);
        if hit.number in mapping {
          assert hit.number in FindMarkers(t);
          MarkerTextIsRead(mapping[hit.number], Substitute(hit.rest, mapping));
        } else {
          assert Substitute(t, mapping) == Substitute(hit.rest, mapping);
        }
      case None =>
        assert Substitute(t, mapping)[1..] == Substitute(t[1..], mapping);
        if t[0] == '[' {
          SubstituteBody(t[1..], mapping, 0, 0);
        }
        if SpliceAt(t, mapping).Some? {
          SpliceSkipsUnmapped(t[1..], mapping, 0, 0);
          SubstituteLeaves(SpliceAt(t, mapping).value.rest, mapping);
        } else {
          SubstituteLeaves(t[1..], mapping);
        }
    }
  }

  lemma LeftAfterMarker(t: string, mapping: Numbering)
    requires MarkerAt(t).Some?
    ensures var hit := MarkerAt(t).value;
            var own := if hit.number in mapping then [mapping[hit.number]] else [];
            && MarkersLeft(t, mapping) == own + MarkersLeft(hit.rest, mapping)
            && Renumbered(FindMarkers(t), mapping) == own + Renumbered(FindMarkers(hit.rest), mapping)
            && SplicedMarkers(t, mapping) == SplicedMarkers(hit.rest, mapping)
  {
    var hit := MarkerAt(t).value;
    assert FindMarkers(t) == [hit.number] + FindMarkers(hit.rest);
  }

  lemma LeftAfterSplice(t: string, mapping: Numbering)
    requires MarkerAt(t).None? && SpliceAt(t, mapping).Some?
    ensures var hit := SpliceAt(t, mapping).value;
            && MarkersLeft(t, mapping) == [hit.number] + MarkersLeft(hit.rest, mapping)
            && Renumbered(FindMarkers(t), mapping) == Renumbered(FindMarkers(hit.rest), mapping)
            && SplicedMarkers(t, mapping) == [hit.number] + SplicedMarkers(hit.rest, mapping)
  {
    SpliceSkipsUnmapped(t[1..], mapping, 0, 0);
  }

  /** What is left is the renumbered references and the spliced numbers, and in the order of the
      references when nothing was spliced. */
  ghost predicate Accounted(left: seq<int>, renumbered: seq<int>, spliced: seq<int>) {
    Bag(left) == Bag(renumbered) + Bag(spliced) && (spliced == [] ==> left == renumbered)
  }

  lemma AccountedAppend(own: seq<int>, left: seq<int>, renumbered: seq<int>, spliced: seq<int>)
    requires Accounted(left, renumbered, spliced)
    ensures Accounted(own + left, own + renumbered, spliced)
    ensures own != [] ==> Accounted(own + left, renumbered, own + spliced)
  {
    assert Bag(own + left) == Bag(own) + Bag(left);
  }

  /** Every marker left is either a renumbered reference or a spliced one. */
  lemma {:induction false} LeftAreRenumberedOrSpliced(t: string, mapping: Numbering)
    ensures Accounted(MarkersLeft(t, mapping), Renumbered(FindMarkers(t), mapping), SplicedMarkers(t, mapping))
    decreases |t|
  {
    if MarkerAt(t).Some? {
      var hit := MarkerAt(t).value;
      var own := if hit.number in mapping then [mapping[hit.number]] else [];
      LeftAfterMarker(t, mapping);
      LeftAreRenumberedOrSpliced(hit.rest, mapping);
      AccountedAppend(own, MarkersLeft(hit.rest, mapping), Renumbered(FindMarkers(hit.rest), mapping),
                      SplicedMarkers(hit.rest, mapping));
    } else if SpliceAt(t, mapping).Some? {
      var hit := SpliceAt(t, mapping).value;
      LeftAfterSplice(t, mapping);
      LeftAreRenumberedOrSpliced(hit.rest, mapping);
      AccountedAppend([hit.number], MarkersLeft(hit.rest, mapping), Renumbered(FindMarkers(hit.rest), mapping),
                      SplicedMarkers(hit.rest, mapping));
    } else if t != [] {
      LeftAreRenumberedOrSpliced(t[1..], mapping);
    }
  }

  // ----- renumbering -----

  /** Exactly when a remap keeps every resolvable reference, renumbered and in order, and leaves
      no other: removing markers must splice nothing together, and the new numbers must be
      writable as markers. */
  lemma RemapExact(t: string, mapping: Numbering)
    ensures FindMarkers(RemapMarkers(t, mapping)) == Renumbered(FindMarkers(t), mapping)
       <==> SplicedMarkers(t, mapping) == [] && TargetsFit(t, mapping)
  {
    RepairWhitespaceKeepsMarkers(Substitute(t, mapping));
    if TargetsFit(t, mapping) {
      SubstituteLeaves(t, mapping);
      LeftAreRenumberedOrSpliced(t, mapping);
      assert |Bag(MarkersLeft(t, mapping))| == |MarkersLeft(t, mapping)|;
    } else {
      var n :| n in FindMarkers(t) && n in mapping && !(0 <= mapping[n] <= 999);
      RenumberedContains(FindMarkers(t), mapping, n);
      FoundAtMost999(RemapMarkers(t, mapping));
    }
  }

  lemma {:induction false} RenumberedContains(markers: seq<nat>, mapping: Numbering, n: nat)
    requires n in markers && n in mapping
    ensures mapping[n] in Renumbered(markers, mapping)
  {
    if n != markers[0] { RenumberedContains(markers[1..], mapping, n); }
  }

  lemma {:induction false} BodyAtMost999(u: string, k: nat, acc: nat)
    requires k == 0 ==> acc == 0
    requires k == 1 ==> acc <= 9
    requires k == 2 ==> acc <= 99
    requires k >= 3 ==> acc <= 999
    ensures var hit := Body(u, k, acc); hit.Some? ==> hit.value.number <= 999
  {
    if u != [] && u[0] != ']' && k < 3 && IsDigit(u[0]) {
      BodyAtMost999(u[1..], k + 1, 10 * acc + DigitValue(u[0]));
    }
  }

  lemma {:induction false} FoundAtMost999(t: string)
    ensures forall n | n in FindMarkers(t) :: n <= 999
    decreases |t|
  {
    if t != [] {
      if t[0] == '[' { BodyAtMost999(t[1..], 0, 0); }
      match MarkerAt(t)
      case Some(hit) => FoundAtMost999(hit.rest);
      case None => FoundAtMost999(t[1..]);
    }
  }

  ghost predicate Covers(mapping: Numbering, t: string) {
    forall n | n in FindMarkers(t) :: n in mapping
  }

  lemma {:induction false} CoveredNeverSplices(u: string, mapping: Numbering, k: nat, acc: nat)
    requires Covers(mapping, u)
    ensures Splice(u, mapping, k, acc) == Body(u, k, acc)
    decreases |u|
  {
    if u != [] {
      match MarkerAt(u)
      case Some(hit) => assert hit.number in FindMarkers(u);
      case None =>
        if u[0] != ']' && k < 3 && IsDigit(u[0]) {
          CoveredNeverSplices(u[1..], mapping, k + 1, 10 * acc + DigitValue(u[0]));
        }
    }
  }

  lemma {:induction false} CoveredHasNoSplices(t: string, mapping: Numbering)
    requires Covers(mapping, t)
    ensures SplicedMarkers(t, mapping) == []
    decreases |t|
  {
    if t != [] {
      match MarkerAt(t)
      case Some(hit) =>
        assert FindMarkers(t) == [hit.number] + FindMarkers(hit.rest);
        CoveredHasNoSplices(hit.rest, mapping);
      case None =>
        if t[0] == '[' { CoveredNeverSplices(t[1..], mapping, 0, 0); }
        CoveredHasNoSplices(t[1..], mapping);
    }
  }

  lemma {:induction false} RenumberedPointwise(markers: seq<nat>, mapping: Numbering)
    requires forall n | n in markers :: n in mapping
    ensures |Renumbered(markers, mapping)| == |markers|
    ensures forall i | 0 <= i < |markers| :: Renumbered(markers, mapping)[i] == mapping[markers[i]]
  {
    if markers != [] {
      assert markers[0] in markers;
      RenumberedPointwise(markers[1..], mapping);
    }
  }

  /** Simultaneous renumbering: when every marker has an entry, the markers of the result are
      those of the text mapped one by one, through substitution, both repairs and the strip. */
  lemma SimultaneousRenumbering(t: string, mapping: Numbering)
    requires Covers(mapping, t) && TargetsFit(t, mapping)
    ensures var before, after := FindMarkers(t), FindMarkers(RemapMarkers(t, mapping));
            |after| == |before| && forall i | 0 <= i < |before| :: after[i] == mapping[before[i]]
  {
    CoveredHasNoSplices(t, mapping);
    RenumberedPointwise(FindMarkers(t), mapping);
    RemapExact(t, mapping);
  }

  /** A number cited after a remap is a renumbered one or a spliced one. */
  lemma CitedAfterRemap(t: string, mapping: Numbering, k: nat)
    requires TargetsFit(t, mapping)
    ensures k in FindMarkers(RemapMarkers(t, mapping))
       <==> k in Renumbered(FindMarkers(t), mapping) || k in SplicedMarkers(t, mapping)
  {
    RepairWhitespaceKeepsMarkers(Substitute(t, mapping));
    SubstituteLeaves(t, mapping);
    LeftAreRenumberedOrSpliced(t, mapping);
    var left, kept, spliced := MarkersLeft(t, mapping), Renumbered(FindMarkers(t), mapping), SplicedMarkers(t, mapping);
    assert k in left <==> k in Bag(left);
    assert k in kept || k in spliced <==> k in Bag(kept) + Bag(spliced);
  }

  /** Keeping `1..n` and removing the rest leaves an unresolvable number exactly when splicing
      produces one. */
  lemma NoUnknownMarkersLeft(t: string, n: nat, identity: Numbering)
    requires forall k | k in identity :: identity[k] == k && 1 <= k <= n
    requires forall k | 1 <= k <= n :: k in identity
    ensures UnknownMarkers(RemapMarkers(t, identity), n) == {}
       <==> forall k | k in SplicedMarkers(t, identity) :: 1 <= k <= n
  {
    var out := RemapMarkers(t, identity);
    FoundAtMost999(t);
    IdentityKeepsKeys(FindMarkers(t), identity);
    forall k: nat ensures k in UnknownMarkers(out, n) <==> k in SplicedMarkers(t, identity) && !(1 <= k <= n) {
      CitedAfterRemap(t, identity, k);
    }
    if UnknownMarkers(out, n) != {} {
      var k :| k in UnknownMarkers(out, n);
      assert k in SplicedMarkers(t, identity);
    } else {
      forall k | k in SplicedMarkers(t, identity) ensures 1 <= k <= n {
        assert k !in UnknownMarkers(out, n);
      }
    }
  }

  lemma {:induction false} IdentityKeepsKeys(markers: seq<nat>, identity: Numbering)
    requires forall k | k in identity :: identity[k] == k
    ensures forall k | k in Renumbered(markers, identity) :: k in identity
  {
    if markers != [] { IdentityKeepsKeys(markers[1..], identity); }
  }

  // ----- a condition that can be read off the text -----

  /** Some unmapped marker stands directly behind an opening bracket and nothing but digits. */
  ghost predicate OpenedMarker(t: string, mapping: Numbering) {
    exists i, j :: OpenedMarkerAt(t, mapping, i, j)
  }

  ghost predicate OpenedMarkerAt(t: string, mapping: Numbering, i: int, j: int) {
    && 0 <= i < j <= |t| && t[i] == '[' && AllDigits(t[i + 1..j])
    && MarkerAt(t[j..]).Some? && MarkerAt(t[j..]).value.number !in mapping
  }

  lemma OpenedInSuffix(t: string, k: nat, mapping: Numbering)
    requires k <= |t| && OpenedMarker(t[k..], mapping)
    ensures OpenedMarker(t, mapping)
  {
    var i, j :| OpenedMarkerAt(t[k..], mapping, i, j);
    assert t[k..][i + 1..j] == t[k + i + 1..k + j];
    assert t[k..][j..] == t[k + j..];
    assert OpenedMarkerAt(t, mapping, k + i, k + j);
  }

  lemma OpenedBefore(digits: string, u: string, mapping: Numbering)
    requires AllDigits(digits) && MarkerAt(u).Some? && MarkerAt(u).value.number !in mapping
    ensures OpenedMarker(['['] + digits + u, mapping)
  {
    var t := ['['] + digits + u;
    assert t[1..|digits| + 1] == digits;
    assert t[|digits| + 1..] == u;
    assert OpenedMarkerAt(t, mapping, 0, |digits| + 1);
  }

  lemma {:induction false} SpliceReadsOverOne(digits: string, u: string, mapping: Numbering, k: nat, acc: nat)
    requires AllDigits(digits)
    requires Splice(u, mapping, k, acc).Some? && Body(u, k, acc).None?
    ensures OpenedMarker(['['] + digits + u, mapping)
    decreases |u|
  {
    match MarkerAt(u)
    case Some(hit) =>
      OpenedBefore(digits, u, mapping);
    case None =>
      if u[0] != ']' {
        SpliceReadsOverOne(digits + [u[0]], u[1..], mapping, k + 1, 10 * acc + DigitValue(u[0]));
        assert ['['] + digits + u == ['['] + (digits + [u[0]]) + u[1..];
      }
  }

  /** Without such a marker nothing is spliced, so the remap keeps what it should (`RemapExact`). */
  lemma {:induction false} NoOpenedMarkerNoSplice(t: string, mapping: Numbering)
    requires !OpenedMarker(t, mapping)
    ensures SplicedMarkers(t, mapping) == []
    decreases |t|
  {
    if t != [] {
      match MarkerAt(t)
      case Some(hit) =>
        MarkerAtSound(t);
        var m := |t| - |hit.rest|;
        if OpenedMarker(hit.rest, mapping) { OpenedInSuffix(t, m, mapping); }
        NoOpenedMarkerNoSplice(hit.rest, mapping);
      case None =>
        if OpenedMarker(t[1..], mapping) { OpenedInSuffix(t, 1, mapping); }
        NoOpenedMarkerNoSplice(t[1..], mapping);
        if SpliceAt(t, mapping).Some? {
          assert ['['] + "" + t[1..] == t;
          SpliceReadsOverOne("", t[1..], mapping, 0, 0);
        }
    }
  }

  // ----- what a splice looks like in the text -----

  /** What stands between the brackets of a splice: a digit that stays, or a marker to be removed. */
  datatype Piece = Digit(c: char) | Removed(text: string, number: nat)

  function TextOf(piece: Piece): string {
    match piece case Digit(c) => [c] case Removed(text, _) => text
  }

  function Spelled(pieces: seq<Piece>): string {
    if pieces == [] then [] else TextOf(pieces[0]) + Spelled(pieces[1..])
  }

  function DigitCount(pieces: seq<Piece>): nat {
    if pieces == [] then 0 else DigitCount(pieces[1..]) + if pieces[0].Digit? then 1 else 0
  }

  predicate ValidPiece(piece: Piece, mapping: Numbering) {
    match piece
    case Digit(c) => IsDigit(c)
    case Removed(text, number) => SpellsMarker(text, number) && number !in mapping
  }

  predicate ValidPieces(pieces: seq<Piece>, mapping: Numbering) {
    forall i | 0 <= i < |pieces| :: ValidPiece(pieces[i], mapping)
  }

  predicate AnyRemoved(pieces: seq<Piece>) {
    exists i | 0 <= i < |pieces| :: pieces[i].Removed?
  }

  /** At `i` stand an opening bracket, one to three digits with at least one unmapped marker before,
      between or behind them, and a closing bracket. */
  ghost predicate SpliceStands(t: string, mapping: Numbering, i: int, pieces: seq<Piece>) {
    && 0 <= i < |t| && t[i] == '[' && Spelled(pieces) + [']'] <= t[i + 1..]
    && ValidPieces(pieces, mapping) && 1 <= DigitCount(pieces) <= 3 && AnyRemoved(pieces)
  }

  ghost predicate HoldsSplice(t: string, mapping: Numbering) {
    exists i, pieces :: SpliceStands(t, mapping, i, pieces)
  }

  lemma SpelledCons(pieces: seq<Piece>, rest: string)
    requires pieces != []
    ensures Spelled(pieces) + rest == TextOf(pieces[0]) + (Spelled(pieces[1..]) + rest)
  {
  }

  lemma SpliceReadsDigit(c: char, u: string, mapping: Numbering, k: nat, acc: nat)
    requires IsDigit(c) && k < 3
    ensures Splice([c] + u, mapping, k, acc) == Splice(u, mapping, k + 1, 10 * acc + DigitValue(c))
  {
    assert ([c] + u)[1..] == u;
  }

  lemma {:induction false} PiecesAreRead(pieces: seq<Piece>, rest: string, mapping: Numbering, k: nat, acc: nat)
    requires ValidPieces(pieces, mapping) && 1 <= k + DigitCount(pieces) <= 3
    ensures Splice(Spelled(pieces) + ([']'] + rest), mapping, k, acc).Some?
    decreases |pieces|
  {
    var u := Spelled(pieces) + ([']'] + rest);
    if pieces == [] {
      assert u == [']'] + rest;
    } else {
      var others := Spelled(pieces[1..]) + ([']'] + rest);
      SpelledCons(pieces, [']'] + rest);
      assert ValidPiece(pieces[0], mapping);
      match pieces[0]
      case Digit(c) =>
        SpliceReadsDigit(c, others, mapping, k, acc);
        PiecesAreRead(pieces[1..], rest, mapping, k + 1, 10 * acc + DigitValue(c));
      case Removed(text, number) =>
        MarkerAtComplete(text, number, others);
        PiecesAreRead(pieces[1..], rest, mapping, k, acc);
    }
  }

  /** Before the removal the pattern finds no marker there. */
  lemma {:induction false} NoBodyOverRemoved(pieces: seq<Piece>, rest: string, mapping: Numbering, k: nat, acc: nat)
    requires ValidPieces(pieces, mapping) && AnyRemoved(pieces)
    ensures Body(Spelled(pieces) + rest, k, acc).None?
    decreases |pieces|
  {
    SpelledCons(pieces, rest);
    assert ValidPiece(pieces[0], mapping);
    var u := Spelled(pieces) + rest;
    match pieces[0]
    case Digit(c) =>
      assert u[1..] == Spelled(pieces[1..]) + rest;
      if k < 3 { NoBodyOverRemoved(pieces[1..], rest, mapping, k + 1, 10 * acc + DigitValue(c)); }
    case Removed(text, number) =>
      assert u[0] == text[0] == '[';
  }

  lemma PiecesCons(piece: Piece, others: seq<Piece>, mapping: Numbering, rest: string)
    requires ValidPiece(piece, mapping) && ValidPieces(others, mapping) && Spelled(others) + [']'] <= rest
    ensures var pieces := [piece] + others;
            && ValidPieces(pieces, mapping) && Spelled(pieces) + [']'] <= TextOf(piece) + rest
            && DigitCount(pieces) == DigitCount(others) + (if piece.Digit? then 1 else 0)
            && (AnyRemoved(pieces) <==> piece.Removed? || AnyRemoved(others))
  {
    var pieces := [piece] + others;
    assert pieces[1..] == others;
    assert Spelled(pieces) + [']'] == TextOf(piece) + (Spelled(others) + [']']);
    if piece.Removed? { assert pieces[0].Removed?; }
    if i :| 0 <= i < |others| && others[i].Removed? { assert pieces[i + 1].Removed?; }
  }

  lemma {:induction false} SpliceHasPieces(u: string, mapping: Numbering, k: nat, acc: nat) returns (pieces: seq<Piece>)
    requires Splice(u, mapping, k, acc).Some? && k <= 3
    ensures ValidPieces(pieces, mapping) && 1 <= k + DigitCount(pieces) <= 3
    ensures Spelled(pieces) + [']'] <= u
    ensures !AnyRemoved(pieces) ==> Body(u, k, acc).Some?
    decreases |u|
  {
    match MarkerAt(u)
    case Some(hit) =>
      MarkerAtSound(u);
      var text := u[..|u| - |hit.rest|];
      assert u == text + hit.rest;
      var others := SpliceHasPieces(hit.rest, mapping, k, acc);
      PiecesCons(Removed(text, hit.number), others, mapping, hit.rest);
      pieces := [Removed(text, hit.number)] + others;
    case None =>
      if u[0] == ']' {
        pieces := [];
      } else {
        assert u == [u[0]] + u[1..];
        var others := SpliceHasPieces(u[1..], mapping, k + 1, 10 * acc + DigitValue(u[0]));
        PiecesCons(Digit(u[0]), others, mapping, u[1..]);
        pieces := [Digit(u[0])] + others;
      }
  }

  lemma SpliceStandsBefore(t: string, m: nat, mapping: Numbering)
    requires m <= |t| && HoldsSplice(t[m..], mapping)
    ensures HoldsSplice(t, mapping)
  {
    var i, pieces :| SpliceStands(t[m..], mapping, i, pieces);
    assert t[m..][i + 1..] == t[m + i + 1..];
    assert SpliceStands(t, mapping, m + i, pieces);
  }

  lemma {:induction false} SplicedStands(t: string, mapping: Numbering)
    requires SplicedMarkers(t, mapping) != []
    ensures HoldsSplice(t, mapping)
    decreases |t|
  {
    if MarkerAt(t).Some? {
      var rest := MarkerAt(t).value.rest;
      MarkerAtSound(t);
      SplicedStands(rest, mapping);
      SpliceStandsBefore(t, |t| - |rest|, mapping);
    } else if SpliceAt(t, mapping).Some? {
      var pieces := SpliceHasPieces(t[1..], mapping, 0, 0);
      assert SpliceStands(t, mapping, 0, pieces);
    } else {
      SplicedStands(t[1..], mapping);
      SpliceStandsBefore(t, 1, mapping);
    }
  }

  lemma SpliceReadHere(t: string, mapping: Numbering, pieces: seq<Piece>)
    requires SpliceStands(t, mapping, 0, pieces)
    ensures MarkerAt(t).None? && SpliceAt(t, mapping).Some?
  {
    var rest := t[1..][|Spelled(pieces)| + 1..];
    assert t[1..] == Spelled(pieces) + ([']'] + rest);
    NoBodyOverRemoved(pieces, [']'] + rest, mapping, 0, 0);
    PiecesAreRead(pieces, rest, mapping, 0, 0);
  }

  lemma {:induction false} StandingIsSpliced(t: string, mapping: Numbering, i: nat, pieces: seq<Piece>)
    requires SpliceStands(t, mapping, i, pieces)
    ensures SplicedMarkers(t, mapping) != []
    decreases |t|
  {
    if i == 0 {
      SpliceReadHere(t, mapping, pieces);
    } else if MarkerAt(t).Some? {
      var rest := MarkerAt(t).value.rest;
      MarkerAtSound(t);
      var m := |t| - |rest|;
      if i < m { OneOpeningBracket(t[..m], MarkerAt(t).value.number, i); }
      assert t[m..][i - m + 1..] == t[i + 1..];
      StandingIsSpliced(rest, mapping, i - m, pieces);
    } else if SpliceAt(t, mapping).None? {
      assert t[1..][i - 1 + 1..] == t[i + 1..];
      StandingIsSpliced(t[1..], mapping, i - 1, pieces);
    }
  }

  /** Removing the unmapped markers splices something together exactly if the text holds an opening
      bracket, one to three digits interleaved with unmapped markers, and a closing bracket. */
  lemma SplicesExactly(t: string, mapping: Numbering)
    ensures SplicedMarkers(t, mapping) == [] <==> !HoldsSplice(t, mapping)
  {
    if SplicedMarkers(t, mapping) != [] { SplicedStands(t, mapping); }
    if HoldsSplice(t, mapping) {
      var i, pieces :| SpliceStands(t, mapping, i, pieces);
      StandingIsSpliced(t, mapping, i, pieces);
    }
  }

  /** The documented promise that a removed reference leaves no invented one behind can fail:
      removing `[5]` from `[[5]1]` leaves a marker the text never had. */
  lemma RemovalCanInventAMarker()
    ensures FindMarkers("[[5]1]") == [5]
    ensures FindMarkers(RemapMarkers("[[5]1]", map[])) == [1]
  {
    var t, empty: Numbering := "[[5]1]", map[];
    assert t[1..] == "[5]1]" && t[1..][1..] == "5]1]" && t[1..][1..][1..] == "]1]" && t[1..][1..][1..][1..] == "1]";
    assert "1]"[1..] == "]" && "]"[1..] == "";
    assert Body("]1]", 1, 5) == Some(Hit(5, "1]"));
    assert Body("5]1]", 0, 0) == Body("]1]", 1, 5);
    assert MarkerAt("[5]1]") == Some(Hit(5, "1]"));
    assert MarkerAt(t) == None;
    assert FindMarkers("1]") == FindMarkers("]") == FindMarkers("") == [];
    assert FindMarkers(t) == FindMarkers("[5]1]") == [5];
    assert Splice("]", empty, 1, 1) == Some(Hit(1, ""));
    assert Splice("1]", empty, 0, 0) == Splice("]", empty, 1, 1);
    assert Splice("[5]1]", empty, 0, 0) == Splice("1]", empty, 0, 0);
    assert MarkersLeft("", empty) == [];
    assert MarkersLeft(t, empty) == [1];
    SubstituteLeaves(t, empty);
    RepairWhitespaceKeepsMarkers(Substitute(t, empty));
  }
}
