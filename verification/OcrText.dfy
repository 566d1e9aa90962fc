/** Extracted page text (apps/api/core/ocr.py): the normal form every page is stored in, and the
    rendering of a run's pages as one string. Unicode NFC is taken as the identity. */
module OcrText {
  import opened Text
  import opened Layouts

  const MAX_PAGE_TEXT_CHARS: nat := 200_000
  const PAGE_SEPARATOR: char := '\U{000C}'

  // ----- the passes -----

  /** `text.replace("\r\n", "\n")`. */
  function ReplaceCrLf(s: string): (r: string)
    ensures |r| <= |s|
    decreases |s|
  {
    if s == [] then []
    else if |s| > 1 && s[0] == '\r' && s[1] == '\n' then ['\n'] + ReplaceCrLf(s[2..])
    else [s[0]] + ReplaceCrLf(s[1..])
  }

  /** `text.replace(old, "\n")` for a single character. */
  function ReplaceWithNewline(from: char, s: string): (r: string)
    ensures |r| <= |s|
  {
    if s == [] then []
    else [if s[0] == from then '\n' else s[0]] + ReplaceWithNewline(from, s[1..])
  }

  /** `_CONTROL_CHARS`: C0 controls other than tab, newline, form feed and carriage return, and DEL. */
  predicate IsControl(c: char) {
    var n := c as int;
    n <= 8 || n == 0x0B || 0x0E <= n <= 0x1F || n == 0x7F
  }

  function DropControls(s: string): (r: string)
    ensures |r| <= |s|
  {
    if s == [] then []
    else if IsControl(s[0]) then DropControls(s[1..])
    else [s[0]] + DropControls(s[1..])
  }

  predicate IsNewline(c: char) { c == '\n' }

  /** `_TRAILING_SPACE.sub("", text)`: blanks up to the end of a line. */
  function TrimLineEnds(s: string): (r: string)
    ensures |r| <= |s|
    decreases |s|
  {
    if s == [] then []
    else if IsBlank(s[0]) && (LStripIf(IsBlank, s) == [] || LStripIf(IsBlank, s)[0] == '\n') then
      LStripIfShortens(IsBlank, s);
      TrimLineEnds(LStripIf(IsBlank, s))
    else [s[0]] + TrimLineEnds(s[1..])
  }

  /** `_EXCESS_BLANK_LINES.sub("\n\n", text)`. */
  function LimitNewlines(s: string): string
    decreases |s|
  {
    if s == [] then []
    else if |s| > 2 && s[0] == s[1] == s[2] == '\n' then
      LStripIfShortens(IsNewline, s);
      ['\n', '\n'] + LimitNewlines(LStripIf(IsNewline, s))
    else [s[0]] + LimitNewlines(s[1..])
  }

  function UnifyLineEndings(s: string): string {
    ReplaceWithNewline(PAGE_SEPARATOR, ReplaceWithNewline('\r', ReplaceCrLf(s)))
  }

  /** The normal form before the length limit. */
  function Clean(s: string): string {
    Strip(LimitNewlines(TrimLineEnds(DropControls(UnifyLineEndings(s)))))
  }

  function Truncate(s: string): string {
    if |s| <= MAX_PAGE_TEXT_CHARS then s else s[..MAX_PAGE_TEXT_CHARS]
  }

  function NormalizeExtractedText(value: string): string {
    if value == [] then [] else Truncate(Clean(value))
  }

  // ----- the regex passes one character at a time -----

  function TrimStep(c: char, done: string): string {
    if IsBlank(c) && (done == [] || done[0] == '\n') then done else [c] + done
  }

  lemma {:induction false} TrimLineEndsStep(s: string)
    requires s != []
    ensures TrimLineEnds(s) == TrimStep(s[0], TrimLineEnds(s[1..]))
    decreases |s|
  {
    if IsBlank(s[0]) {
      assert LStripIf(IsBlank, s) == LStripIf(IsBlank, s[1..]);
      if s[1..] != [] && IsBlank(s[1]) {
        TrimLineEndsStep(s[1..]);
      }
    }
  }

  predicate EmptyLine(s: string) { |s| > 1 && s[0] == s[1] == '\n' }

  function LimitStep(c: char, done: string): string {
    if c == '\n' && EmptyLine(done) then done else [c] + done
  }

  lemma LimitNewlinesStep(s: string)
    requires s != []
    ensures LimitNewlines(s) == LimitStep(s[0], LimitNewlines(s[1..]))
  {
    var rest := s[1..];
    if |s| > 2 && s[0] == s[1] == s[2] == '\n' {
      assert LStripIf(IsNewline, s) == LStripIf(IsNewline, rest);
      if |s| > 3 && s[3] == '\n' {
        assert rest[2] == '\n';
      } else {
        LimitPair(rest);
        assert LStripIf(IsNewline, rest) == LStripIf(IsNewline, rest[1..]) == LStripIf(IsNewline, rest[1..][1..]);
      }
    } else if s[0] == '\n' && rest != [] && rest[0] == '\n' {
      LimitHead(rest[1..]);
    }
  }

  lemma LimitPair(s: string)
    requires |s| > 1 && s[0] == s[1] == '\n' && (|s| > 2 ==> s[2] != '\n')
    ensures LimitNewlines(s) == ['\n', '\n'] + LimitNewlines(s[1..][1..])
  {
    assert LimitNewlines(s) == ['\n'] + LimitNewlines(s[1..]);
    assert LimitNewlines(s[1..]) == ['\n'] + LimitNewlines(s[1..][1..]);
  }

  lemma LimitHead(s: string)
    ensures s == [] <==> LimitNewlines(s) == []
    ensures s != [] ==> LimitNewlines(s)[0] == s[0]
  {
  }

  // ----- the normal form -----

  /** No carriage return, no page separator and none of the stripped control characters. */
  predicate Printable(s: string) {
    forall i | 0 <= i < |s| :: !IsControl(s[i]) && s[i] != '\r' && s[i] != PAGE_SEPARATOR
  }

  predicate LineGoesOn(s: string, i: nat)
    requires i < |s|
  {
    IsBlank(s[i]) ==> i + 1 < |s| && s[i + 1] != '\n'
  }

  /** No blank stands at the end of a line. */
  predicate LinesTrimmed(s: string) {
    forall i | 0 <= i < |s| :: LineGoesOn(s, i)
  }

  predicate TwoEmptyLinesAt(s: string, i: nat) {
    i + 2 < |s| && s[i] == s[i + 1] == s[i + 2] == '\n'
  }

  /** At most one empty line in a row. */
  predicate ParagraphsApart(s: string) {
    forall i | 0 <= i < |s| :: !TwoEmptyLinesAt(s, i)
  }

  lemma {:induction false} ReplacedIsGone(from: char, s: string)
    requires from != '\n'
    ensures from !in ReplaceWithNewline(from, s)
    ensures forall c | c != '\n' && c !in s :: c !in ReplaceWithNewline(from, s)
  {
    if s != [] { ReplacedIsGone(from, s[1..]); }
  }

  lemma {:induction false} DropControlsPrintable(s: string)
    requires '\r' !in s && PAGE_SEPARATOR !in s
    ensures Printable(DropControls(s))
  {
    if s != [] {
      DropControlsPrintable(s[1..]);
    }
  }

  lemma {:induction false} TrimmedLines(s: string)
    ensures LinesTrimmed(TrimLineEnds(s))
    ensures Printable(s) ==> Printable(TrimLineEnds(s))
  {
    if s != [] {
      TrimLineEndsStep(s);
      TrimmedLines(s[1..]);
      assert Printable(s) ==> Printable(s[1..]);
      var done := TrimLineEnds(s[1..]);
      if TrimLineEnds(s) == [s[0]] + done { LinesTrimmedCons(s[0], done); }
    }
  }

  lemma LinesTrimmedCons(c: char, done: string)
    requires LinesTrimmed(done) && !(IsBlank(c) && (done == [] || done[0] == '\n'))
    ensures LinesTrimmed([c] + done)
  {
    var t := [c] + done;
    forall i | 0 <= i < |t| ensures LineGoesOn(t, i) {
      if i > 0 { assert LineGoesOn(done, i - 1); }
    }
  }

  lemma {:induction false} LimitedNewlines(s: string)
    requires LinesTrimmed(s) && Printable(s)
    ensures LinesTrimmed(LimitNewlines(s)) && Printable(LimitNewlines(s))
    ensures ParagraphsApart(LimitNewlines(s))
  {
    if s != [] {
      LimitNewlinesStep(s);
      SuffixKeepsForm(s, 1);
      LimitedNewlines(s[1..]);
      var done := LimitNewlines(s[1..]);
      LimitHead(s[1..]);
      assert LineGoesOn(s, 0);
      if LimitNewlines(s) == [s[0]] + done {
        LinesTrimmedCons(s[0], done);
        ParagraphsApartCons(s[0], done);
      }
    }
  }

  lemma ParagraphsApartCons(c: char, done: string)
    requires ParagraphsApart(done) && !(c == '\n' && EmptyLine(done))
    ensures ParagraphsApart([c] + done)
  {
    var t := [c] + done;
    forall i | 0 <= i < |t| ensures !TwoEmptyLinesAt(t, i) {
      if i > 0 { assert !TwoEmptyLinesAt(done, i - 1); }
    }
  }

  lemma SuffixKeepsForm(s: string, k: nat)
    requires k <= |s|
    ensures LinesTrimmed(s) ==> LinesTrimmed(s[k..])
    ensures Printable(s) ==> Printable(s[k..])
  {
    if LinesTrimmed(s) {
      forall i | 0 <= i < |s[k..]| ensures LineGoesOn(s[k..], i) { assert LineGoesOn(s, k + i); }
    }
  }

  lemma SliceKeepsForm(s: string, i: nat, j: nat)
    requires i <= j <= |s| && Printable(s) && ParagraphsApart(s)
    ensures Printable(s[i..j]) && ParagraphsApart(s[i..j])
  {
    var t := s[i..j];
    forall k | 0 <= k < |t| ensures !TwoEmptyLinesAt(t, k) {
      assert !TwoEmptyLinesAt(s, i + k);
    }
  }

  lemma CleanForm(s: string)
    ensures var t := Clean(s);
            Printable(t) && LinesTrimmed(t) && ParagraphsApart(t) && Strip(t) == t
  {
    var a := ReplaceCrLf(s);
    var b := ReplaceWithNewline('\r', a);
    ReplacedIsGone('\r', a);
    ReplacedIsGone(PAGE_SEPARATOR, b);
    var c := DropControls(UnifyLineEndings(s));
    DropControlsPrintable(UnifyLineEndings(s));
    TrimmedLines(c);
    var d := LimitNewlines(TrimLineEnds(c));
    LimitedNewlines(TrimLineEnds(c));
    StripIfIdempotent(IsSpace, d);
    var i, j := StripIfIsSlice(IsSpace, d);
    SliceKeepsForm(d, i, j);
    LinesTrimmedSlice(d, i, j);
  }

  lemma LinesTrimmedSlice(s: string, i: nat, j: nat)
    requires i <= j <= |s| && LinesTrimmed(s) && (i < j ==> !IsSpace(s[j - 1]))
    ensures LinesTrimmed(s[i..j])
  {
    var t := s[i..j];
    forall k | 0 <= k < |t| ensures LineGoesOn(t, k) {
      assert LineGoesOn(s, i + k);
    }
  }

  /** Text that already has the normal form passes through unchanged. */
  lemma CleanFixed(t: string)
    requires Printable(t) && LinesTrimmed(t) && ParagraphsApart(t) && Strip(t) == t
    ensures Clean(t) == t
  {
    UnifyFixed(t);
    DropControlsFixed(t);
    TrimFixed(t);
    LimitFixed(t);
  }

  lemma {:induction false} UnifyFixed(t: string)
    requires Printable(t)
    ensures ReplaceCrLf(t) == t
    ensures ReplaceWithNewline('\r', t) == t && ReplaceWithNewline(PAGE_SEPARATOR, t) == t
  {
    if t != [] {
      SuffixKeepsForm(t, 1);
      UnifyFixed(t[1..]);
      assert [t[0]] + t[1..] == t;
    }
  }

  lemma {:induction false} DropControlsFixed(t: string)
    requires Printable(t)
    ensures DropControls(t) == t
  {
    if t != [] {
      SuffixKeepsForm(t, 1);
      DropControlsFixed(t[1..]);
    }
  }

  lemma {:induction false} TrimFixed(t: string)
    requires LinesTrimmed(t)
    ensures TrimLineEnds(t) == t
  {
    if t != [] {
      SuffixKeepsForm(t, 1);
      TrimFixed(t[1..]);
      TrimLineEndsStep(t);
      assert LineGoesOn(t, 0);
    }
  }

  lemma {:induction false} LimitFixed(t: string)
    requires ParagraphsApart(t)
    ensures LimitNewlines(t) == t
  {
    if t != [] {
      forall i | 0 <= i < |t[1..]| ensures !TwoEmptyLinesAt(t[1..], i) {
        assert !TwoEmptyLinesAt(t, i + 1);
      }
      LimitFixed(t[1..]);
      LimitNewlinesStep(t);
      assert !TwoEmptyLinesAt(t, 0);
    }
  }

  /** What is stored for a page, whatever the engine produced. */
  lemma StoredForm(value: string)
    ensures var t := NormalizeExtractedText(value);
            && |t| <= MAX_PAGE_TEXT_CHARS && Printable(t) && ParagraphsApart(t)
            && (t == [] || !IsSpace(t[0]))
  {
    CleanForm(value);
    var t := Clean(value);
    var i, j := StripIfIsSlice(IsSpace, t);
    SliceKeepsForm(t, 0, if |t| <= MAX_PAGE_TEXT_CHARS then |t| else MAX_PAGE_TEXT_CHARS);
    assert t[0..|t|] == t;
  }

  /** The length limit left no blank at the end. */
  predicate CutCleanly(value: string, bad: char -> bool) {
    |Clean(value)| <= MAX_PAGE_TEXT_CHARS || !bad(Clean(value)[MAX_PAGE_TEXT_CHARS - 1])
  }

  /** Lines end without blanks exactly unless the limit cuts right behind one. */
  lemma LinesTrimmedExactly(value: string)
    ensures LinesTrimmed(NormalizeExtractedText(value)) <==> CutCleanly(value, IsBlank)
  {
    CleanForm(value);
    var t, cut := Clean(value), Truncate(Clean(value));
    if |t| > MAX_PAGE_TEXT_CHARS {
      forall i | 0 <= i < |cut| ensures LineGoesOn(cut, i) <==> i < |cut| - 1 || !IsBlank(t[i]) {
        assert LineGoesOn(t, i);
      }
      assert !CutCleanly(value, IsBlank) ==> !LineGoesOn(cut, |cut| - 1);
    }
  }

  /** Normalising twice is normalising once, exactly unless the limit cuts right behind whitespace:
      then the second pass strips what the first one left. */
  lemma IdempotentExactly(value: string)
    ensures NormalizeExtractedText(NormalizeExtractedText(value)) == NormalizeExtractedText(value)
       <==> CutCleanly(value, IsSpace)
  {
    CleanForm(value);
    StoredForm(value);
    var t, cut := Clean(value), NormalizeExtractedText(value);
    if CutCleanly(value, IsSpace) {
      LinesTrimmedExactly(value);
      if |t| > MAX_PAGE_TEXT_CHARS {
        assert cut[|cut| - 1] == t[MAX_PAGE_TEXT_CHARS - 1];
        StripIfFixed(IsSpace, cut);
      }
      CleanFixed(cut);
    } else {
      assert cut[|cut| - 1] == t[MAX_PAGE_TEXT_CHARS - 1];
      CleanForm(cut);
      var again := NormalizeExtractedText(cut);
      CleanShortens(cut);
      var i, j := StripIfIsSlice(IsSpace, Clean(cut));
    }
  }

  /** A page cut behind a space keeps it, and loses it in a second pass. */
  lemma CutBehindSpaceExample()
    ensures var page := Repeat('x', MAX_PAGE_TEXT_CHARS - 1) + " y";
            && NormalizeExtractedText(page) == Repeat('x', MAX_PAGE_TEXT_CHARS - 1) + " "
            && !LinesTrimmed(NormalizeExtractedText(page))
            && NormalizeExtractedText(NormalizeExtractedText(page)) != NormalizeExtractedText(page)
  {
    var page := Repeat('x', MAX_PAGE_TEXT_CHARS - 1) + " y";
    forall i | 0 <= i < |page| ensures LineGoesOn(page, i) && !TwoEmptyLinesAt(page, i) { }
    StripIfFixed(IsSpace, page);
    CleanFixed(page);
    assert Clean(page)[MAX_PAGE_TEXT_CHARS - 1] == ' ';
    LinesTrimmedExactly(page);
    IdempotentExactly(page);
    assert page[..MAX_PAGE_TEXT_CHARS] == Repeat('x', MAX_PAGE_TEXT_CHARS - 1) + " ";
  }

  lemma {:induction false} LimitShortens(s: string)
    ensures |LimitNewlines(s)| <= |s|
  {
    if s != [] {
      LimitNewlinesStep(s);
      LimitShortens(s[1..]);
    }
  }

  lemma CleanShortens(s: string)
    ensures |Clean(s)| <= |s|
  {
    var t := TrimLineEnds(DropControls(UnifyLineEndings(s)));
    LimitShortens(t);
    var i, j := StripIfIsSlice(IsSpace, LimitNewlines(t));
  }

  // ----- what each pass changes -----

  lemma {:induction false} ReplaceCrLfAround(a: string, b: string)
    ensures ReplaceCrLf(a + "\r\n" + b) == ReplaceCrLf(a) + "\n" + ReplaceCrLf(b)
    decreases |a|
  {
    var s := a + "\r\n" + b;
    if a == [] {
      assert s[0] == '\r' && s[1] == '\n' && s[2..] == b;
    } else if |a| > 1 && a[0] == '\r' && a[1] == '\n' {
      assert s[2..] == a[2..] + "\r\n" + b;
      ReplaceCrLfAround(a[2..], b);
    } else {
      assert s[1..] == a[1..] + "\r\n" + b;
      ReplaceCrLfAround(a[1..], b);
      assert |s| > 1 && s[1] == if |a| > 1 then a[1] else '\r';
    }
  }

  lemma {:induction false} ReplaceConcat(from: char, a: string, b: string)
    ensures ReplaceWithNewline(from, a + b) == ReplaceWithNewline(from, a) + ReplaceWithNewline(from, b)
  {
    if a == [] {
      assert a + b == b;
    } else {
      assert (a + b)[1..] == a[1..] + b;
      ReplaceConcat(from, a[1..], b);
    }
  }

  /** A carriage return with a newline behind it becomes one newline. */
  lemma CrLfIsOneNewline(a: string, b: string)
    ensures UnifyLineEndings(a + "\r\n" + b) == UnifyLineEndings(a) + "\n" + UnifyLineEndings(b)
  {
    ReplaceCrLfAround(a, b);
    var x, y := ReplaceCrLf(a), ReplaceCrLf(b);
    ReplaceConcat('\r', x + "\n", y); ReplaceConcat('\r', x, "\n");
    var u, v := ReplaceWithNewline('\r', x), ReplaceWithNewline('\r', y);
    assert ReplaceWithNewline('\r', "\n") == "\n";
    ReplaceConcat(PAGE_SEPARATOR, u + "\n", v); ReplaceConcat(PAGE_SEPARATOR, u, "\n");
    assert ReplaceWithNewline(PAGE_SEPARATOR, "\n") == "\n";
  }

  predicate CrLfAt(s: string, i: nat) { i + 1 < |s| && s[i] == '\r' && s[i + 1] == '\n' }

  lemma {:induction false} NoCrLfKept(s: string)
    requires forall i | 0 <= i < |s| :: !CrLfAt(s, i)
    ensures ReplaceCrLf(s) == s
  {
    if s != [] {
      forall i | 0 <= i < |s[1..]| ensures !CrLfAt(s[1..], i) { assert !CrLfAt(s, i + 1); }
      NoCrLfKept(s[1..]);
      assert !CrLfAt(s, 0);
    }
  }

  lemma {:induction false} ReplacedAt(from: char, s: string)
    ensures |ReplaceWithNewline(from, s)| == |s|
    ensures forall i | 0 <= i < |s| :: ReplaceWithNewline(from, s)[i] == if s[i] == from then '\n' else s[i]
  {
    if s != [] { ReplacedAt(from, s[1..]); }
  }

  /** Otherwise every carriage return and every form feed becomes a newline, and nothing else changes. */
  lemma UnifyExactly(s: string)
    requires forall i | 0 <= i < |s| :: !CrLfAt(s, i)
    ensures |UnifyLineEndings(s)| == |s|
    ensures forall i | 0 <= i < |s| ::
              UnifyLineEndings(s)[i] == if s[i] == '\r' || (s[i] as int) == 12 then '\n' else s[i]
  {
    NoCrLfKept(s);
    ReplacedAt('\r', s);
    ReplacedAt(PAGE_SEPARATOR, ReplaceWithNewline('\r', s));
  }

  lemma {:induction false} DropControlsConcat(a: string, b: string)
    ensures DropControls(a + b) == DropControls(a) + DropControls(b)
  {
    if a == [] {
      assert a + b == b;
    } else {
      assert (a + b)[1..] == a[1..] + b;
      DropControlsConcat(a[1..], b);
    }
  }

  /** Controls other than tab, newline, form feed and carriage return are left out, and nothing else. */
  lemma DropControlsExactly(a: string, c: char, b: string)
    ensures var n := c as int;
            DropControls(a + [c] + b)
            == DropControls(a)
               + (if (n < 0x20 && n != 9 && n != 10 && n != 12 && n != 13) || n == 0x7F then [] else [c])
               + DropControls(b)
    ensures DropControls([]) == []
  {
    DropControlsConcat(a + [c], b);
    DropControlsConcat(a, [c]);
    assert [c][1..] == [];
  }

  ghost predicate EndsTrimmed(l: Layout, r: Layout) {
    && |r.spots| == |l.spots| && r.tail == []
    && forall k | 0 <= k < |l.spots| ::
         r.spots[k] == Spot(if l.spots[k].ch == '\n' then "" else l.spots[k].gap, l.spots[k].ch)
  }

  lemma TrimmedChar(c: char, l: Layout, r: Layout)
    requires EndsTrimmed(l, r)
    ensures EndsTrimmed(Layout([Spot([], c)] + l.spots, l.tail), Layout([Spot([], c)] + r.spots, r.tail))
  {
  }

  lemma TrimmedGap(c: char, l: Layout, r: Layout)
    requires EndsTrimmed(l, r)
    ensures EndsTrimmed(Prepend(c, l), if l.spots == [] || l.spots[0].ch == '\n' then r else Prepend(c, r))
  {
  }

  /** Blanks at the ends of lines go, and no others. */
  lemma {:induction false} TrimExactly(s: string)
    ensures EndsTrimmed(Lay(IsBlank, s), Lay(IsBlank, TrimLineEnds(s)))
  {
    if s != [] {
      var rest, l := TrimLineEnds(s[1..]), Lay(IsBlank, s[1..]);
      TrimExactly(s[1..]);
      TrimLineEndsStep(s);
      HeadOfLayout(IsBlank, rest);
      assert ([s[0]] + rest)[1..] == rest;
      if IsBlank(s[0]) {
        TrimmedGap(s[0], l, Lay(IsBlank, rest));
      } else {
        TrimmedChar(s[0], l, Lay(IsBlank, rest));
      }
    }
  }

  function TwoAtMost(newlines: string): string { if |newlines| >= 3 then "\n\n" else newlines }

  ghost predicate NewlinesLimited(l: Layout, r: Layout) {
    && r.tail == TwoAtMost(l.tail) && |r.spots| == |l.spots|
    && forall k | 0 <= k < |l.spots| :: r.spots[k] == Spot(TwoAtMost(l.spots[k].gap), l.spots[k].ch)
  }

  lemma LimitedChar(c: char, l: Layout, r: Layout)
    requires NewlinesLimited(l, r)
    ensures NewlinesLimited(Layout([Spot([], c)] + l.spots, l.tail), Layout([Spot([], c)] + r.spots, r.tail))
  {
  }

  lemma LimitedGap(l: Layout, r: Layout)
    requires NewlinesLimited(l, r) && AllGap(IsNewline, FirstGap(l))
    ensures FirstGap(r) == TwoAtMost(FirstGap(l))
    ensures NewlinesLimited(
              WithFirstGap(l, ['\n'] + FirstGap(l)),
              if |FirstGap(r)| >= 2 then r else WithFirstGap(r, ['\n'] + FirstGap(r)))
  {
    var gap := FirstGap(l);
    if |gap| == 2 {
      assert gap == "\n\n" by { assert IsNewline(gap[0]) && IsNewline(gap[1]); }
    }
  }

  /** Three or more newlines in a row become two, and nothing else changes. */
  lemma {:induction false} LimitExactly(s: string)
    ensures NewlinesLimited(Lay(IsNewline, s), Lay(IsNewline, LimitNewlines(s)))
  {
    if s != [] {
      var rest, l := LimitNewlines(s[1..]), Lay(IsNewline, s[1..]);
      LimitExactly(s[1..]);
      LimitNewlinesStep(s);
      NewlineBefore(s[0], rest);
      if s[0] == '\n' {
        LayIsText(IsNewline, s[1..]);
        LimitedGap(l, Lay(IsNewline, rest));
        PrependToGap(s[0], l);
      } else {
        LimitedChar(s[0], l, Lay(IsNewline, rest));
      }
    }
  }

  lemma NewlineBefore(c: char, rest: string)
    ensures var laid := Lay(IsNewline, rest);
            && (c != '\n' ==> Lay(IsNewline, [c] + rest) == Layout([Spot([], c)] + laid.spots, laid.tail))
            && (c == '\n' ==> Lay(IsNewline, [c] + rest) == WithFirstGap(laid, [c] + FirstGap(laid)))
            && (EmptyLine(rest) <==> |FirstGap(laid)| >= 2)
  {
    var laid := Lay(IsNewline, rest);
    assert ([c] + rest)[1..] == rest;
    PrependToGap(c, laid);
    HeadOfLayout(IsNewline, rest);
    if rest != [] && rest[0] == '\n' {
      HeadOfLayout(IsNewline, rest[1..]);
      PrependToGap(rest[0], Lay(IsNewline, rest[1..]));
    }
  }

  /** What is stored is the beginning of the clean text, all of it if it fits. */
  lemma StoredPrefix(value: string)
    ensures NormalizeExtractedText(value)
         == if |Clean(value)| <= 200_000 then Clean(value) else Clean(value)[..200_000]
  {
  }

  // ----- nothing readable is lost -----

  predicate IsInk(c: char) { !IsSpace(c) && !IsControl(c) }

  /** The characters a reader sees. */
  function Ink(s: string): string {
    if s == [] then [] else (if IsInk(s[0]) then [s[0]] else []) + Ink(s[1..])
  }

  predicate IsUnseen(c: char) { IsSpace(c) || IsControl(c) }

  /** They are what stands between the gaps of whitespace and controls. */
  lemma {:induction false} InkExactly(s: string)
    ensures var l := Lay(IsUnseen, s);
            |Ink(s)| == |l.spots| && forall k | 0 <= k < |l.spots| :: Ink(s)[k] == l.spots[k].ch
  {
    if s != [] { InkExactly(s[1..]); }
  }

  lemma {:induction false} UnifyKeepsInk(s: string)
    ensures Ink(ReplaceCrLf(s)) == Ink(s)
    decreases |s|
  {
    if s != [] {
      if |s| > 1 && s[0] == '\r' && s[1] == '\n' {
        UnifyKeepsInk(s[2..]);
        assert s[1..][1..] == s[2..];
        assert Ink(s) == Ink(s[1..]) == Ink(s[2..]);
      } else {
        UnifyKeepsInk(s[1..]);
      }
    }
  }

  lemma {:induction false} ReplaceKeepsInk(from: char, s: string)
    requires IsSpace(from)
    ensures Ink(ReplaceWithNewline(from, s)) == Ink(s)
  {
    if s != [] { ReplaceKeepsInk(from, s[1..]); }
  }

  lemma {:induction false} DropKeepsInk(s: string)
    ensures Ink(DropControls(s)) == Ink(s)
  {
    if s != [] { DropKeepsInk(s[1..]); }
  }

  lemma {:induction false} LayoutKeepsInk(s: string)
    ensures Ink(TrimLineEnds(s)) == Ink(s)
    ensures Ink(LimitNewlines(s)) == Ink(s)
  {
    if s != [] {
      LayoutKeepsInk(s[1..]);
      TrimLineEndsStep(s);
      LimitNewlinesStep(s);
    }
  }

  lemma {:induction false} StripKeepsInk(s: string)
    ensures Ink(LStrip(s)) == Ink(s)
    ensures Ink(RStrip(s)) == Ink(s)
  {
    if s != [] { StripKeepsInk(s[1..]); }
  }

  /** The normal form has exactly the visible characters of the engine's output, in order; only the
      length limit can cost any. */
  lemma CleanKeepsInk(value: string)
    ensures Ink(Clean(value)) == Ink(value)
    ensures |Clean(value)| <= MAX_PAGE_TEXT_CHARS ==> Ink(NormalizeExtractedText(value)) == Ink(value)
  {
    var a := ReplaceCrLf(value);
    var b := ReplaceWithNewline('\r', a);
    UnifyKeepsInk(value);
    ReplaceKeepsInk('\r', a);
    ReplaceKeepsInk(PAGE_SEPARATOR, b);
    DropKeepsInk(UnifyLineEndings(value));
    var c := DropControls(UnifyLineEndings(value));
    LayoutKeepsInk(c);
    LayoutKeepsInk(TrimLineEnds(c));
    var d := LimitNewlines(TrimLineEnds(c));
    StripKeepsInk(d);
    StripKeepsInk(LStrip(d));
  }

  // ----- pages -----

  function JoinPages(texts: seq<string>): string { Join(PAGE_SEPARATOR, texts) }

  function SplitPages(text: string): seq<string> {
    if text == [] then [] else SplitOn(PAGE_SEPARATOR, text)
  }

  lemma JoinAfterSplit(text: string)
    ensures JoinPages(SplitPages(text)) == text
  {
    JoinSplit(PAGE_SEPARATOR, text);
  }

  /** Splitting undoes joining exactly for pages without a page break, other than the single
      blank page, which renders like no pages at all. */
  lemma SplitAfterJoinExactly(pages: seq<string>)
    ensures SplitPages(JoinPages(pages)) == pages
       <==> pages != [""] && forall p | p in pages :: PAGE_SEPARATOR !in p
  {
    SplitPieces(PAGE_SEPARATOR, JoinPages(pages));
    if pages != [] && forall p | p in pages :: PAGE_SEPARATOR !in p {
      SplitJoin(PAGE_SEPARATOR, pages);
    }
  }

  lemma BlankPageRendersLikeNone()
    ensures JoinPages([""]) == JoinPages([]) && SplitPages(JoinPages([""])) != [""]
  {
  }

  function NormalizeAll(raw: seq<string>): (pages: seq<string>)
    ensures |pages| == |raw| && forall i | 0 <= i < |raw| :: pages[i] == NormalizeExtractedText(raw[i])
  {
    seq(|raw|, i requires 0 <= i < |raw| => NormalizeExtractedText(raw[i]))
  }

  /** The rendered text of any run of stored pages splits back into exactly those pages, unless the
      run is one blank page. */
  lemma StoredPagesRoundTrip(raw: seq<string>)
    ensures SplitPages(JoinPages(NormalizeAll(raw))) == NormalizeAll(raw)
       <==> !(|raw| == 1 && NormalizeExtractedText(raw[0]) == [])
  {
    var pages := NormalizeAll(raw);
    forall p | p in pages ensures PAGE_SEPARATOR !in p {
      var i :| 0 <= i < |pages| && pages[i] == p;
      StoredForm(raw[i]);
    }
    SplitAfterJoinExactly(pages);
  }
}
