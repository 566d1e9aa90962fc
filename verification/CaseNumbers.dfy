/** Generated case numbers: formatting and parsing (apps/api/core/cases.py), and the series they
    form (apps/api/repositories/case.py, apps/api/services/case.py). */
module CaseNumbers {
  import opened Text

  const CASE_NUMBER_SEQUENCE_DIGITS: nat := 4

  function Zeros(n: int): (s: string)
    ensures |s| == if n <= 0 then 0 else n
    ensures forall c | c in s :: c == '0'
  {
    if n <= 0 then [] else ['0'] + Zeros(n - 1)
  }

  /** `f"{n:0{width}d}"`: a minimum width, padded with zeros behind the sign. */
  function Padded(n: int, width: nat): string {
    if n >= 0 then Zeros(width - |Decimal(n)|) + Decimal(n)
    else ['-'] + Zeros(width - 1 - |Decimal(-n)|) + Decimal(-n)
  }

  function SeriesPrefix(year: int): string { "CASE-" + Padded(year, 4) + ['-'] }

  function BuildCaseNumber(year: int, sequence: int): string {
    SeriesPrefix(year) + Padded(sequence, CASE_NUMBER_SEQUENCE_DIGITS)
  }

  /** What `$` allows: one newline at the very end is not part of the number. */
  function WithoutFinalNewline(s: string): string {
    if s != [] && s[|s| - 1] == '\n' then s[..|s| - 1] else s
  }

  predicate IsGenerated(body: string) {
    && |body| >= 11 && body[..5] == "CASE-" && AllDigits(body[5..9]) && body[9] == '-' && AllDigits(body[10..])
  }

  function CaseNumberSequence(caseNumber: string, year: int): Option<nat> {
    var body := WithoutFinalNewline(caseNumber);
    if !IsGenerated(body) || NatOf(body[5..9]) != year then None
    else Some(NatOf(body[10..]))
  }

  predicate AsciiDigits(s: string) { forall c | c in s :: '0' <= c <= '9' }

  // ----- what is printed and what is read -----

  /** A minus sign counts towards the width and stays in front of the zeros. */
  lemma NegativePadded(n: int, width: nat)
    requires n < 0
    ensures var text, digits := Padded(n, width), Decimal(-n);
            && |text| == (if |digits| + 1 < width then width else |digits| + 1)
            && text[0] == '-' && text[|text| - |digits|..] == digits
            && forall k | 1 <= k < |text| - |digits| :: text[k] == '0'
  {
    var digits := Decimal(-n);
    var zeros := Zeros(width - 1 - |digits|);
    assert Padded(n, width) == ['-'] + (zeros + digits);
    forall k | 0 <= k < |zeros| ensures zeros[k] == '0' { assert zeros[k] in zeros; }
  }

  /** The prefix, four digits for the year, digits for the sequence, and at most one newline. */
  predicate Spells(text: string, year: string, digits: string, end: string) {
    && |year| == 4 && digits != [] && AllDigits(year) && AllDigits(digits) && (end == "" || end == "\n")
    && text == "CASE-" + year + "-" + digits + end
  }

  lemma SpelledIsRead(text: string, year: string, digits: string, end: string)
    requires Spells(text, year, digits, end)
    ensures CaseNumberSequence(text, NatOf(year)) == Some(NatOf(digits))
    ensures forall other | other != NatOf(year) :: CaseNumberSequence(text, other) == None
  {
    var number := "CASE-" + year + "-" + digits;
    assert text == number + end;
    assert IsDigit(digits[|digits| - 1]) by { assert digits[|digits| - 1] in digits; }
    assert number[|number| - 1] == digits[|digits| - 1];
    assert WithoutFinalNewline(text) == number;
    assert number[..5] == "CASE-" && number[5..9] == year && number[10..] == digits;
  }

  lemma ReadIsSpelled(text: string, year: int) returns (y: string, digits: string, end: string)
    requires CaseNumberSequence(text, year).Some?
    ensures Spells(text, y, digits, end) && NatOf(y) == year
    ensures CaseNumberSequence(text, year) == Some(NatOf(digits))
  {
    var body := WithoutFinalNewline(text);
    y, digits, end := body[5..9], body[10..], text[|body|..];
    assert body == body[..5] + body[5..9] + body[9..10] + body[10..];
    assert text == body + end;
  }

  /** A text is read if and only if it is spelled like that for the year asked for. */
  lemma ReadExactly(text: string, year: int, sequence: nat)
    ensures CaseNumberSequence(text, year) == Some(sequence)
       <==> exists y, d, end :: Spells(text, y, d, end) && NatOf(y) == year && NatOf(d) == sequence
  {
    if CaseNumberSequence(text, year) == Some(sequence) {
      var y, d, end := ReadIsSpelled(text, year);
    }
    forall y, d, end | Spells(text, y, d, end) && NatOf(y) == year && NatOf(d) == sequence
      ensures CaseNumberSequence(text, year) == Some(sequence)
    {
      SpelledIsRead(text, y, d, end);
    }
  }

  // ----- round trip -----

  lemma {:induction false} LeadingZeros(zeros: string, digits: string)
    requires (forall c | c in zeros :: c == '0') && AllDigits(digits)
    ensures AllDigits(zeros + digits) && NatOf(zeros + digits) == NatOf(digits)
    decreases |zeros| + |digits|
  {
    var s := zeros + digits;
    if digits != [] {
      var n := |digits| - 1;
      assert s[..|s| - 1] == zeros + digits[..n];
      forall c | c in digits[..n] ensures IsDigit(c) { assert c in digits; }
      LeadingZeros(zeros, digits[..n]);
    } else if zeros != [] {
      assert s == zeros && digits == [];
      var n := |zeros| - 1;
      assert s[..|s| - 1] == zeros[..n] + [];
      assert zeros[n] in zeros;
      forall c | c in zeros[..n] ensures c == '0' { assert c in zeros; }
      LeadingZeros(zeros[..n], []);
    }
  }

  lemma PaddedIsNumeral(n: nat, width: nat)
    ensures AllDigits(Padded(n, width)) && NatOf(Padded(n, width)) == n
  {
    NatOfDecimal(n);
    LeadingZeros(Zeros(width - |Decimal(n)|), Decimal(n));
  }

  lemma PaddedShape(n: nat, width: nat)
    requires width >= 1
    ensures |Padded(n, width)| >= width && |Padded(n, width)| >= |Decimal(n)|
    ensures |Padded(n, width)| == width <==> n < Pow10(width)
    ensures AsciiDigits(Padded(n, width))
  {
    DecimalWidth(n, width);
  }

  lemma NoNewlineAtEnd(year: int, sequence: int)
    ensures WithoutFinalNewline(BuildCaseNumber(year, sequence)) == BuildCaseNumber(year, sequence)
  {
    var s := BuildCaseNumber(year, sequence);
    var d := if sequence >= 0 then Decimal(sequence) else Decimal(-sequence);
    assert s[|s| - 1] == d[|d| - 1];
    assert d[|d| - 1] in d;
  }

  lemma Pow10Of4()
    ensures Pow10(4) == 10_000
  {
    assert Pow10(4) == 10 * Pow10(3) == 100 * Pow10(2) == 1000 * Pow10(1) == 10_000 * Pow10(0);
  }

  /** Reading a generated number back gives the sequence it was built from, for its own year and no
      other; years that do not print as four digits and negative sequences give nothing. */
  lemma RoundTrip(year: int, sequence: int, asked: int)
    ensures CaseNumberSequence(BuildCaseNumber(year, sequence), asked)
         == if 0 <= year <= 9999 && sequence >= 0 && asked == year then Some(sequence as nat) else None
  {
    NoNewlineAtEnd(year, sequence);
    if 0 <= year <= 9999 {
      FourDigitYear(year, sequence);
      if sequence < 0 {
        assert Padded(sequence, 4)[0] == '-';
        assert '-' in Padded(sequence, 4);
      } else {
        PaddedIsNumeral(sequence, 4); PaddedShape(sequence, 4);
      }
    } else {
      OtherYear(year, sequence);
    }
  }

  lemma FourDigitYear(year: nat, sequence: int)
    requires year <= 9999
    ensures var s := BuildCaseNumber(year, sequence);
            && |s| == 10 + |Padded(sequence, 4)|
            && s[..5] == "CASE-" && s[5..9] == Padded(year, 4) && s[9] == '-' && s[10..] == Padded(sequence, 4)
    ensures AllDigits(Padded(year, 4)) && NatOf(Padded(year, 4)) == year
  {
    Pow10Of4();
    PaddedIsNumeral(year, 4); PaddedShape(year, 4);
    NumberSlices("CASE-", Padded(year, 4), "-", Padded(sequence, 4));
  }

  lemma NumberSlices(p: string, year: string, dash: string, sequence: string)
    requires |p| == 5 && |year| == 4 && |dash| == 1
    ensures var s := p + year + dash + sequence;
            |s| == 10 + |sequence| && s[..5] == p && s[5..9] == year && s[9] == dash[0] && s[10..] == sequence
  {
  }

  lemma OtherYear(year: int, sequence: int)
    requires !(0 <= year <= 9999)
    ensures !IsGenerated(BuildCaseNumber(year, sequence))
  {
    var s, y := BuildCaseNumber(year, sequence), Padded(year, 4);
    assert s[5..5 + |y|] == y;
    if year < 0 {
      assert s[5] == y[0] == '-';
      if |s| >= 11 { assert s[5..9][0] == '-'; assert '-' in s[5..9]; }
    } else {
      Pow10Of4();
      PaddedShape(year, 4);
      assert s[9] == y[4];
      assert y[4] in y;
    }
  }

  // ----- order -----

  lemma {:induction false} LexPrefix(p: string, a: string, b: string)
    ensures LexLess(p + a, p + b) <==> LexLess(a, b)
  {
    if p == [] {
      assert p + a == a && p + b == b;
    } else {
      assert (p + a)[1..] == p[1..] + a && (p + b)[1..] == p[1..] + b;
      LexPrefix(p[1..], a, b);
    }
  }

  /** The first difference decides; behind it anything may follow. */
  lemma {:induction false} LexExtend(a: string, x: string, b: string, y: string)
    requires |a| == |b|
    ensures LexLess(a + x, b + y) <==> LexLess(a, b) || (a == b && LexLess(x, y))
  {
    if a == [] {
      assert a + x == x && b + y == y;
    } else {
      assert (a + x)[1..] == a[1..] + x && (b + y)[1..] == b[1..] + y;
      LexExtend(a[1..], x, b[1..], y);
      assert a == [a[0]] + a[1..] && b == [b[0]] + b[1..];
    }
  }

  /** Numerals of the same width compare as the numbers they spell. */
  lemma {:induction false} LexIsNumeric(a: string, b: string)
    requires |a| == |b| && AsciiDigits(a) && AsciiDigits(b)
    ensures AllDigits(a) && AllDigits(b)
    ensures LexLess(a, b) <==> NatOf(a) < NatOf(b)
    ensures a == b <==> NatOf(a) == NatOf(b)
  {
    if a != [] {
      var n := |a| - 1;
      assert a == a[..n] + [a[n]] && b == b[..n] + [b[n]];
      assert a[n] in a && b[n] in b;
      AsciiPrefix(a, n); AsciiPrefix(b, n);
      LexIsNumeric(a[..n], b[..n]);
      LexExtend(a[..n], [a[n]], b[..n], [b[n]]);
    }
  }

  lemma AsciiPrefix(s: string, k: nat)
    requires AsciiDigits(s) && k <= |s|
    ensures AsciiDigits(s[..k])
  {
    forall c | c in s[..k] ensures '0' <= c <= '9' { assert c in s; }
  }

  /** A number without its last `k` digits. */
  function WithoutLast(n: nat, k: nat): nat {
    if k == 0 then n else WithoutLast(n / 10, k - 1)
  }

  lemma WithoutLastDigit(s: string)
    requires AllDigits(s) && s != []
    ensures AllDigits(s[..|s| - 1]) && NatOf(s) / 10 == NatOf(s[..|s| - 1])
  {
    forall c | c in s[..|s| - 1] ensures IsDigit(c) { assert c in s; }
    assert s[|s| - 1] in s;
  }

  lemma {:induction false} NatOfPrefix(s: string, k: nat)
    requires AllDigits(s) && k <= |s|
    ensures AllDigits(s[..k]) && NatOf(s[..k]) == WithoutLast(NatOf(s), |s| - k)
    decreases |s|
  {
    if k == |s| {
      assert s[..k] == s;
    } else {
      var n := |s| - 1;
      WithoutLastDigit(s);
      NatOfPrefix(s[..n], k);
      assert s[..n][..k] == s[..k];
    }
  }

  function Width(sequence: nat): nat { |Padded(sequence, 4)| }

  /** Numbers issued in one year sort as text in the order they were issued exactly while the later
      one, cut to the width of the earlier, has not fallen below it. */
  lemma IssueOrderExactly(year: int, earlier: nat, later: nat)
    requires earlier < later
    ensures Width(earlier) <= Width(later)
    ensures LexLess(BuildCaseNumber(year, earlier), BuildCaseNumber(year, later))
       <==> earlier <= WithoutLast(later, Width(later) - Width(earlier))
  {
    SameYearOrder(year, earlier, later);
    PaddedOrder(earlier, later);
  }

  predicate IsNumeral(s: string, n: nat) { AsciiDigits(s) && AllDigits(s) && NatOf(s) == n }

  lemma PaddedDigits(n: nat)
    ensures IsNumeral(Padded(n, 4), n)
  {
    PaddedIsNumeral(n, 4);
    PaddedShape(n, 4);
  }

  lemma PaddedOrder(earlier: nat, later: nat)
    requires earlier < later
    ensures Width(earlier) <= Width(later)
    ensures LexLess(Padded(earlier, 4), Padded(later, 4))
       <==> earlier <= WithoutLast(later, Width(later) - Width(earlier))
  {
    WidthMonotone(earlier, later);
    PaddedDigits(earlier);
    PaddedDigits(later);
    NumeralOrder(Padded(earlier, 4), earlier, Padded(later, 4), later);
  }

  lemma SameYearOrder(year: int, s1: int, s2: int)
    ensures LexLess(BuildCaseNumber(year, s1), BuildCaseNumber(year, s2)) <==> LexLess(Padded(s1, 4), Padded(s2, 4))
  {
    LexPrefix(SeriesPrefix(year), Padded(s1, 4), Padded(s2, 4));
  }

  /** A numeral against one at least as wide: what counts is the beginning of the same width. */
  lemma NumeralOrder(a: string, m: nat, b: string, n: nat)
    requires |a| <= |b| && IsNumeral(a, m) && IsNumeral(b, n) && m < n
    ensures LexLess(a, b) <==> m <= WithoutLast(n, |b| - |a|)
  {
    var cut, rest := b[..|a|], b[|a|..];
    assert b == cut + rest && a == a + [];
    LexExtend(a, [], cut, rest);
    AsciiPrefix(b, |a|);
    LexIsNumeric(a, cut);
    NatOfPrefix(b, |a|);
  }

  lemma WidthMonotone(a: nat, b: nat)
    requires a <= b
    ensures Width(a) <= Width(b)
  {
    var w := Width(b);
    PaddedShape(a, 4); PaddedShape(b, 4);
    if |Decimal(b)| >= 4 {
      DecimalWidth(b, w);
      DecimalWidth(a, w);
    } else {
      DecimalWidth(b, 4);
      DecimalWidth(a, 4);
    }
  }

  /** In particular the padding keeps the first 9999 numbers of a year in order. */
  lemma FirstNumbersInOrder(year: int, earlier: nat, later: nat)
    requires earlier < later <= 9999
    ensures LexLess(BuildCaseNumber(year, earlier), BuildCaseNumber(year, later))
  {
    Pow10Of4();
    PaddedIsNumeral(earlier, 4); PaddedShape(earlier, 4);
    PaddedIsNumeral(later, 4); PaddedShape(later, 4);
    IssueOrderExactly(year, earlier, later);
  }

  /** The documented order ends there: the number after 9999 sorts before it. */
  lemma OrderBreaksAtTenThousand(year: int)
    ensures !LexLess(BuildCaseNumber(year, 9999), BuildCaseNumber(year, 10_000))
  {
    Pow10Of4();
    PaddedIsNumeral(9999, 4); PaddedShape(9999, 4);
    PaddedIsNumeral(10_000, 4); PaddedShape(10_000, 4);
    IssueOrderExactly(year, 9999, 10_000);
    assert Pow10(5) == 10 * Pow10(4);
    DecimalWidth(10_000, 5);
    assert WithoutLast(10_000, 1) == 1_000;
  }

  lemma PaddedYearsInOrder(y1: int, y2: int)
    requires 0 <= y1 < y2 <= 9999
    ensures |Padded(y1, 4)| == |Padded(y2, 4)| && LexLess(Padded(y1, 4), Padded(y2, 4))
  {
    Pow10Of4();
    PaddedIsNumeral(y1, 4); PaddedShape(y1, 4);
    PaddedIsNumeral(y2, 4); PaddedShape(y2, 4);
    LexIsNumeric(Padded(y1, 4), Padded(y2, 4));
  }

  /** All numbers of a year sort before those of a later one. */
  lemma YearsInOrder(y1: int, s1: int, y2: int, s2: int)
    requires 0 <= y1 < y2 <= 9999
    ensures LexLess(BuildCaseNumber(y1, s1), BuildCaseNumber(y2, s2))
  {
    PaddedYearsInOrder(y1, y2);
    var x, y := ['-'] + Padded(s1, 4), ['-'] + Padded(s2, 4);
    LexExtend(Padded(y1, 4), x, Padded(y2, 4), y);
    LexPrefix("CASE-", Padded(y1, 4) + x, Padded(y2, 4) + y);
    assert BuildCaseNumber(y1, s1) == "CASE-" + (Padded(y1, 4) + x);
    assert BuildCaseNumber(y2, s2) == "CASE-" + (Padded(y2, 4) + y);
  }

  // ----- the series -----

  /** `highest_generated_sequence` over the numbers on file. */
  function HighestSequence(numbers: seq<string>, year: int): nat {
    if numbers == [] then 0
    else
      var rest := HighestSequence(numbers[1..], year);
      if SeriesPrefix(year) <= numbers[0] then
        match CaseNumberSequence(numbers[0], year)
        case Some(s) => if s > rest then s else rest
        case None => rest
      else rest
  }

  /** The number the next generated case is given. */
  function NextCaseNumber(numbers: seq<string>, year: int): string {
    BuildCaseNumber(year, HighestSequence(numbers, year) + 1)
  }

  lemma {:induction false} HighestIsUpperBound(numbers: seq<string>, year: int, sequence: nat)
    requires 0 <= year <= 9999 && BuildCaseNumber(year, sequence) in numbers
    ensures sequence <= HighestSequence(numbers, year)
  {
    if numbers[0] == BuildCaseNumber(year, sequence) {
      RoundTrip(year, sequence, year);
    } else {
      HighestIsUpperBound(numbers[1..], year, sequence);
    }
  }

  /** A number on file attains it, unless it is zero. */
  lemma {:induction false} HighestIsOnFile(numbers: seq<string>, year: int)
    requires HighestSequence(numbers, year) > 0
    ensures exists k | 0 <= k < |numbers| ::
              CaseNumberSequence(numbers[k], year) == Some(HighestSequence(numbers, year))
  {
    if CaseNumberSequence(numbers[0], year) != Some(HighestSequence(numbers, year)) {
      HighestIsOnFile(numbers[1..], year);
      var k :| 0 <= k < |numbers[1..]|
        && CaseNumberSequence(numbers[1..][k], year) == Some(HighestSequence(numbers[1..], year));
      assert numbers[k + 1] == numbers[1..][k];
    }
  }

  /** The next number is new whatever is on file, exactly for years that print as four digits. */
  lemma NextIsFreshExactly(year: int)
    ensures (forall numbers: seq<string> :: NextCaseNumber(numbers, year) !in numbers) <==> 0 <= year <= 9999
  {
    if 0 <= year <= 9999 {
      forall numbers: seq<string> ensures NextCaseNumber(numbers, year) !in numbers {
        if NextCaseNumber(numbers, year) in numbers {
          HighestIsUpperBound(numbers, year, HighestSequence(numbers, year) + 1);
        }
      }
    } else {
      var numbers := [BuildCaseNumber(year, 1)];
      RoundTrip(year, 1, year);
      assert HighestSequence(numbers, year) == 0;
      assert NextCaseNumber(numbers, year) in numbers;
    }
  }
}
