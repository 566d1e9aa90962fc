/** The pieces of Python's string library the modelled code relies on: whitespace,
    stripping, splitting, joining and decimal notation.

    Whitespace is the set that `str.strip`, `str.split` and the `\s` of a `str` pattern
    share. `\d` accepts the decimal digits of the three scripts the platform's documents
    are written with (ASCII, Arabic-Indic and Extended Arabic-Indic). */
module Text {

  datatype Option<+T> = None | Some(value: T)

  // ----- characters -----

  predicate IsSpace(c: char) {
    var n := c as int;
    || 9 <= n <= 13 || 28 <= n <= 32 || n == 0x85 || n == 0xA0 || n == 0x1680
    || 0x2000 <= n <= 0x200A || n == 0x2028 || n == 0x2029 || n == 0x202F || n == 0x205F || n == 0x3000
  }

  /** The twenty-nine characters of it. */
  lemma SpacesExactly(c: char)
    ensures IsSpace(c)
       <==> || c in "\t\n\U{0B}\U{0C}\r\U{1C}\U{1D}\U{1E}\U{1F} \U{85}\U{A0}\U{1680}"
            || c in "\U{2000}\U{2001}\U{2002}\U{2003}\U{2004}\U{2005}\U{2006}\U{2007}\U{2008}\U{2009}\U{200A}"
            || c in "\U{2028}\U{2029}\U{202F}\U{205F}\U{3000}"
  {
  }

  /** What `[ \t]` matches. */
  predicate IsBlank(c: char) { c == ' ' || c == '\t' }

  predicate IsDigit(c: char) {
    var n := c as int;
    48 <= n <= 57 || 0x660 <= n <= 0x669 || 0x6F0 <= n <= 0x6F9
  }

  /** European, Arabic-Indic and Extended Arabic-Indic digits. */
  lemma DigitsExactly(c: char)
    ensures IsDigit(c) <==> c in "0123456789" || c in "٠١٢٣٤٥٦٧٨٩" || c in "۰۱۲۳۴۵۶۷۸۹"
    ensures forall d | 0 <= d < 10 ::
              c == "0123456789"[d] || c == "٠١٢٣٤٥٦٧٨٩"[d] || c == "۰۱۲۳۴۵۶۷۸۹"[d] ==> IsDigit(c) && DigitValue(c) == d
  {
    assert |"0123456789"| == |"٠١٢٣٤٥٦٧٨٩"| == |"۰۱۲۳۴۵۶۷۸۹"| == 10;
  }

  function DigitValue(c: char): (d: nat)
    requires IsDigit(c)
    ensures d < 10
  {
    var n := c as int;
    if n <= 57 then n - 48 else if n <= 0x669 then n - 0x660 else n - 0x6F0
  }

  function Repeat(c: char, n: nat): (s: string)
    ensures |s| == n && forall i | 0 <= i < n :: s[i] == c
  {
    seq(n, _ => c)
  }

  // ----- stripping -----

  function LStripIf(drop: char -> bool, s: string): string {
    if s != [] && drop(s[0]) then LStripIf(drop, s[1..]) else s
  }

  function RStripIf(drop: char -> bool, s: string): string {
    if s == [] then []
    else
      var rest := RStripIf(drop, s[1..]);
      if rest == [] && drop(s[0]) then [] else [s[0]] + rest
  }

  function StripIf(drop: char -> bool, s: string): string {
    RStripIf(drop, LStripIf(drop, s))
  }

  function LStrip(s: string): string { LStripIf(IsSpace, s) }
  function RStrip(s: string): string { RStripIf(IsSpace, s) }
  function Strip(s: string): string { StripIf(IsSpace, s) }

  /** Stripping keeps one contiguous piece and drops only characters it was told to. */
  lemma {:induction false} LStripIfIsSuffix(drop: char -> bool, s: string) returns (i: nat)
    ensures i <= |s| && LStripIf(drop, s) == s[i..]
    ensures forall k | 0 <= k < i :: drop(s[k])
    ensures i < |s| ==> !drop(s[i])
  {
    if s != [] && drop(s[0]) {
      var j := LStripIfIsSuffix(drop, s[1..]);
      i := j + 1;
      assert s[1..][j..] == s[i..];
      forall k | 0 <= k < i ensures drop(s[k]) {
        if k > 0 { assert s[k] == s[1..][k - 1]; }
      }
    } else {
      i := 0;
    }
  }

  lemma LStripIfShortens(drop: char -> bool, s: string)
    requires s != [] && drop(s[0])
    ensures |LStripIf(drop, s)| < |s|
  {
    var i := LStripIfIsSuffix(drop, s);
  }

  lemma {:induction false} RStripIfIsPrefix(drop: char -> bool, s: string) returns (j: nat)
    ensures j <= |s| && RStripIf(drop, s) == s[..j]
    ensures forall k | j <= k < |s| :: drop(s[k])
    ensures j > 0 ==> !drop(s[j - 1])
  {
    if s == [] {
      j := 0;
    } else {
      var i := RStripIfIsPrefix(drop, s[1..]);
      assert forall k | 1 <= k < |s| :: s[k] == s[1..][k - 1];
      if i == 0 && drop(s[0]) {
        j := 0;
      } else {
        j := i + 1;
        assert [s[0]] + s[1..][..i] == s[..j];
      }
    }
  }

  lemma StripIfIsSlice(drop: char -> bool, s: string) returns (i: nat, j: nat)
    ensures i <= j <= |s| && StripIf(drop, s) == s[i..j]
    ensures forall k | 0 <= k < i || j <= k < |s| :: drop(s[k])
    ensures i < j ==> !drop(s[i]) && !drop(s[j - 1])
  {
    i := LStripIfIsSuffix(drop, s);
    var n := RStripIfIsPrefix(drop, s[i..]);
    j := i + n;
    assert s[i..][..n] == s[i..j];
    forall k | j <= k < |s| ensures drop(s[k]) {
      assert s[k] == s[i..][k - i];
    }
  }

  /** A string that neither starts nor ends with a dropped character is left alone. */
  lemma {:induction false} StripIfFixed(drop: char -> bool, s: string)
    requires s == [] || (!drop(s[0]) && !drop(s[|s| - 1]))
    ensures StripIf(drop, s) == s
  {
    var j := RStripIfIsPrefix(drop, s);
    assert s[..|s|] == s;
  }

  lemma StripIfIdempotent(drop: char -> bool, s: string)
    ensures StripIf(drop, StripIf(drop, s)) == StripIf(drop, s)
  {
    var i, j := StripIfIsSlice(drop, s);
    StripIfFixed(drop, s[i..j]);
  }

  // ----- splitting and joining -----

  /** `s.split(sep)` for a one-character separator. */
  function SplitOn(sep: char, s: string): (parts: seq<string>)
    ensures |parts| >= 1
  {
    if s == [] then [[]]
    else
      var rest := SplitOn(sep, s[1..]);
      if s[0] == sep then [[]] + rest else [[s[0]] + rest[0]] + rest[1..]
  }

  /** `sep.join(parts)` for a one-character separator. */
  function Join(sep: char, parts: seq<string>): string {
    if parts == [] then []
    else if |parts| == 1 then parts[0]
    else parts[0] + [sep] + Join(sep, parts[1..])
  }

  lemma {:induction false} JoinSplit(sep: char, s: string)
    ensures Join(sep, SplitOn(sep, s)) == s
  {
    if s != [] {
      var rest := SplitOn(sep, s[1..]);
      JoinSplit(sep, s[1..]);
      if s[0] == sep {
        assert ([[]] + rest)[1..] == rest;
      } else {
        var head := [s[0]] + rest[0];
        assert ([head] + rest[1..])[1..] == rest[1..];
        if |rest| > 1 {
          assert head + [sep] + Join(sep, rest[1..]) == [s[0]] + (rest[0] + [sep] + Join(sep, rest[1..]));
        }
      }
      assert [s[0]] + s[1..] == s;
    }
  }

  /** Splitting cuts at the first separator and goes on behind it. */
  lemma {:induction false} SplitHead(sep: char, head: string, tail: string)
    requires sep !in head
    ensures SplitOn(sep, head + [sep] + tail) == [head] + SplitOn(sep, tail)
  {
    var s := head + [sep] + tail;
    if head == [] {
      assert s[1..] == tail;
    } else {
      assert s[1..] == head[1..] + [sep] + tail;
      SplitHead(sep, head[1..], tail);
      assert [head[0]] + head[1..] == head;
      assert ([head[1..]] + SplitOn(sep, tail))[1..] == SplitOn(sep, tail);
    }
  }

  lemma {:induction false} SplitUnsplit(sep: char, s: string)
    requires sep !in s
    ensures SplitOn(sep, s) == [s]
  {
    if s != [] {
      SplitUnsplit(sep, s[1..]);
      assert [s[0]] + s[1..] == s;
    }
  }

  lemma {:induction false} SplitJoin(sep: char, parts: seq<string>)
    requires parts != []
    requires forall p | p in parts :: sep !in p
    ensures SplitOn(sep, Join(sep, parts)) == parts
  {
    if |parts| == 1 {
      SplitUnsplit(sep, parts[0]);
    } else {
      SplitJoin(sep, parts[1..]);
      SplitHead(sep, parts[0], Join(sep, parts[1..]));
      assert [parts[0]] + parts[1..] == parts;
    }
  }

  lemma {:induction false} SplitPieces(sep: char, s: string)
    ensures forall p | p in SplitOn(sep, s) :: sep !in p
  {
    if s != [] {
      SplitPieces(sep, s[1..]);
      var rest := SplitOn(sep, s[1..]);
      forall p | p in SplitOn(sep, s) ensures sep !in p {
        assert rest[0] in rest;
        if p !in rest {
          assert p == [] || p == [s[0]] + rest[0];
        }
      }
    }
  }

  // ----- order -----

  /** Order of strings by code point. */
  predicate LexLess(a: string, b: string) {
    b != [] && (a == [] || a[0] < b[0] || (a[0] == b[0] && LexLess(a[1..], b[1..])))
  }

  lemma {:induction false} LexTotal(a: string, b: string)
    ensures a == b || LexLess(a, b) || LexLess(b, a)
  {
    if a != [] && b != [] && a[0] == b[0] {
      LexTotal(a[1..], b[1..]);
      assert a == [a[0]] + a[1..] && b == [b[0]] + b[1..];
    }
  }

  lemma {:induction false} LexTransitive(a: string, b: string, c: string)
    requires LexLess(a, b) && LexLess(b, c)
    ensures LexLess(a, c)
  {
    if a != [] && a[0] == b[0] == c[0] {
      LexTransitive(a[1..], b[1..], c[1..]);
    }
  }

  // ----- searching and mapping -----

  predicate ContainsAt(s: string, part: string, i: nat) {
    i + |part| <= |s| && s[i..i + |part|] == part
  }

  /** `part in s`. */
  predicate Contains(s: string, part: string) {
    exists i | 0 <= i <= |s| :: ContainsAt(s, part, i)
  }

  /** A case mapping: every character on its own becomes a text. */
  type CaseMapping = char -> string

  function MapCase(mapping: CaseMapping, s: string): string {
    if s == [] then [] else mapping(s[0]) + MapCase(mapping, s[1..])
  }

  /** Every character is mapped on its own, in order. */
  lemma MapCaseExactly(mapping: CaseMapping, a: string, c: char, b: string)
    ensures MapCase(mapping, a + [c] + b) == MapCase(mapping, a) + mapping(c) + MapCase(mapping, b)
    ensures MapCase(mapping, []) == []
  {
    MapCaseConcat(mapping, a + [c], b);
    MapCaseConcat(mapping, a, [c]);
    assert MapCase(mapping, [c]) == mapping(c) + MapCase(mapping, []) == mapping(c);
  }

  /** No character is mapped to nothing, as in `str.lower`. */
  ghost predicate NeverDeletes(mapping: CaseMapping) {
    forall c :: mapping(c) != []
  }

  lemma {:induction false} MapCaseKeepsLength(mapping: CaseMapping, s: string)
    requires NeverDeletes(mapping)
    ensures |MapCase(mapping, s)| >= |s|
  {
    if s != [] { MapCaseKeepsLength(mapping, s[1..]); }
  }

  const IDENTITY: CaseMapping := c => [c]

  lemma {:induction false} MapCaseIdentity(s: string)
    ensures MapCase(IDENTITY, s) == s
  {
    if s != [] { MapCaseIdentity(s[1..]); }
  }

  lemma {:induction false} MapCaseConcat(mapping: CaseMapping, a: string, b: string)
    ensures MapCase(mapping, a + b) == MapCase(mapping, a) + MapCase(mapping, b)
  {
    if a == [] {
      assert a + b == b;
    } else {
      assert (a + b)[1..] == a[1..] + b;
      MapCaseConcat(mapping, a[1..], b);
      assert mapping(a[0]) + (MapCase(mapping, a[1..]) + MapCase(mapping, b))
          == MapCase(mapping, a) + MapCase(mapping, b);
    }
  }

  /** A text contains another exactly if it is that one with something before and behind it. */
  lemma ContainsExactly(s: string, part: string)
    ensures Contains(s, part) <==> exists before, after :: s == before + part + after
  {
    if Contains(s, part) {
      var i :| 0 <= i <= |s| && ContainsAt(s, part, i);
      assert s == s[..i] + part + s[i + |part|..];
    }
    forall before: string, after: string | s == before + part + after ensures Contains(s, part) {
      assert s[|before|..|before| + |part|] == part;
      assert ContainsAt(s, part, |before|);
    }
  }

  lemma ContainsInside(s: string, part: string, before: string, after: string)
    requires Contains(s, part)
    ensures Contains(before + s + after, part)
  {
    var i :| 0 <= i <= |s| && ContainsAt(s, part, i);
    var t, j := before + s + after, |before| + i;
    assert t[j..j + |part|] == s[i..i + |part|];
    assert ContainsAt(t, part, j);
  }

  /** `s.partition(sep)`, without the separator. */
  function Partition(sep: char, s: string): (string, string) {
    if s == [] then ([], [])
    else if s[0] == sep then ([], s[1..])
    else var (head, tail) := Partition(sep, s[1..]); ([s[0]] + head, tail)
  }

  lemma {:induction false} PartitionHead(sep: char, head: string, tail: string)
    requires sep !in head
    ensures Partition(sep, head + [sep] + tail) == (head, tail)
  {
    var s := head + [sep] + tail;
    if head == [] {
      assert s[1..] == tail;
    } else {
      assert s[1..] == head[1..] + [sep] + tail;
      PartitionHead(sep, head[1..], tail);
      assert [head[0]] + head[1..] == head;
    }
  }

  lemma {:induction false} PartitionNone(sep: char, s: string)
    requires sep !in s
    ensures Partition(sep, s) == (s, [])
  {
    if s != [] {
      PartitionNone(sep, s[1..]);
      assert [s[0]] + s[1..] == s;
    }
  }

  // ----- decimal notation -----

  function DigitChar(d: nat): (c: char)
    requires d < 10
    ensures IsDigit(c) && DigitValue(c) == d && '0' <= c <= '9'
  {
    (48 + d) as char
  }

  /** `str(n)` for a non-negative integer. */
  function Decimal(n: nat): (s: string)
    ensures s != [] && forall c | c in s :: '0' <= c <= '9'
  {
    if n < 10 then [DigitChar(n)] else Decimal(n / 10) + [DigitChar(n % 10)]
  }

  /** `str(n)`. */
  function IntText(n: int): string {
    if n >= 0 then Decimal(n) else ['-'] + Decimal(-n)
  }

  predicate AllDigits(s: string) {
    forall c | c in s :: IsDigit(c)
  }

  /** `int(s)` for a string of digits. */
  function NatOf(s: string): nat
    requires AllDigits(s)
  {
    if s == [] then 0 else 10 * NatOf(s[..|s| - 1]) + DigitValue(s[|s| - 1])
  }

  lemma {:induction false} NatOfDecimal(n: nat)
    ensures AllDigits(Decimal(n)) && NatOf(Decimal(n)) == n
  {
    var s := Decimal(n);
    if n < 10 {
      assert s[..0] == [];
    } else {
      NatOfDecimal(n / 10);
      assert s[..|s| - 1] == Decimal(n / 10);
    }
  }

  function Pow10(w: nat): (p: nat)
    ensures p >= 1
  {
    if w == 0 then 1 else 10 * Pow10(w - 1)
  }

  /** A number is printed with at most `w` digits exactly when it is below `10^w`. */
  lemma {:induction false} DecimalWidth(n: nat, w: nat)
    requires w >= 1
    ensures |Decimal(n)| <= w <==> n < Pow10(w)
    decreases w
  {
    if w == 1 {
      assert Pow10(1) == 10 * Pow10(0) == 10;
      if n >= 10 { assert |Decimal(n)| == |Decimal(n / 10)| + 1; }
    } else if n >= 10 {
      DecimalWidth(n / 10, w - 1);
    } else {
      assert Pow10(w) == 10 * Pow10(w - 1) >= 10;
    }
  }
}
