/** Names of stored documents (apps/api/core/documents.py): the object key of one version, the
    displayable file name, and the extension. Unicode NFC is taken as the identity. */
module Documents {
  import opened Text
  import opened Layouts

  const MAX_ORIGINAL_FILENAME_LENGTH: nat := 255
  const MAX_EXTENSION_LENGTH: nat := 20

  // ----- storage keys -----

  /** `str(uuid)`: 36 characters, hexadecimal digits and hyphens. */
  predicate IsUuidText(s: string) {
    |s| == 36 && forall c | c in s :: c == '-' || '0' <= c <= '9' || 'a' <= c <= 'f'
  }

  function BuildStorageKey(caseId: string, documentId: string, version: int, storedFilename: string): string {
    "cases/" + caseId + "/documents/" + documentId + "/v" + IntText(version) + "/" + storedFilename
  }

  lemma IntTextRead(n: int)
    ensures IntText(n)[0] == '-' <==> n < 0
    ensures var digits := if n < 0 then IntText(n)[1..] else IntText(n);
            AllDigits(digits) && NatOf(digits) == if n < 0 then -n else n
  {
    var m := if n < 0 then -n else n;
    NatOfDecimal(m);
    assert Decimal(m)[0] in Decimal(m);
    if n < 0 { assert IntText(n)[1..] == Decimal(m); }
  }

  lemma IntTextInjective(a: int, b: int)
    requires IntText(a) == IntText(b)
    ensures a == b
  {
    IntTextRead(a);
    IntTextRead(b);
  }

  lemma KeySlices(p: string, first: string, q: string, second: string, v: string, rest: string)
    requires |p| == 6 && |first| == 36 && |q| == 11 && |second| == 36 && |v| == 2
    ensures var key := p + first + q + second + v + rest;
            |key| >= 91 && key[6..42] == first && key[53..89] == second && key[91..] == rest
  {
  }

  lemma KeyParts(caseId: string, documentId: string, version: int, storedFilename: string)
    requires IsUuidText(caseId) && IsUuidText(documentId)
    ensures var key := BuildStorageKey(caseId, documentId, version, storedFilename);
            && |key| >= 91
            && key[6..42] == caseId && key[53..89] == documentId
            && Partition('/', key[91..]) == (IntText(version), storedFilename)
  {
    var key := BuildStorageKey(caseId, documentId, version, storedFilename);
    forall c | c in IntText(version) ensures c != '/' {
      if version < 0 && c != '-' { assert c in Decimal(-version); }
    }
    PartitionHead('/', IntText(version), storedFilename);
    KeySlices("cases/", caseId, "/documents/", documentId, "/v", IntText(version) + ['/'] + storedFilename);
    assert key == "cases/" + caseId + "/documents/" + documentId + "/v" + (IntText(version) + ['/'] + storedFilename);
  }

  /** `cases/{case}/documents/{document}/v{version}/{stored}`, part by part. */
  lemma KeyLayout(caseId: string, documentId: string, version: int, storedFilename: string)
    requires IsUuidText(caseId) && IsUuidText(documentId)
    ensures var key := BuildStorageKey(caseId, documentId, version, storedFilename);
            && |key| >= 91 && key[..6] == "cases/" && key[42..53] == "/documents/" && key[89..91] == "/v"
            && key[6..42] == caseId && key[53..89] == documentId
            && key[91..] == IntText(version) + "/" + storedFilename
  {
    var rest := IntText(version) + "/" + storedFilename;
    WordSlices("cases/", caseId, "/documents/", documentId, "/v", rest);
    KeySlices("cases/", caseId, "/documents/", documentId, "/v", rest);
    assert BuildStorageKey(caseId, documentId, version, storedFilename)
        == "cases/" + caseId + "/documents/" + documentId + "/v" + rest;
  }

  lemma WordSlices(p: string, first: string, q: string, second: string, v: string, rest: string)
    requires |p| == 6 && |first| == 36 && |q| == 11 && |second| == 36 && |v| == 2
    ensures var key := p + first + q + second + v + rest; key[..6] == p && key[42..53] == q && key[89..91] == v
  {
  }

  /** The key determines what it was built from, whatever the stored name contains: two versions
      never share an object. */
  lemma StorageKeyInjective(c1: string, d1: string, v1: int, f1: string, c2: string, d2: string, v2: int, f2: string)
    requires IsUuidText(c1) && IsUuidText(d1) && IsUuidText(c2) && IsUuidText(d2)
    requires BuildStorageKey(c1, d1, v1, f1) == BuildStorageKey(c2, d2, v2, f2)
    ensures c1 == c2 && d1 == d2 && v1 == v2 && f1 == f2
  {
    KeyParts(c1, d1, v1, f1);
    KeyParts(c2, d2, v2, f2);
    IntTextInjective(v1, v2);
  }

  // ----- file names -----

  predicate IsSeparator(c: char) { c == '\\' || c == '/' }

  /** `_UNSAFE_FILENAME_CHARS`. */
  predicate IsUnsafe(c: char) {
    IsSeparator(c) || c in {':', '*', '?', '"', '<', '>', '|'} || (c as int) < 0x20 || (c as int) == 0x7F
  }

  /** `re.split(r"[\\/]", value)[-1]`. */
  function LastComponent(s: string): string {
    if s == [] then []
    else if exists k | 0 <= k < |s| :: IsSeparator(s[k]) then LastComponent(s[1..])
    else s
  }

  function ReplaceUnsafe(s: string): (r: string)
    ensures |r| == |s| && forall i | 0 <= i < |r| :: !IsUnsafe(r[i])
    ensures forall i | 0 <= i < |r| :: r[i] == if IsUnsafe(s[i]) then '_' else s[i]
  {
    if s == [] then [] else [if IsUnsafe(s[0]) then '_' else s[0]] + ReplaceUnsafe(s[1..])
  }

  /** `_WHITESPACE.sub(" ", base)`. */
  function CollapseWhitespace(s: string): string
    decreases |s|
  {
    if s == [] then []
    else if IsSpace(s[0]) then
      var i := LeadingSpaces(s);
      [' '] + CollapseWhitespace(s[i..])
    else [s[0]] + CollapseWhitespace(s[1..])
  }

  function LeadingSpaces(s: string): (n: nat)
    ensures n <= |s| && (s != [] && IsSpace(s[0]) ==> n > 0)
    ensures n < |s| ==> !IsSpace(s[n])
  {
    if s != [] && IsSpace(s[0]) then 1 + LeadingSpaces(s[1..]) else 0
  }

  predicate IsDot(c: char) { c == '.' }

  function Tidied(value: string): string {
    Strip(CollapseWhitespace(ReplaceUnsafe(LastComponent(value))))
  }

  function CleanName(value: string): string { StripIf(IsDot, Tidied(value)) }

  /** `s.rpartition(".")`: the text before and behind the last dot; all of it behind if there is none. */
  function LastDot(s: string): (parts: (string, string))
    ensures '.' !in parts.1
    ensures if '.' in s then s == parts.0 + ['.'] + parts.1 else parts == ([], s)
  {
    if s == [] then ([], [])
    else
      var n := |s| - 1;
      assert s == s[..n] + [s[n]];
      if s[n] == '.' then (s[..n], [])
      else
        var (stem, suffix) := LastDot(s[..n]);
        (stem, suffix + [s[n]])
  }

  /** `sanitize_original_filename`; nothing stands for `InvalidFilenameError`. */
  function SanitizeOriginalFilename(value: string): Option<string> {
    var base := CleanName(value);
    if base == [] then None
    else if |base| <= MAX_ORIGINAL_FILENAME_LENGTH then Some(base)
    else
      var (stem, suffix) := LastDot(base);
      if stem != [] && |suffix| < MAX_ORIGINAL_FILENAME_LENGTH then
        var keep := MAX_ORIGINAL_FILENAME_LENGTH - |suffix| - 1;
        assert |base| == |stem| + 1 + |suffix|;
        Some(stem[..keep] + ['.'] + suffix)
      else Some(base[..MAX_ORIGINAL_FILENAME_LENGTH])
  }

  /** No separator, no character a shell, a header or a file system treats specially, and no
      whitespace but plain spaces. */
  predicate Safe(s: string) {
    forall i | 0 <= i < |s| :: !IsUnsafe(s[i]) && (IsSpace(s[i]) ==> s[i] == ' ')
  }

  /** The nine printable ones, and the controls of ASCII. */
  lemma UnsafeExactly(c: char)
    ensures IsUnsafe(c) <==> c in "\\/:*?\"<>|" || (c as int) <= 31 || (c as int) == 127
  {
    assert "\\/:*?\"<>|" == ['\\', '/', ':', '*', '?', '"', '<', '>', '|'];
  }

  lemma {:induction false} CollapsedIsSafe(s: string)
    requires forall i | 0 <= i < |s| :: !IsUnsafe(s[i])
    ensures Safe(CollapseWhitespace(s))
    decreases |s|
  {
    if s != [] {
      CollapsedIsSafe(s[if IsSpace(s[0]) then LeadingSpaces(s) else 1..]);
    }
  }

  lemma SafeSlice(s: string, i: nat, j: nat)
    requires i <= j <= |s| && Safe(s)
    ensures Safe(s[i..j])
  {
    forall k | 0 <= k < |s[i..j]| ensures s[i..j][k] == s[i + k] { }
  }

  lemma SafeConcat(a: string, b: string)
    requires Safe(a) && Safe(b)
    ensures Safe(a + b)
  {
  }

  lemma CleanNameIsSafe(value: string)
    ensures Safe(CleanName(value))
  {
    var t := CollapseWhitespace(ReplaceUnsafe(LastComponent(value)));
    CollapsedIsSafe(ReplaceUnsafe(LastComponent(value)));
    var i, j := StripIfIsSlice(IsSpace, t);
    SafeSlice(t, i, j);
    var k, l := StripIfIsSlice(IsDot, t[i..j]);
    SafeSlice(t[i..j], k, l);
  }

  /** Every name that is accepted is non-empty, fits the column and is safe. */
  lemma SanitizedIsSafe(value: string)
    requires SanitizeOriginalFilename(value).Some?
    ensures var name := SanitizeOriginalFilename(value).value;
            0 < |name| <= MAX_ORIGINAL_FILENAME_LENGTH && Safe(name)
  {
    var base := CleanName(value);
    CleanNameIsSafe(value);
    if |base| > MAX_ORIGINAL_FILENAME_LENGTH {
      var (stem, suffix) := LastDot(base);
      if stem != [] && |suffix| < MAX_ORIGINAL_FILENAME_LENGTH {
        var keep := MAX_ORIGINAL_FILENAME_LENGTH - |suffix| - 1;
        SafeSlice(base, 0, keep);
        SafeSlice(base, |stem|, |base|);
        assert base[|stem|..|base|] == ['.'] + suffix;
        SafeConcat(base[0..keep], ['.'] + suffix);
        assert stem[..keep] + ['.'] + suffix == base[0..keep] + (['.'] + suffix);
      } else {
        SafeSlice(base, 0, MAX_ORIGINAL_FILENAME_LENGTH);
        assert base[0..MAX_ORIGINAL_FILENAME_LENGTH] == base[..MAX_ORIGINAL_FILENAME_LENGTH];
      }
    }
  }

  /** A name is refused exactly when, cleaned and stripped, it consists of dots. */
  lemma RefusedExactly(value: string)
    ensures SanitizeOriginalFilename(value).None? <==> forall c | c in Tidied(value) :: c == '.'
  {
    var t := Tidied(value);
    var i, j := StripIfIsSlice(IsDot, t);
    if i < j {
      assert !IsDot(t[i]) && t[i] in t;
    } else {
      assert t[i..j] == [];
      forall c | c in t ensures c == '.' {
        var k :| 0 <= k < |t| && t[k] == c;
        assert IsDot(t[k]);
      }
    }
  }

  lemma {:induction false} LastDotUnique(stem: string, suffix: string)
    requires '.' !in suffix
    ensures LastDot(stem + ['.'] + suffix) == (stem, suffix)
  {
    var s := stem + ['.'] + suffix;
    if suffix == [] {
      assert s[..|s| - 1] == stem;
    } else {
      var n := |suffix| - 1;
      assert s[..|s| - 1] == stem + ['.'] + suffix[..n];
      LastDotUnique(stem, suffix[..n]);
      assert suffix == suffix[..n] + [suffix[n]];
    }
  }

  predicate EndsWith(s: string, end: string) {
    |end| <= |s| && s[|s| - |end|..] == end
  }

  /** A cleaned name with a dot in it has something before its last one. */
  lemma StemNotEmpty(value: string)
    requires '.' in CleanName(value)
    ensures LastDot(CleanName(value)).0 != []
  {
    var i, j := StripIfIsSlice(IsDot, Tidied(value));
    var base := CleanName(value);
    assert base[0] == Tidied(value)[i] && !IsDot(base[0]);
  }

  lemma ShortenedParts(value: string)
    requires |CleanName(value)| > MAX_ORIGINAL_FILENAME_LENGTH && '.' in CleanName(value)
    requires |LastDot(CleanName(value)).1| < MAX_ORIGINAL_FILENAME_LENGTH
    ensures SanitizeOriginalFilename(value).Some?
    ensures var (stem, suffix) := LastDot(CleanName(value));
            LastDot(SanitizeOriginalFilename(value).value)
            == (stem[..MAX_ORIGINAL_FILENAME_LENGTH - |suffix| - 1], suffix)
  {
    StemNotEmpty(value);
    var (stem, suffix) := LastDot(CleanName(value));
    LastDotUnique(stem[..MAX_ORIGINAL_FILENAME_LENGTH - |suffix| - 1], suffix);
  }

  /** Shortening keeps the extension exactly if it leaves room for the dot before it. */
  lemma ShorteningKeepsSuffixExactly(value: string)
    requires |CleanName(value)| > MAX_ORIGINAL_FILENAME_LENGTH && '.' in CleanName(value)
    ensures SanitizeOriginalFilename(value).Some?
    ensures EndsWith(SanitizeOriginalFilename(value).value, ['.'] + LastDot(CleanName(value)).1)
       <==> |LastDot(CleanName(value)).1| < MAX_ORIGINAL_FILENAME_LENGTH
  {
    var (stem, suffix) := LastDot(CleanName(value));
    if |suffix| < MAX_ORIGINAL_FILENAME_LENGTH {
      ShortenedParts(value);
      var name := SanitizeOriginalFilename(value).value;
      assert name == LastDot(name).0 + (['.'] + suffix);
    } else {
      SanitizedIsSafe(value);
    }
  }

  // ----- names that show nothing -----

  /** The name shows nothing but dots and spaces. */
  predicate Blank(name: string) {
    forall c | c in name :: c == '.' || c == ' '
  }

  /** What shortening keeps of a long name is blank: the beginning of the stem and the suffix, or the
      beginning of the name. */
  predicate ShortensToBlank(base: string)
    requires |base| > MAX_ORIGINAL_FILENAME_LENGTH
  {
    var (stem, suffix) := LastDot(base);
    if '.' in base && |suffix| < MAX_ORIGINAL_FILENAME_LENGTH then
      Blank(suffix) && Blank(stem[..MAX_ORIGINAL_FILENAME_LENGTH - |suffix| - 1])
    else
      Blank(base[..MAX_ORIGINAL_FILENAME_LENGTH])
  }

  lemma ShortBlankNameExactly(value: string)
    ensures CleanName(value) != [] && Blank(CleanName(value)) <==> Blank(Tidied(value)) && ' ' in Tidied(value)
  {
    var t := Tidied(value);
    var i, j := StripIfIsSlice(IsDot, t);
    forall c | c in t ensures c == '.' || c in t[i..j] {
      var k :| 0 <= k < |t| && t[k] == c;
      if i <= k < j { assert t[i..j][k - i] == c; } else { assert IsDot(t[k]); }
    }
    forall c | c in t[i..j] ensures c in t {
    }
    if i < j { assert !IsDot(t[i]) && t[i] in t && t[i] in t[i..j]; }
  }

  lemma LongBlankNameExactly(value: string)
    requires |CleanName(value)| > MAX_ORIGINAL_FILENAME_LENGTH
    ensures SanitizeOriginalFilename(value).Some?
    ensures Blank(SanitizeOriginalFilename(value).value) <==> ShortensToBlank(CleanName(value))
  {
    var base := CleanName(value);
    var (stem, suffix) := LastDot(base);
    if '.' in base && |suffix| < MAX_ORIGINAL_FILENAME_LENGTH {
      StemNotEmpty(value);
      BlankConcat(stem[..MAX_ORIGINAL_FILENAME_LENGTH - |suffix| - 1], ['.'] + suffix);
      BlankConcat(['.'], suffix);
      assert SanitizeOriginalFilename(value).value
          == stem[..MAX_ORIGINAL_FILENAME_LENGTH - |suffix| - 1] + (['.'] + suffix);
    }
  }

  lemma BlankConcat(a: string, b: string)
    ensures Blank(a + b) <==> Blank(a) && Blank(b)
  {
    if Blank(a + b) {
      forall c | c in a ensures c in a + b { }
      forall c | c in b ensures c in a + b { }
    }
  }

  /** The promise that an unusable name is refused stops at spaces between dots. An accepted name is
      blank exactly when the tidied one is and has a space in it, as that of `". ."`, or when it is
      long and shortening cuts everything else away. */
  lemma BlankNameExactly(value: string)
    ensures SanitizeOriginalFilename(value).Some? && Blank(SanitizeOriginalFilename(value).value)
       <==> if |CleanName(value)| <= MAX_ORIGINAL_FILENAME_LENGTH
            then Blank(Tidied(value)) && ' ' in Tidied(value)
            else ShortensToBlank(CleanName(value))
  {
    if |CleanName(value)| <= MAX_ORIGINAL_FILENAME_LENGTH {
      ShortBlankNameExactly(value);
    } else {
      LongBlankNameExactly(value);
    }
  }

  // ----- names that are tidy already -----

  /** Whitespace at `i` is one plain space with none behind it. */
  predicate SpaceAlone(s: string, i: nat)
    requires i < |s|
  {
    IsSpace(s[i]) ==> s[i] == ' ' && (i + 1 < |s| ==> !IsSpace(s[i + 1]))
  }

  predicate SpacesAlone(s: string) { forall i | 0 <= i < |s| :: SpaceAlone(s, i) }

  lemma SpacesAloneSlice(s: string, i: nat, j: nat)
    requires i <= j <= |s| && SpacesAlone(s)
    ensures SpacesAlone(s[i..j])
  {
    forall k | 0 <= k < |s[i..j]| ensures SpaceAlone(s[i..j], k) {
      assert SpaceAlone(s, i + k);
    }
  }

  lemma SpacesAloneCons(c: char, rest: string)
    requires SpacesAlone(rest) && (IsSpace(c) ==> c == ' ' && (rest != [] ==> !IsSpace(rest[0])))
    ensures SpacesAlone([c] + rest)
  {
    var t := [c] + rest;
    forall k | 0 <= k < |t| ensures SpaceAlone(t, k) {
      if k > 0 { assert SpaceAlone(rest, k - 1); }
    }
  }

  lemma {:induction false} CollapsedSpacesAlone(s: string)
    ensures SpacesAlone(CollapseWhitespace(s))
    ensures s != [] && !IsSpace(s[0]) ==> CollapseWhitespace(s) != [] && CollapseWhitespace(s)[0] == s[0]
    decreases |s|
  {
    if s != [] {
      var n := if IsSpace(s[0]) then LeadingSpaces(s) else 1;
      CollapsedSpacesAlone(s[n..]);
      if IsSpace(s[0]) && s[n..] != [] { assert s[n..][0] == s[n]; }
      SpacesAloneCons(if IsSpace(s[0]) then ' ' else s[0], CollapseWhitespace(s[n..]));
    }
  }

  lemma CleanNameSpacesAlone(value: string)
    ensures SpacesAlone(CleanName(value))
  {
    var t := CollapseWhitespace(ReplaceUnsafe(LastComponent(value)));
    CollapsedSpacesAlone(ReplaceUnsafe(LastComponent(value)));
    var i, j := StripIfIsSlice(IsSpace, t);
    SpacesAloneSlice(t, i, j);
    var k, l := StripIfIsSlice(IsDot, t[i..j]);
    SpacesAloneSlice(t[i..j], k, l);
  }

  lemma {:induction false} ReplaceUnsafeFixed(s: string)
    requires forall i | 0 <= i < |s| :: !IsUnsafe(s[i])
    ensures ReplaceUnsafe(s) == s
  {
    if s != [] { ReplaceUnsafeFixed(s[1..]); }
  }

  lemma {:induction false} CollapseFixed(s: string)
    requires SpacesAlone(s)
    ensures CollapseWhitespace(s) == s
    decreases |s|
  {
    if s != [] {
      assert SpaceAlone(s, 0);
      assert s[1..|s|] == s[1..];
      SpacesAloneSlice(s, 1, |s|);
      CollapseFixed(s[1..]);
      if IsSpace(s[0]) { assert LeadingSpaces(s) == 1 + LeadingSpaces(s[1..]) == 1; }
    }
  }

  /** A tidy name without surrounding dots is left alone. */
  lemma TidyFixed(s: string)
    requires SpacesAlone(s) && (forall i | 0 <= i < |s| :: !IsUnsafe(s[i]))
    requires s != [] && !IsSpace(s[0]) && !IsSpace(s[|s| - 1])
    ensures Tidied(s) == s
    ensures s[0] != '.' && s[|s| - 1] != '.' ==> CleanName(s) == s
  {
    ReplaceUnsafeFixed(s);
    CollapseFixed(s);
    StripIfFixed(IsSpace, s);
    if s[0] != '.' && s[|s| - 1] != '.' { StripIfFixed(IsDot, s); }
  }

  lemma StripDots(s: string)
    requires s != [] && !IsDot(s[0]) && !IsDot(s[|s| - 1])
    ensures StripIf(IsDot, ['.'] + s + ['.']) == s
  {
    var t := ['.'] + s + ['.'];
    var i, j := StripIfIsSlice(IsDot, t);
    assert t[1] == s[0] && t[|t| - 2] == s[|s| - 1];
    assert t[1..|t| - 1] == s;
  }

  lemma {:induction false} BlankNameExample()
    ensures SanitizeOriginalFilename(". .") == Some(" ")
  {
    var s := ['.'] + " " + ['.'];
    assert s == ". .";
    TidyFixed(s);
    StripDots(" ");
  }

  function DotsAndSpaces(n: nat): (s: string)
    ensures |s| == n && forall i | 0 <= i < n :: s[i] == if i % 2 == 0 then '.' else ' '
  {
    seq(n, i => if i % 2 == 0 then '.' else ' ')
  }

  lemma LongBlankNameTidied()
    ensures var value := DotsAndSpaces(261) + "x. .";
            Tidied(value) == value && CleanName(value) == value[1..262] + ['.'] + " "
  {
    var value := DotsAndSpaces(261) + "x. .";
    forall i | 0 <= i < |value| ensures SpaceAlone(value, i) && !IsUnsafe(value[i]) {
      assert i < 260 ==> value[i + 1] == DotsAndSpaces(261)[i + 1];
    }
    assert value[0] == '.' && value[264] == '.';
    TidyFixed(value);
    WithoutOuterDots(value);
    assert value[1..264] == value[1..262] + ['.'] + " ";
  }

  lemma WithoutOuterDots(s: string)
    requires |s| > 2 && s[0] == s[|s| - 1] == '.' && s[1] != '.' && s[|s| - 2] != '.'
    ensures StripIf(IsDot, s) == s[1..|s| - 1]
  {
    assert s == ['.'] + s[1..|s| - 1] + ['.'];
    StripDots(s[1..|s| - 1]);
  }

  lemma CutToBlank(stem: string)
    requires |stem| == 261 && Blank(stem[..253])
    ensures ShortensToBlank(stem + ['.'] + " ")
  {
    LastDotUnique(stem, " ");
  }

  /** A long name with a letter in it that is stored as dots and spaces. */
  lemma LongBlankNameExample()
    ensures var value := DotsAndSpaces(261) + "x. .";
            && 'x' in Tidied(value) && SanitizeOriginalFilename(value).Some?
            && Blank(SanitizeOriginalFilename(value).value)
  {
    var value := DotsAndSpaces(261) + "x. .";
    LongBlankNameTidied();
    assert value[261] == 'x';
    var stem := value[1..262];
    forall c | c in stem[..253] ensures c == '.' || c == ' ' {
      var k :| 0 <= k < 253 && stem[k] == c;
      assert stem[k] == DotsAndSpaces(261)[k + 1];
    }
    CutToBlank(stem);
    LongBlankNameExactly(value);
  }

  // ----- what exactly is changed -----

  /** Any directories before the name are discarded, with either separator. */
  lemma DirectoriesDropped(directories: string, separator: char, name: string)
    requires separator == '/' || separator == '\\'
    requires '/' !in name && '\\' !in name
    ensures LastComponent(directories + [separator] + name) == name
    ensures SanitizeOriginalFilename(directories + [separator] + name) == SanitizeOriginalFilename(name)
  {
    LastComponentAfter(directories, separator, name);
    NoSeparatorKept(name);
  }

  lemma {:induction false} LastComponentAfter(directories: string, separator: char, name: string)
    requires separator == '/' || separator == '\\'
    requires '/' !in name && '\\' !in name
    ensures LastComponent(directories + [separator] + name) == name
  {
    var s := directories + [separator] + name;
    NoSeparatorKept(name);
    assert IsSeparator(s[|directories|]);
    if directories == [] {
      assert s[1..] == name;
    } else {
      assert s[1..] == directories[1..] + [separator] + name;
      LastComponentAfter(directories[1..], separator, name);
    }
  }

  lemma NoSeparatorKept(name: string)
    requires '/' !in name && '\\' !in name
    ensures LastComponent(name) == name
  {
    forall k | 0 <= k < |name| ensures !IsSeparator(name[k]) { assert name[k] in name; }
  }

  /** The same characters, with one space where there was any whitespace between them. */
  ghost predicate SpacesCollapsed(l: Layout, r: Layout) {
    && |r.spots| == |l.spots| && r.tail == (if l.tail == [] then "" else " ")
    && forall k | 0 <= k < |l.spots| ::
         r.spots[k] == Spot(if l.spots[k].gap == [] then "" else " ", l.spots[k].ch)
  }

  lemma CollapsedChar(c: char, l: Layout, r: Layout)
    requires SpacesCollapsed(l, r)
    ensures SpacesCollapsed(Layout([Spot([], c)] + l.spots, l.tail), Layout([Spot([], c)] + r.spots, r.tail))
  {
  }

  lemma CollapsedGap(c: char, l: Layout, r: Layout)
    requires SpacesCollapsed(l, r)
    ensures FirstGap(l) == [] <==> FirstGap(r) == []
    ensures SpacesCollapsed(Prepend(c, l), if FirstGap(l) == [] then Prepend(' ', r) else r)
  {
  }

  lemma {:induction false} CollapseExactly(s: string)
    ensures SpacesCollapsed(Lay(IsSpace, s), Lay(IsSpace, CollapseWhitespace(s)))
    decreases |s|
  {
    if s != [] {
      var rest := CollapseWhitespace(s[1..]);
      CollapseExactly(s[1..]);
      if IsSpace(s[0]) {
        CollapseSpace(s);
        HeadOfLayout(IsSpace, s[1..]);
        CollapsedGap(s[0], Lay(IsSpace, s[1..]), Lay(IsSpace, rest));
        assert ([' '] + rest)[1..] == rest;
      } else {
        CollapsedChar(s[0], Lay(IsSpace, s[1..]), Lay(IsSpace, rest));
        assert ([s[0]] + rest)[1..] == rest;
      }
    }
  }

  lemma CollapseSpace(s: string)
    requires s != [] && IsSpace(s[0])
    ensures CollapseWhitespace(s)
         == if |s| > 1 && IsSpace(s[1]) then CollapseWhitespace(s[1..]) else [' '] + CollapseWhitespace(s[1..])
  {
    var n := LeadingSpaces(s[1..]);
    assert LeadingSpaces(s) == 1 + n && s[1..][n..] == s[1 + n..];
    if |s| > 1 && IsSpace(s[1]) {
      assert s[1..][0] == s[1];
    } else {
      assert n == 0;
    }
  }

  /** A name is tidied to its characters, the unsafe ones as underscores, single-spaced. */
  lemma TidiedExactly(name: string)
    requires '/' !in name && '\\' !in name
    ensures var l, r := Lay(IsSpace, ReplaceUnsafe(name)), Lay(IsSpace, Tidied(name));
            && r.tail == [] && |r.spots| == |l.spots|
            && forall k | 0 <= k < |l.spots| ::
                 r.spots[k] == Spot(if k == 0 || l.spots[k].gap == [] then "" else " ", l.spots[k].ch)
  {
    NoSeparatorKept(name);
    CollapseExactly(ReplaceUnsafe(name));
    StripLayout(IsSpace, CollapseWhitespace(ReplaceUnsafe(name)));
  }

  /** An accepted name that fits is the tidied one without the dots around it. */
  lemma ShortNameExactly(value: string) returns (i: nat, j: nat)
    requires SanitizeOriginalFilename(value).Some? && |CleanName(value)| <= 255
    ensures i < j <= |Tidied(value)| && SanitizeOriginalFilename(value).value == Tidied(value)[i..j]
    ensures forall k | 0 <= k < i || j <= k < |Tidied(value)| :: Tidied(value)[k] == '.'
    ensures Tidied(value)[i] != '.' && Tidied(value)[j - 1] != '.'
  {
    i, j := StripIfIsSlice(IsDot, Tidied(value));
    forall k | 0 <= k < i || j <= k < |Tidied(value)| ensures Tidied(value)[k] == '.' {
      assert IsDot(Tidied(value)[k]);
    }
  }

  /** A longer one is cut to 255 characters: before its suffix if that and its dot leave room, else at
      the end. */
  lemma LongNameExactly(value: string)
    requires |CleanName(value)| > 255
    ensures SanitizeOriginalFilename(value).Some?
    ensures var base, name := CleanName(value), SanitizeOriginalFilename(value).value;
            var suffix := LastDot(base).1;
            && |name| == 255
            && if '.' in base && |suffix| < 255
               then name[..254 - |suffix|] == base[..254 - |suffix|] && name[254 - |suffix|..] == ['.'] + suffix
               else name == base[..255]
  {
    var base := CleanName(value);
    var (stem, suffix) := LastDot(base);
    if '.' in base && |suffix| < 255 {
      StemNotEmpty(value);
      assert base == stem + (['.'] + suffix);
      assert SanitizeOriginalFilename(value).value == stem[..254 - |suffix|] + (['.'] + suffix);
    }
  }

  // ----- extensions -----

  predicate IsExtensionText(s: string) {
    s != [] && |s| <= MAX_EXTENSION_LENGTH && forall c | c in s :: 'a' <= c <= 'z' || '0' <= c <= '9'
  }

  /** `normalize_extension`; nothing stands for `InvalidFilenameError`. */
  function NormalizeExtension(lower: CaseMapping, value: string): Option<string> {
    var extension := MapCase(lower, Strip(LastDot(value).1));
    if IsExtensionText(extension) then Some(extension) else None
  }

  /** A suffix is an extension exactly if, stripped and in lower case, it has one to twenty characters,
      all of them letters a to z or digits. */
  lemma ExtensionExactly(lower: CaseMapping, stem: string, suffix: string)
    requires '.' !in suffix
    ensures var extension := MapCase(lower, Strip(suffix));
            NormalizeExtension(lower, stem + ['.'] + suffix)
            == if 1 <= |extension| <= 20 && forall c | c in extension :: 'a' <= c <= 'z' || '0' <= c <= '9'
               then Some(extension) else None
  {
    LastDotUnique(stem, suffix);
  }

  /** A file name, a suffix with its dot and a bare suffix are read alike. */
  lemma ExtensionReadAlike(lower: CaseMapping, stem: string, suffix: string)
    requires '.' !in suffix
    ensures NormalizeExtension(lower, stem + ['.'] + suffix) == NormalizeExtension(lower, suffix)
  {
    LastDotUnique(stem, suffix);
  }

  /** Stripping takes at most one space off either end. */
  lemma StripKeepsMost(s: string)
    requires SpacesAlone(s) && |s| > 3
    ensures |Strip(s)| >= |s| - 2
  {
    var i, j := StripIfIsSlice(IsSpace, s);
    assert SpaceAlone(s, 0) && SpaceAlone(s, 1) && SpaceAlone(s, |s| - 2);
  }

  /** Where the suffix fills the column there is no type to be read. */
  lemma OverlongHasNoType(lower: CaseMapping, base: string)
    requires NeverDeletes(lower) && SpacesAlone(base) && |LastDot(base).1| >= MAX_ORIGINAL_FILENAME_LENGTH
    ensures NormalizeExtension(lower, base).None?
  {
    var (stem, suffix) := LastDot(base);
    assert suffix == base[|base| - |suffix|..|base|];
    SpacesAloneSlice(base, |base| - |suffix|, |base|);
    StripKeepsMost(suffix);
    MapCaseKeepsLength(lower, Strip(suffix));
  }

  /** The cut through a long name leaves a dot and, behind the last one, what reads as a type. */
  predicate CutReadsAsType(lower: CaseMapping, base: string) {
    && |base| > MAX_ORIGINAL_FILENAME_LENGTH && |LastDot(base).1| >= MAX_ORIGINAL_FILENAME_LENGTH
    && var cut := base[..MAX_ORIGINAL_FILENAME_LENGTH];
       '.' in cut && IsExtensionText(MapCase(lower, Strip(LastDot(cut).1)))
  }

  /** The file type read from a stored name is the one read from the name before it was shortened,
      exactly unless the cut invents one: the full name has none then. */
  lemma ShorteningKeepsTypeExactly(lower: CaseMapping, value: string)
    requires NeverDeletes(lower) && SanitizeOriginalFilename(value).Some?
    ensures NormalizeExtension(lower, SanitizeOriginalFilename(value).value)
         == NormalizeExtension(lower, CleanName(value))
       <==> !CutReadsAsType(lower, CleanName(value))
    ensures CutReadsAsType(lower, CleanName(value)) ==> NormalizeExtension(lower, CleanName(value)).None?
  {
    var base := CleanName(value);
    if |base| > MAX_ORIGINAL_FILENAME_LENGTH {
      if |LastDot(base).1| < MAX_ORIGINAL_FILENAME_LENGTH {
        ShortenedParts(value);
      } else {
        CleanNameSpacesAlone(value);
        OverlongHasNoType(lower, base);
        var cut := base[..MAX_ORIGINAL_FILENAME_LENGTH];
        if '.' !in cut {
          SpacesAloneSlice(base, 0, MAX_ORIGINAL_FILENAME_LENGTH);
          assert base[0..MAX_ORIGINAL_FILENAME_LENGTH] == cut;
          OverlongHasNoType(lower, cut);
        }
      }
    }
  }

  lemma TypeOfPdf(stem: string)
    ensures NormalizeExtension(IDENTITY, stem + ['.'] + "pdf") == Some("pdf")
  {
    LastDotUnique(stem, "pdf");
    StripIfFixed(IsSpace, "pdf");
    MapCaseIdentity("pdf");
  }

  /** A clean name whose suffix fills the column is cut at the column. */
  lemma CutAtColumn(stem: string, kept: string, more: string)
    requires |stem| + 1 + |kept| == MAX_ORIGINAL_FILENAME_LENGTH && '.' !in kept && '.' !in more && |more| >= 255
    requires var value := stem + ['.'] + (kept + more); CleanName(value) == value
    ensures var value := stem + ['.'] + (kept + more);
            && SanitizeOriginalFilename(value) == Some(stem + ['.'] + kept)
            && LastDot(value).1 == kept + more
  {
    var value := stem + ['.'] + (kept + more);
    LastDotUnique(stem, kept + more);
    assert value[..MAX_ORIGINAL_FILENAME_LENGTH] == stem + ['.'] + kept;
  }

  /** A name that loses its suffix and gains a type. */
  lemma InventedTypeExample()
    ensures var stem, suffix := Repeat('x', 251), "pdf" + Repeat('y', 300);
            && SanitizeOriginalFilename(stem + ['.'] + suffix) == Some(stem + ['.'] + "pdf")
            && !EndsWith(stem + ['.'] + "pdf", ['.'] + suffix)
            && NormalizeExtension(IDENTITY, stem + ['.'] + suffix) == None
            && NormalizeExtension(IDENTITY, stem + ['.'] + "pdf") == Some("pdf")
  {
    var stem, more := Repeat('x', 251), Repeat('y', 300);
    var value := stem + ['.'] + ("pdf" + more);
    forall i | 0 <= i < |value| ensures !IsSpace(value[i]) && !IsUnsafe(value[i]) && SpaceAlone(value, i) {
    }
    TidyFixed(value);
    CutAtColumn(stem, "pdf", more);
    TypeOfPdf(stem);
    OverlongHasNoType(IDENTITY, value);
  }
}
