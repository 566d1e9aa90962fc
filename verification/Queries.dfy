/** `normalize_query` of apps/api/core/search.py, which is also how questions, titles and suggestions
    are normalised. Unicode NFC is taken as the identity; which characters are controls (general
    category C), which are alphanumeric and how they fold are parameters. */
module Queries {
  import opened Text
  import opened Layouts

  /** The parts of the Unicode character database that are consulted. */
  datatype CharTables = CharTables(isControl: char -> bool, isAlnum: char -> bool, fold: CaseMapping) {
    predicate Kept(c: char) { c == '\t' || c == '\n' || !isControl(c) }
  }

  function DropControls(tables: CharTables, s: string): string {
    if s == [] then []
    else if tables.Kept(s[0]) then [s[0]] + DropControls(tables, s[1..])
    else DropControls(tables, s[1..])
  }

  /** `s.split()`. */
  function Words(s: string): (words: seq<string>)
    ensures s != [] && !IsSpace(s[0]) ==> words != []
    ensures forall i | 0 <= i < |words| :: words[i] != []
  {
    if s == [] then []
    else if IsSpace(s[0]) then Words(s[1..])
    else
      var rest := Words(s[1..]);
      if |s| > 1 && !IsSpace(s[1]) then [[s[0]] + rest[0]] + rest[1..] else [[s[0]]] + rest
  }

  function NormalizeQuery(tables: CharTables, value: string): string {
    if value == [] then [] else Join(' ', Words(DropControls(tables, value)))
  }

  // ----- normal form -----

  /** Whitespace at `i` is one space with a character of a word behind it. */
  predicate SingleSpaceAt(s: string, i: nat)
    requires i < |s|
  {
    IsSpace(s[i]) ==> s[i] == ' ' && i + 1 < |s| && !IsSpace(s[i + 1])
  }

  /** Words separated by single spaces, without controls. */
  predicate Normal(tables: CharTables, s: string) {
    && (s != [] ==> !IsSpace(s[0]) && !IsSpace(s[|s| - 1]))
    && (forall i | 0 <= i < |s| :: SingleSpaceAt(s, i))
    && (forall i | 0 <= i < |s| :: tables.Kept(s[i]))
  }

  /** `" ".join(s.split())`, one character at a time. */
  function Squeeze(s: string): string {
    if s == [] then []
    else
      var rest := Squeeze(s[1..]);
      if IsSpace(s[0]) then rest
      else if |s| > 1 && IsSpace(s[1]) && rest != [] then [s[0], ' '] + rest
      else [s[0]] + rest
  }

  lemma JoinWithFirst(word: string, rest: seq<string>)
    ensures Join(' ', [word] + rest) == if rest == [] then word else word + [' '] + Join(' ', rest)
  {
    assert ([word] + rest)[1..] == rest;
  }

  lemma JoinWithLongerFirst(c: char, rest: seq<string>)
    requires rest != []
    ensures Join(' ', [[c] + rest[0]] + rest[1..]) == [c] + Join(' ', rest)
  {
    var first, others := rest[0], rest[1..];
    JoinWithFirst([c] + first, others);
    JoinWithFirst(first, others);
    assert [first] + others == rest;
    Reassociate([c], first, [' '] + Join(' ', others));
    Reassociate([c] + first, [' '], Join(' ', others));
    Reassociate(first, [' '], Join(' ', others));
  }

  lemma Reassociate(s: string, t: string, u: string)
    ensures (s + t) + u == s + (t + u)
  {
  }

  lemma {:induction false} JoinedWordsSqueeze(s: string)
    ensures Join(' ', Words(s)) == Squeeze(s)
    ensures Words(s) == [] <==> Squeeze(s) == []
  {
    if s != [] {
      JoinedWordsSqueeze(s[1..]);
      var rest := Words(s[1..]);
      if !IsSpace(s[0]) {
        if |s| > 1 && !IsSpace(s[1]) {
          JoinWithLongerFirst(s[0], rest);
        } else {
          JoinWithFirst([s[0]], rest);
          assert [s[0]] + [' '] == [s[0], ' '];
        }
      }
    }
  }

  lemma {:induction false} SqueezeNormal(tables: CharTables, s: string)
    requires tables.Kept(' ') && forall i | 0 <= i < |s| :: tables.Kept(s[i])
    ensures Normal(tables, Squeeze(s))
    ensures s != [] && !IsSpace(s[0]) ==> Squeeze(s) != [] && Squeeze(s)[0] == s[0]
  {
    if s != [] {
      SqueezeNormal(tables, s[1..]);
      var rest := Squeeze(s[1..]);
      if !IsSpace(s[0]) {
        if |s| > 1 && IsSpace(s[1]) && rest != [] {
          SpacingCons(' ', rest);
          SpacingCons(s[0], [' '] + rest);
          assert [s[0]] + ([' '] + rest) == [s[0], ' '] + rest;
        } else {
          SpacingCons(s[0], rest);
        }
      }
    }
  }

  lemma SpacingCons(c: char, rest: string)
    requires forall i | 0 <= i < |rest| :: SingleSpaceAt(rest, i)
    requires IsSpace(c) ==> c == ' ' && rest != [] && !IsSpace(rest[0])
    ensures var t := [c] + rest; forall i | 0 <= i < |t| :: SingleSpaceAt(t, i)
  {
    var t := [c] + rest;
    forall i | 0 <= i < |t| ensures SingleSpaceAt(t, i) {
      if i > 0 { assert SingleSpaceAt(rest, i - 1); }
    }
  }

  lemma {:induction false} DropControlsKeeps(tables: CharTables, s: string)
    ensures forall i | 0 <= i < |DropControls(tables, s)| :: tables.Kept(DropControls(tables, s)[i])
    ensures (forall i | 0 <= i < |s| :: tables.Kept(s[i])) ==> DropControls(tables, s) == s
  {
    if s != [] {
      DropControlsKeeps(tables, s[1..]);
      assert [s[0]] + s[1..] == s;
    }
  }

  /** Every normalised text is in normal form. */
  lemma NormalizedIsNormal(tables: CharTables, value: string)
    requires tables.Kept(' ')
    ensures Normal(tables, NormalizeQuery(tables, value))
  {
    DropControlsKeeps(tables, value);
    JoinedWordsSqueeze(DropControls(tables, value));
    SqueezeNormal(tables, DropControls(tables, value));
  }

  lemma {:induction false} SqueezeFixed(tables: CharTables, s: string)
    requires s != [] ==> !IsSpace(s[|s| - 1])
    requires forall i | 0 <= i < |s| :: SingleSpaceAt(s, i)
    ensures Squeeze(s) == if s != [] && IsSpace(s[0]) then s[1..] else s
  {
    if s != [] {
      var rest := s[1..];
      assert SingleSpaceAt(s, 0);
      forall i | 0 <= i < |rest| ensures SingleSpaceAt(rest, i) {
        assert SingleSpaceAt(s, i + 1);
      }
      SqueezeFixed(tables, rest);
      if |s| > 1 && IsSpace(s[1]) {
        assert SingleSpaceAt(s, 1);
        assert s[1] == ' ' && rest[0] == s[1];
        assert s == [s[0], ' '] + rest[1..];
      }
    }
  }

  /** Text in normal form is left alone, so normalising twice changes nothing. */
  lemma NormalIsFixed(tables: CharTables, s: string)
    requires Normal(tables, s)
    ensures NormalizeQuery(tables, s) == s
  {
    DropControlsKeeps(tables, s);
    JoinedWordsSqueeze(s);
    SqueezeFixed(tables, s);
  }

  /** A beginning of a normal text that does not end in whitespace is normal. */
  lemma NormalPrefix(tables: CharTables, s: string, j: nat)
    requires Normal(tables, s) && j <= |s| && (j > 0 ==> !IsSpace(s[j - 1]))
    ensures Normal(tables, s[..j])
  {
    var t := s[..j];
    forall i | 0 <= i < |t| ensures SingleSpaceAt(t, i) {
      assert SingleSpaceAt(s, i);
    }
  }

  // ----- what exactly is changed -----

  lemma {:induction false} DropControlsConcat(tables: CharTables, a: string, b: string)
    ensures DropControls(tables, a + b) == DropControls(tables, a) + DropControls(tables, b)
  {
    if a == [] {
      assert a + b == b;
    } else {
      assert (a + b)[1..] == a[1..] + b;
      DropControlsConcat(tables, a[1..], b);
    }
  }

  /** Controls other than tabs and newlines are left out, and nothing else. */
  lemma DropControlsExactly(tables: CharTables, a: string, c: char, b: string)
    ensures DropControls(tables, a + [c] + b)
         == DropControls(tables, a) + (if c == '\t' || c == '\n' || !tables.isControl(c) then [c] else [])
            + DropControls(tables, b)
    ensures DropControls(tables, []) == []
  {
    DropControlsConcat(tables, a + [c], b);
    DropControlsConcat(tables, a, [c]);
    assert [c][1..] == [];
  }

  /** The same characters, with one space where there was any whitespace between them and none at the
      ends. */
  ghost predicate SingleSpaced(l: Layout, r: Layout) {
    && r.tail == [] && |r.spots| == |l.spots|
    && forall k | 0 <= k < |l.spots| ::
         r.spots[k] == Spot(if k == 0 || l.spots[k].gap == [] then "" else " ", l.spots[k].ch)
  }

  lemma SpacedGap(c: char, l: Layout, r: Layout)
    requires SingleSpaced(l, r)
    ensures SingleSpaced(Prepend(c, l), r)
  {
  }

  lemma SpacedChar(c: char, l: Layout, r: Layout)
    requires SingleSpaced(l, r)
    ensures var rest := if l.spots != [] && FirstGap(l) != [] then Prepend(' ', r) else r;
            SingleSpaced(Layout([Spot([], c)] + l.spots, l.tail), Layout([Spot([], c)] + rest.spots, rest.tail))
  {
  }

  lemma {:induction false} SqueezedLayout(s: string)
    ensures SingleSpaced(Lay(IsSpace, s), Lay(IsSpace, Squeeze(s)))
  {
    if s != [] {
      var rest, l := Squeeze(s[1..]), Lay(IsSpace, s[1..]);
      var r := Lay(IsSpace, rest);
      SqueezedLayout(s[1..]);
      if IsSpace(s[0]) {
        SpacedGap(s[0], l, r);
      } else {
        SpacedChar(s[0], l, r);
        HeadOfLayout(IsSpace, rest);
        HeadOfLayout(IsSpace, s[1..]);
        CharBefore(s[0], rest);
      }
    }
  }

  lemma CharBefore(c: char, rest: string)
    requires !IsSpace(c)
    ensures var r := Lay(IsSpace, rest);
            && Lay(IsSpace, [c] + rest) == Layout([Spot([], c)] + r.spots, r.tail)
            && Lay(IsSpace, [c, ' '] + rest)
               == Layout([Spot([], c)] + Prepend(' ', r).spots, Prepend(' ', r).tail)
  {
    assert ([c] + rest)[1..] == rest && ([' '] + rest)[1..] == rest;
    assert ([c, ' '] + rest)[1..] == [' '] + rest;
  }

  /** A normalised text is the text without controls, single-spaced. */
  lemma NormalizeQueryExactly(tables: CharTables, value: string)
    ensures SingleSpaced(Lay(IsSpace, DropControls(tables, value)), Lay(IsSpace, NormalizeQuery(tables, value)))
  {
    JoinedWordsSqueeze(DropControls(tables, value));
    SqueezedLayout(DropControls(tables, value));
  }
}
