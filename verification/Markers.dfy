/** Citation markers as apps/api/core/rag.py recognises them: the pattern `\[(\d{1,3})\]`,
    scanned from left to right without overlap. */
module Markers {
  import opened Text

  /** What is left of a match: the number the digits spell, and the text behind the `]`. */
  datatype Hit = Hit(number: nat, rest: string)

  /** Matches `\d{0,3-k}\]` after `[` and `k` digits worth `acc` have been read. At least one
      digit must have been read by the time the bracket closes. */
  function Body(u: string, k: nat, acc: nat): (hit: Option<Hit>)
    ensures hit.Some? ==> |hit.value.rest| < |u|
  {
    if u == [] then None
    else if u[0] == ']' then (if k >= 1 then Some(Hit(acc, u[1..])) else None)
    else if k < 3 && IsDigit(u[0]) then Body(u[1..], k + 1, 10 * acc + DigitValue(u[0]))
    else None
  }

  /** The marker that starts exactly at the beginning of `t`, if there is one. */
  function MarkerAt(t: string): (hit: Option<Hit>)
    ensures hit.Some? ==> t != [] && t[0] == '[' && |hit.value.rest| < |t|
  {
    if t != [] && t[0] == '[' then Body(t[1..], 0, 0) else None
  }

  /** `CITATION_MARKER_PATTERN.findall`, as integers, in text order. */
  function FindMarkers(t: string): seq<nat>
    decreases |t|
  {
    if t == [] then []
    else match MarkerAt(t)
      case Some(hit) => [hit.number] + FindMarkers(hit.rest)
      case None => FindMarkers(t[1..])
  }

  function CitedMarkers(answer: string): set<nat> {
    set n | n in FindMarkers(answer)
  }

  function UnknownMarkers(answer: string, sourceCount: int): set<nat> {
    set n | n in CitedMarkers(answer) && (n < 1 || n > sourceCount)
  }

  // ----- what the scanner means -----

  /** The text of a marker: an opening bracket, one to three digits, a closing bracket. */
  predicate SpellsMarker(s: string, number: nat) {
    && 3 <= |s| <= 5 && s[0] == '[' && s[|s| - 1] == ']'
    && AllDigits(s[1..|s| - 1]) && NatOf(s[1..|s| - 1]) == number
  }

  /** The text holds a marker for `number` somewhere. */
  ghost predicate Mentions(t: string, number: nat) {
    exists i, j :: 0 <= i <= j <= |t| && SpellsMarker(t[i..j], number)
  }

  lemma OneMoreDigit(t: string, i: nat)
    requires 1 <= i < |t| && AllDigits(t[1..i]) && IsDigit(t[i])
    ensures AllDigits(t[1..i + 1]) && NatOf(t[1..i + 1]) == 10 * NatOf(t[1..i]) + DigitValue(t[i])
  {
    var more := t[1..i + 1];
    assert more == t[1..i] + [t[i]];
    assert more[..i - 1] == t[1..i];
  }

  lemma {:induction false} BodySound(t: string, i: nat)
    requires 1 <= i <= 4 && i <= |t| && t[0] == '[' && AllDigits(t[1..i])
    requires Body(t[i..], i - 1, NatOf(t[1..i])).Some?
    ensures var hit := Body(t[i..], i - 1, NatOf(t[1..i])).value;
            var m := |t| - |hit.rest|;
            t[m..] == hit.rest && SpellsMarker(t[..m], hit.number)
    decreases |t| - i
  {
    assert t[i..][1..] == t[i + 1..];
    if t[i] == ']' {
      assert t[..i + 1][1..i] == t[1..i];
    } else {
      OneMoreDigit(t, i);
      BodySound(t, i + 1);
    }
  }

  /** The number reached by reading more digits. */
  function ReadOn(acc: nat, digits: string): nat
    requires AllDigits(digits)
    decreases |digits|
  {
    if digits == [] then acc else ReadOn(10 * acc + DigitValue(digits[0]), digits[1..])
  }

  lemma {:induction false} ReadOnIsNatOf(read: string, digits: string)
    requires AllDigits(read) && AllDigits(digits)
    ensures AllDigits(read + digits) && ReadOn(NatOf(read), digits) == NatOf(read + digits)
    decreases |digits|
  {
    if digits == [] {
      assert read + digits == read;
    } else {
      var more := read + [digits[0]];
      assert more[..|read|] == read;
      assert more + digits[1..] == read + digits;
      ReadOnIsNatOf(more, digits[1..]);
    }
  }

  lemma BodyReadsDigit(d: char, u: string, k: nat, acc: nat)
    requires IsDigit(d) && k < 3
    ensures Body([d] + u, k, acc) == Body(u, k + 1, 10 * acc + DigitValue(d))
  {
    assert ([d] + u)[1..] == u;
  }

  lemma BodyEnds(rest: string, k: nat, acc: nat)
    requires k >= 1
    ensures Body([']'] + rest, k, acc) == Some(Hit(acc, rest))
  {
    assert ([']'] + rest)[1..] == rest;
  }

  lemma {:induction false} BodyComplete(digits: string, rest: string, k: nat, acc: nat)
    requires AllDigits(digits) && 1 <= k + |digits| <= 3
    ensures Body(digits + ([']'] + rest), k, acc) == Some(Hit(ReadOn(acc, digits), rest))
    decreases |digits|
  {
    var tail := [']'] + rest;
    if digits == [] {
      assert digits + tail == tail;
      BodyEnds(rest, k, acc);
    } else {
      var d, others := digits[0], digits[1..];
      assert digits + tail == [d] + (others + tail);
      BodyReadsDigit(d, others + tail, k, acc);
      BodyComplete(others, rest, k + 1, 10 * acc + DigitValue(d));
    }
  }

  /** A hit covers a prefix of the text that spells the marker reported. */
  lemma MarkerAtSound(t: string)
    requires MarkerAt(t).Some?
    ensures var hit := MarkerAt(t).value;
            var n := |t| - |hit.rest|;
            t[n..] == hit.rest && SpellsMarker(t[..n], hit.number)
  {
    assert t[1..1] == "";
    BodySound(t, 1);
  }

  lemma MarkerAtComplete(text: string, number: nat, rest: string)
    requires SpellsMarker(text, number)
    ensures MarkerAt(text + rest) == Some(Hit(number, rest))
  {
    var digits := text[1..|text| - 1];
    assert (text + rest)[1..] == digits + ([']'] + rest);
    assert "" + digits == digits;
    BodyComplete(digits, rest, 0, 0);
    ReadOnIsNatOf("", digits);
  }

  lemma MentionedInSuffix(t: string, k: nat, number: nat)
    requires k <= |t| && Mentions(t[k..], number)
    ensures Mentions(t, number)
  {
    var i, j :| 0 <= i <= j <= |t[k..]| && SpellsMarker(t[k..][i..j], number);
    assert t[k..][i..j] == t[k + i..k + j];
  }

  /** Two marker texts never overlap: a marker holds one opening bracket, its first character. */
  lemma OneOpeningBracket(text: string, number: nat, i: nat)
    requires SpellsMarker(text, number) && 0 < i < |text|
    ensures text[i] != '['
  {
    if i < |text| - 1 {
      assert text[i] == text[1..|text| - 1][i - 1];
      assert text[i] in text[1..|text| - 1];
    }
  }

  lemma {:induction false} FoundIsMentioned(t: string, number: nat)
    requires number in FindMarkers(t)
    ensures Mentions(t, number)
    decreases |t|
  {
    match MarkerAt(t)
    case None =>
      FoundIsMentioned(t[1..], number);
      MentionedInSuffix(t, 1, number);
    case Some(hit) =>
      MarkerAtSound(t);
      var m := |t| - |hit.rest|;
      if number == hit.number {
        assert t[0..m] == t[..m];
      } else {
        FoundIsMentioned(hit.rest, number);
        MentionedInSuffix(t, m, number);
      }
  }

  lemma MarkersDoNotOverlap(t: string, i: nat, j: nat, number: nat)
    requires MarkerAt(t).Some? && 0 < i <= j <= |t| && SpellsMarker(t[i..j], number)
    ensures i >= |t| - |MarkerAt(t).value.rest|
  {
    MarkerAtSound(t);
    var m := |t| - |MarkerAt(t).value.rest|;
    assert t[i..j][0] == t[i];
    if i < m { OneOpeningBracket(t[..m], MarkerAt(t).value.number, i); }
  }

  lemma MentionedFirst(t: string, number: nat, j: nat)
    requires j <= |t| && SpellsMarker(t[0..j], number)
    ensures number in FindMarkers(t)
  {
    MarkerAtComplete(t[0..j], number, t[j..]);
    assert t[0..j] + t[j..] == t;
  }

  lemma SliceOfRest(t: string, m: nat, i: nat, j: nat)
    requires m <= i <= j <= |t|
    ensures t[m..][i - m..j - m] == t[i..j]
  {
  }

  /** How far one step of the scan moves. */
  function StepLength(t: string): nat
    requires t != []
  {
    match MarkerAt(t)
    case Some(hit) => |t| - |hit.rest|
    case None => 1
  }

  lemma {:induction false} FindMarkersStep(t: string)
    requires t != []
    ensures 0 < StepLength(t) <= |t|
    ensures var found := if MarkerAt(t).Some? then [MarkerAt(t).value.number] else [];
            FindMarkers(t) == found + FindMarkers(t[StepLength(t)..])
  {
    if MarkerAt(t).Some? { MarkerAtSound(t); }
  }

  lemma {:induction false} MentionedIsFound(t: string, number: nat, i: nat, j: nat)
    requires i <= j <= |t| && SpellsMarker(t[i..j], number)
    ensures number in FindMarkers(t)
    decreases |t|
  {
    if i == 0 {
      MentionedFirst(t, number, j);
    } else {
      var m := StepLength(t);
      FindMarkersStep(t);
      if MarkerAt(t).Some? { MarkersDoNotOverlap(t, i, j, number); }
      SliceOfRest(t, m, i, j);
      MentionedIsFound(t[m..], number, i - m, j - m);
    }
  }

  /** The left-to-right scan misses nothing and invents nothing: the numbers it reports are
      those of the marker texts occurring anywhere in the answer. */
  lemma FoundIffMentioned(t: string, number: nat)
    ensures number in FindMarkers(t) <==> Mentions(t, number)
  {
    if number in FindMarkers(t) { FoundIsMentioned(t, number); }
    if Mentions(t, number) {
      var i, j :| 0 <= i <= j <= |t| && SpellsMarker(t[i..j], number);
      MentionedIsFound(t, number, i, j);
    }
  }

  /** `cited_markers` and `unknown_markers` by meaning rather than by scan. */
  lemma UnknownMarkersExact(answer: string, sourceCount: int, number: nat)
    ensures number in CitedMarkers(answer) <==> Mentions(answer, number)
    ensures number in UnknownMarkers(answer, sourceCount)
       <==> Mentions(answer, number) && !(1 <= number <= sourceCount)
  {
    FoundIffMentioned(answer, number);
  }
}
