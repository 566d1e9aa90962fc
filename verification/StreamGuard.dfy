/** Keeping the refusal sentinel out of a streamed answer: `sentinel_prefix_pending` and
    `is_insufficient_evidence` of apps/api/core/rag.py, and the loop of
    apps/api/services/rag.py that relays the model's fragments.

    Case folding is a parameter: a function from one character to the text it folds to, applied
    to every character of a string. Nothing else about it is used. The sentinel is a parameter
    too; the platform's is `INSUFFICIENT_EVIDENCE`, and everything here holds of any token. */
module StreamGuard {
  import opened Text

  predicate IsQuote(c: char) { c == '"' || c == '\'' }

  /** What is compared with the sentinel: leading whitespace and then leading quotes removed. */
  function Trimmed(answer: string): string { LStripIf(IsQuote, LStrip(answer)) }

  predicate IsInsufficientEvidence(fold: CaseMapping, sentinel: string, answer: string) {
    Contains(MapCase(fold, answer), MapCase(fold, sentinel))
  }

  predicate SentinelPrefixPending(fold: CaseMapping, sentinel: string, accumulated: string) {
    var trimmed := MapCase(fold, Trimmed(accumulated));
    var marker := MapCase(fold, sentinel);
    trimmed <= marker || marker <= trimmed
  }

  // ----- the guard by positions -----

  /** What is compared begins behind all leading whitespace and all quotes behind that. */
  lemma TrimmedExactly(answer: string) returns (i: nat, j: nat)
    ensures i <= j <= |answer| && Trimmed(answer) == answer[j..]
    ensures forall k | 0 <= k < i :: IsSpace(answer[k])
    ensures forall k | i <= k < j :: answer[k] == '"' || answer[k] == '\''
    ensures i < |answer| ==> !IsSpace(answer[i])
    ensures j < |answer| ==> answer[j] != '"' && answer[j] != '\''
  {
    i := LStripIfIsSuffix(IsSpace, answer);
    var n := LStripIfIsSuffix(IsQuote, answer[i..]);
    j := i + n;
    forall k | i <= k < j ensures answer[k] == '"' || answer[k] == '\'' {
      assert IsQuote(answer[i..][k - i]);
    }
    assert answer[i..][n..] == answer[j..];
    assert j < |answer| ==> answer[i..][n] == answer[j];
  }

  /** At `i`, below both lengths, the folded text and the folded sentinel have different characters. */
  predicate DiffersAt(fold: CaseMapping, sentinel: string, text: string, i: int) {
    var trimmed, marker := MapCase(fold, Trimmed(text)), MapCase(fold, sentinel);
    0 <= i < |trimmed| && i < |marker| && trimmed[i] != marker[i]
  }

  ghost predicate Diverges(fold: CaseMapping, sentinel: string, text: string) {
    exists i :: DiffersAt(fold, sentinel, text, i)
  }

  lemma PrefixesAgree(a: string, b: string)
    ensures a <= b || b <= a <==> forall i | 0 <= i < |a| && i < |b| :: a[i] == b[i]
  {
    if forall i | 0 <= i < |a| && i < |b| :: a[i] == b[i] {
      if |a| <= |b| { assert a == b[..|a|]; } else { assert b == a[..|b|]; }
    }
  }

  /** Text is withheld exactly as long as it differs from the sentinel nowhere. */
  lemma PendingExactly(fold: CaseMapping, sentinel: string, text: string)
    ensures SentinelPrefixPending(fold, sentinel, text) <==> !Diverges(fold, sentinel, text)
  {
    PrefixesAgree(MapCase(fold, Trimmed(text)), MapCase(fold, sentinel));
    forall i | DiffersAt(fold, sentinel, text, i) ensures !SentinelPrefixPending(fold, sentinel, text) { }
    if !SentinelPrefixPending(fold, sentinel, text) {
      var trimmed, marker := MapCase(fold, Trimmed(text)), MapCase(fold, sentinel);
      var i :| 0 <= i < |trimmed| && i < |marker| && trimmed[i] != marker[i];
      assert DiffersAt(fold, sentinel, text, i);
    }
  }

  // ----- the guard on growing text -----

  lemma {:induction false} LStripIfGrows(drop: char -> bool, s: string, more: string)
    requires LStripIf(drop, s) != []
    ensures LStripIf(drop, s + more) == LStripIf(drop, s) + more
  {
    if drop(s[0]) {
      assert (s + more)[1..] == s[1..] + more;
      LStripIfGrows(drop, s[1..], more);
    }
  }

  lemma TrimmedGrows(accumulated: string, more: string)
    requires Trimmed(accumulated) != []
    ensures Trimmed(accumulated + more) == Trimmed(accumulated) + more
  {
    LStripIfGrows(IsSpace, accumulated, more);
    LStripIfGrows(IsQuote, LStrip(accumulated), more);
  }

  lemma PrefixOfExtension(before: string, more: string, marker: string)
    ensures before + more <= marker ==> before <= marker
    ensures marker <= before + more ==> marker <= before || before <= marker
  {
    var after := before + more;
    assert after[..|before|] == before;
    if |marker| <= |before| { assert after[..|marker|] == before[..|marker|]; }
  }

  /** Once the text cannot be the sentinel any more, nothing that follows brings it back. */
  lemma {:induction false} ReleasedStaysReleased(fold: CaseMapping, sentinel: string, accumulated: string, more: string)
    requires !SentinelPrefixPending(fold, sentinel, accumulated)
    ensures !SentinelPrefixPending(fold, sentinel, accumulated + more)
  {
    TrimmedGrows(accumulated, more);
    MapCaseConcat(fold, Trimmed(accumulated), more);
    PrefixOfExtension(MapCase(fold, Trimmed(accumulated)), MapCase(fold, more), MapCase(fold, sentinel));
  }

  lemma {:induction false} FoldedTailContains(fold: CaseMapping, lead: string, tail: string, sentinel: string)
    requires MapCase(fold, sentinel) <= MapCase(fold, tail)
    ensures IsInsufficientEvidence(fold, sentinel, lead + tail)
  {
    MapCaseConcat(fold, lead, tail);
    var l, m := MapCase(fold, lead), MapCase(fold, sentinel);
    assert MapCase(fold, lead + tail)[|l|..|l| + |m|] == m;
    assert ContainsAt(MapCase(fold, lead + tail), m, |l|);
  }

  /** Text that is still withheld is either shorter than the sentinel or already a refusal. */
  lemma {:induction false} PendingIsShortOrRefusal(fold: CaseMapping, sentinel: string, accumulated: string)
    requires SentinelPrefixPending(fold, sentinel, accumulated)
    ensures |MapCase(fold, Trimmed(accumulated))| < |MapCase(fold, sentinel)|
         || IsInsufficientEvidence(fold, sentinel, accumulated)
  {
    var i := LStripIfIsSuffix(IsSpace, accumulated);
    var j := LStripIfIsSuffix(IsQuote, accumulated[i..]);
    var lead := accumulated[..i + j];
    assert accumulated[i..][j..] == accumulated[i + j..];
    assert accumulated == lead + Trimmed(accumulated);
    if MapCase(fold, sentinel) <= MapCase(fold, Trimmed(accumulated)) {
      FoldedTailContains(fold, lead, Trimmed(accumulated), sentinel);
    } else {
      PrefixLength(MapCase(fold, Trimmed(accumulated)), MapCase(fold, sentinel));
    }
  }

  lemma PrefixLength(a: string, b: string)
    requires a <= b && !(b <= a)
    ensures |a| < |b|
  {
  }

  // ----- the relay -----

  function Concat(parts: seq<string>): string {
    if parts == [] then [] else Concat(parts[..|parts| - 1]) + parts[|parts| - 1]
  }

  lemma {:induction false} ConcatPrefix(fragments: seq<string>, k: nat)
    requires k <= |fragments|
    ensures Concat(fragments[..k]) <= Concat(fragments)
  {
    var n := |fragments| - 1;
    if k <= n {
      ConcatPrefix(fragments[..n], k);
      assert fragments[..n][..k] == fragments[..k];
    } else {
      assert fragments[..k] == fragments;
    }
  }

  /** An answer that is the sentinel, with or without anything behind it, is withheld at every
      point of the stream, however it was cut into fragments. */
  lemma {:induction false} RefusalNeverShown(fold: CaseMapping, sentinel: string, fragments: seq<string>, k: nat)
    requires k <= |fragments|
    requires MapCase(fold, sentinel) <= MapCase(fold, Trimmed(Concat(fragments)))
    ensures SentinelPrefixPending(fold, sentinel, Concat(fragments[..k]))
  {
    ConcatPrefix(fragments, k);
    var part, whole := Concat(fragments[..k]), Concat(fragments);
    assert whole == part + whole[|part|..];
    if !SentinelPrefixPending(fold, sentinel, part) {
      ReleasedStaysReleased(fold, sentinel, part, whole[|part|..]);
    }
  }

  /** The guard looks only at the start of an answer: behind any opening that already differs, the
      sentinel is a refusal and yet the answer is released. */
  lemma {:induction false} PrefixedRefusalIsShown(fold: CaseMapping, sentinel: string, opening: string, rest: string)
    requires !SentinelPrefixPending(fold, sentinel, opening)
    ensures IsInsufficientEvidence(fold, sentinel, opening + (sentinel + rest))
    ensures !SentinelPrefixPending(fold, sentinel, opening + (sentinel + rest))
  {
    ReleasedStaysReleased(fold, sentinel, opening, sentinel + rest);
    MapCaseConcat(fold, sentinel, rest);
    FoldedTailContains(fold, opening, sentinel + rest, sentinel);
  }

  /** What the reader sees of a text: all of it once it differs from the sentinel, until then nothing. */
  ghost function Visible(fold: CaseMapping, sentinel: string, text: string): string {
    if Diverges(fold, sentinel, text) then text else ""
  }

  /** The first `n` counts are right. */
  ghost predicate AllVisible(
    fold: CaseMapping, sentinel: string, fragments: seq<string>, deltas: seq<string>, counts: seq<nat>, n: nat)
    requires n <= |counts| && n <= |fragments| + 1
  {
    forall k | 0 <= k < n :: VisibleAt(fold, sentinel, fragments, deltas, counts[k], k)
  }

  ghost predicate VisibleAt(
    fold: CaseMapping, sentinel: string, fragments: seq<string>, deltas: seq<string>, count: nat, k: nat)
    requires k <= |fragments|
  {
    count <= |deltas| && Concat(deltas[..count]) == Visible(fold, sentinel, Concat(fragments[..k]))
  }

  lemma StillVisible(
      fold: CaseMapping, sentinel: string, fragments: seq<string>, deltas: seq<string>, counts: seq<nat>, count: nat,
      n: nat)
    requires n == |counts| <= |fragments| + 1 && AllVisible(fold, sentinel, fragments, deltas, counts, n)
    ensures AllVisible(fold, sentinel, fragments, deltas, counts + [count], n)
  {
    forall k | 0 <= k < n ensures VisibleAt(fold, sentinel, fragments, deltas, (counts + [count])[k], k) {
      assert VisibleAt(fold, sentinel, fragments, deltas, counts[k], k);
    }
  }

  /** What is out stays out as more is shown. */
  lemma StaysVisible(
      fold: CaseMapping, sentinel: string, fragments: seq<string>, shown: seq<string>, deltas: seq<string>,
      counts: seq<nat>, n: nat)
    requires n < |counts| && n <= |fragments| && shown <= deltas
    requires AllVisible(fold, sentinel, fragments, shown, counts, n)
    requires VisibleAt(fold, sentinel, fragments, deltas, counts[n], n)
    ensures AllVisible(fold, sentinel, fragments, deltas, counts, n + 1)
  {
    forall k | 0 <= k < n + 1 ensures VisibleAt(fold, sentinel, fragments, deltas, counts[k], k) {
      if k < n {
        assert VisibleAt(fold, sentinel, fragments, shown, counts[k], k);
        assert deltas[..counts[k]] == shown[..counts[k]];
      }
    }
  }

  /** The streaming loop: fragments are accumulated, and what has not been shown yet is released
      as soon as the text so far cannot be the sentinel. `deltas` is what the reader is shown, and
      `counts[k]` how many of them are out when `k` fragments have come. */
  method Relay(fold: CaseMapping, sentinel: string, fragments: seq<string>)
    returns (accumulated: string, deltas: seq<string>, ghost counts: seq<nat>)
    ensures accumulated == Concat(fragments)
    ensures Concat(deltas) == if Diverges(fold, sentinel, accumulated) then accumulated else ""
    ensures forall d | d in deltas :: d != []
    ensures |counts| == |fragments| + 1 && counts[|fragments|] == |deltas|
    ensures forall k | 0 <= k <= |fragments| ::
              counts[k] <= |deltas|
              && Concat(deltas[..counts[k]]) == Visible(fold, sentinel, Concat(fragments[..k]))
  {
    accumulated, deltas, counts := "", [], [0];
    var released := 0;
    PendingExactly(fold, sentinel, "");
    for k := 0 to |fragments|
      invariant accumulated == Concat(fragments[..k])
      invariant released == if SentinelPrefixPending(fold, sentinel, accumulated) then 0 else |accumulated|
      invariant Concat(deltas) == accumulated[..released]
      invariant forall d | d in deltas :: d != []
      invariant |counts| == k + 1 && counts[k] == |deltas|
      invariant AllVisible(fold, sentinel, fragments, deltas, counts, k + 1)
    {
      assert fragments[..k + 1][..k] == fragments[..k];
      ghost var before, shown := accumulated, deltas;
      accumulated := accumulated + fragments[k];
      PendingExactly(fold, sentinel, accumulated);
      if !SentinelPrefixPending(fold, sentinel, before) {
        ReleasedStaysReleased(fold, sentinel, before, fragments[k]);
      }
      if !SentinelPrefixPending(fold, sentinel, accumulated) {
        var pending := accumulated[released..];
        assert accumulated == before[..released] + pending;
        released := |accumulated|;
        if pending != [] {
          assert (deltas + [pending])[..|deltas|] == deltas;
          deltas := deltas + [pending];
        }
      }
      ghost var earlier := counts;
      counts := counts + [|deltas|];
      StillVisible(fold, sentinel, fragments, shown, earlier, |deltas|, k + 1);
      assert deltas[..|deltas|] == deltas;
      StaysVisible(fold, sentinel, fragments, shown, deltas, counts, k + 1);
    }
    assert fragments[..|fragments|] == fragments;
    PendingExactly(fold, sentinel, accumulated);
    forall k | 0 <= k <= |fragments|
      ensures counts[k] <= |deltas|
           && Concat(deltas[..counts[k]]) == Visible(fold, sentinel, Concat(fragments[..k]))
    {
      assert VisibleAt(fold, sentinel, fragments, deltas, counts[k], k);
    }
  }
}
