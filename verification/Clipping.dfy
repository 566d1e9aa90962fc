/** Shortening a text at a word boundary: the rule shared by `clip_passage` (apps/api/core/rag.py) and
    `_clip` (apps/api/core/assistant.py). */
module Clipping {
  import opened Text

  /** `s.rfind(c)`. */
  function LastIndex(s: string, c: char): (at: int)
    ensures -1 <= at < |s|
    ensures at >= 0 ==> s[at] == c
    ensures forall k | at < k < |s| :: s[k] != c
  {
    if s == [] then -1
    else if s[|s| - 1] == c then |s| - 1
    else LastIndex(s[..|s| - 1], c)
  }

  /** The text cut to the budget, back to the last space if that keeps most of it. */
  function CutAtWord(text: string, budget: int): string
    requires 0 < budget < |text|
  {
    var clipped := text[..budget];
    var boundary := LastIndex(clipped, ' ');
    RStrip(if boundary > budget * 3 / 4 then clipped[..boundary] else clipped)
  }

  /** The last quarter of the budget holds no space to cut at. */
  predicate NoLateSpace(text: string, budget: int)
    requires 0 < budget < |text|
  {
    forall k | budget * 3 / 4 < k < budget :: text[k] != ' '
  }

  /** The cut text is a beginning of the text without trailing whitespace. It ends between words
      unless there is no late space, and uses the budget up exactly when there is none and the
      budget ends behind a character that is no whitespace. */
  lemma CutIsPrefix(text: string, budget: int) returns (j: nat)
    requires 0 < budget < |text|
    ensures j <= budget && CutAtWord(text, budget) == text[..j]
    ensures j > 0 ==> !IsSpace(text[j - 1])
    ensures IsSpace(text[j]) || NoLateSpace(text, budget)
    ensures j == budget <==> !IsSpace(text[budget - 1]) && NoLateSpace(text, budget)
  {
    var clipped := text[..budget];
    var boundary := LastIndex(clipped, ' ');
    var end := if boundary > budget * 3 / 4 then boundary else budget;
    assert clipped[..budget] == clipped;
    j := RStripIfIsPrefix(IsSpace, clipped[..end]);
    assert clipped[..end][..j] == text[..j];
    if j > 0 { assert clipped[..end][j - 1] == text[j - 1]; }
    if j < end { assert clipped[..end][j] == text[j] && clipped[..end][end - 1] == text[end - 1]; }
    if end == boundary {
      assert text[boundary] == clipped[boundary] == ' ';
    } else {
      forall k | budget * 3 / 4 < k < budget ensures text[k] != ' ' {
        assert clipped[k] == text[k];
      }
    }
  }

  /** Where exactly the cut falls: at the last space of the budget if that lies in its last quarter,
      else at its end, and before any whitespace there. */
  lemma CutExactly(text: string, budget: int) returns (end: nat, j: nat)
    requires 0 < budget < |text|
    ensures j <= end <= budget && CutAtWord(text, budget) == text[..j]
    ensures (forall k | j <= k < end :: IsSpace(text[k])) && (j > 0 ==> !IsSpace(text[j - 1]))
    ensures if end < budget
            then text[end] == ' ' && end > budget * 3 / 4 && forall k | end < k < budget :: text[k] != ' '
            else NoLateSpace(text, budget)
  {
    var clipped := text[..budget];
    var boundary := LastIndex(clipped, ' ');
    end := if boundary > budget * 3 / 4 then boundary else budget;
    assert clipped[..budget] == clipped;
    j := RStripIfIsPrefix(IsSpace, clipped[..end]);
    assert clipped[..end][..j] == text[..j];
    forall k | j <= k < end ensures IsSpace(text[k]) { assert clipped[..end][k] == text[k]; }
    if j > 0 { assert clipped[..end][j - 1] == text[j - 1]; }
    forall k | end < k < budget && boundary > budget * 3 / 4 ensures text[k] != ' ' { assert clipped[k] == text[k]; }
    if end == budget && boundary <= budget * 3 / 4 {
      forall k | budget * 3 / 4 < k < budget ensures text[k] != ' ' { assert clipped[k] == text[k]; }
    }
  }
}
