/** Fitting retrieved passages to the context budget: `fit_to_budget` and `clip_passage` of
    apps/api/core/rag.py, and `_fit_context` of apps/api/services/rag.py that applies them. */
module ContextBudget {
  import opened Text
  import opened Clipping

  const MIN_PASSAGE_CHARACTERS: nat := 200
  const ELLIPSIS: char := '\U{2026}'

  function Min(a: int, b: int): int { if a <= b then a else b }
  function Max(a: int, b: int): int { if a >= b then a else b }

  /** What a passage may take before the budget is looked at. */
  function Capped(length: int, maxPassage: int): nat {
    Max(0, Min(length, Max(0, maxPassage)))
  }

  /** The capped lengths of the first `i` passages, added up. */
  function Before(lengths: seq<int>, maxPassage: int, i: nat): nat
    requires i <= |lengths|
  {
    if i == 0 then 0 else Before(lengths, maxPassage, i - 1) + Capped(lengths[i - 1], maxPassage)
  }

  /** The closed form: a passage is kept whole if everything up to it fits, cut to what is left
      if that is enough to read, and dropped otherwise. */
  function Share(lengths: seq<int>, budget: int, maxPassage: int, i: nat): nat
    requires i < |lengths|
  {
    var room := Max(0, budget);
    if Before(lengths, maxPassage, i + 1) <= room then Capped(lengths[i], maxPassage)
    else if room - Before(lengths, maxPassage, i) >= MIN_PASSAGE_CHARACTERS then
      room - Before(lengths, maxPassage, i)
    else 0
  }

  function Shares(lengths: seq<int>, budget: int, maxPassage: int): (shares: seq<nat>)
    ensures |shares| == |lengths|
  {
    seq(|lengths|, i requires 0 <= i < |lengths| => Share(lengths, budget, maxPassage, i))
  }

  /** The lesser of a passage's length and the cap, and nothing where either is below zero. */
  function Wanted(length: int, cap: int): nat {
    if length <= 0 || cap <= 0 then 0 else if length <= cap then length else cap
  }

  function WantedBefore(lengths: seq<int>, cap: int, n: nat): nat
    requires n <= |lengths|
  {
    if n == 0 then 0 else WantedBefore(lengths, cap, n - 1) + Wanted(lengths[n - 1], cap)
  }

  lemma {:induction false} BeforeIsWanted(lengths: seq<int>, maxPassage: int, n: nat)
    requires n <= |lengths|
    ensures Before(lengths, maxPassage, n) == WantedBefore(lengths, maxPassage, n)
  {
    if n > 0 { BeforeIsWanted(lengths, maxPassage, n - 1); }
  }

  /** What one passage gets: all it wants if that fits with everything before it, and otherwise what is
      left, if that is at least 200 characters. */
  predicate FairAt(kept: nat, lengths: seq<int>, room: nat, cap: int, i: nat)
    requires i < |lengths|
  {
    && kept <= (if cap >= 0 then cap else 0) && (lengths[i] >= 0 ==> kept <= lengths[i])
    && kept == if WantedBefore(lengths, cap, i + 1) <= room then Wanted(lengths[i], cap)
               else if room >= WantedBefore(lengths, cap, i) + 200 then room - WantedBefore(lengths, cap, i)
               else 0
  }

  lemma ShareIsFair(lengths: seq<int>, budget: int, maxPassage: int, i: nat)
    requires i < |lengths|
    ensures FairAt(
              Share(lengths, budget, maxPassage, i), lengths, if budget >= 0 then budget else 0, maxPassage, i)
  {
    BeforeIsWanted(lengths, maxPassage, i);
    BeforeIsWanted(lengths, maxPassage, i + 1);
  }

  /** `fit_to_budget`: one pass over the lengths, spending `remaining`. */
  method FitToBudget(lengths: seq<int>, budget: int, maxPassage: int) returns (kept: seq<nat>)
    ensures kept == Shares(lengths, budget, maxPassage)
    ensures |kept| == |lengths|
    ensures forall i | 0 <= i < |lengths| ::
              FairAt(kept[i], lengths, if budget >= 0 then budget else 0, maxPassage, i)
  {
    var remaining := Max(0, budget);
    kept := [];
    for k := 0 to |lengths|
      invariant |kept| == k
      invariant remaining == Max(0, Max(0, budget) - Before(lengths, maxPassage, k))
      invariant forall i | 0 <= i < k :: kept[i] == Share(lengths, budget, maxPassage, i)
    {
      var allowance := Min(lengths[k], Max(0, maxPassage));
      if allowance <= 0 {
        kept := kept + [0];
      } else if allowance <= remaining {
        kept := kept + [allowance];
        remaining := remaining - allowance;
      } else if remaining >= MIN_PASSAGE_CHARACTERS {
        kept := kept + [remaining];
        remaining := 0;
      } else {
        kept := kept + [0];
        remaining := 0;
      }
    }
    forall i | 0 <= i < |lengths|
      ensures FairAt(kept[i], lengths, if budget >= 0 then budget else 0, maxPassage, i)
    {
      ShareIsFair(lengths, budget, maxPassage, i);
    }
  }

  // ----- what the budget guarantees -----

  function Spent(lengths: seq<int>, budget: int, maxPassage: int, n: nat): nat
    requires n <= |lengths|
  {
    if n == 0 then 0
    else Spent(lengths, budget, maxPassage, n - 1) + Share(lengths, budget, maxPassage, n - 1)
  }

  /** The budget is never exceeded, everything is kept when it fits, and fewer than 200 characters
      go unused when it does not. */
  lemma {:induction false} BudgetIsUsed(lengths: seq<int>, budget: int, maxPassage: int, n: nat)
    requires n <= |lengths|
    ensures var room, spent := Max(0, budget), Spent(lengths, budget, maxPassage, n);
            && spent <= room
            && (Before(lengths, maxPassage, n) <= room ==> spent == Before(lengths, maxPassage, n))
            && (Before(lengths, maxPassage, n) > room ==> room - spent < MIN_PASSAGE_CHARACTERS)
  {
    if n > 0 { BudgetIsUsed(lengths, budget, maxPassage, n - 1); }
  }

  lemma {:induction false} BeforeMonotone(lengths: seq<int>, maxPassage: int, i: nat, j: nat)
    requires i <= j <= |lengths|
    ensures Before(lengths, maxPassage, i) <= Before(lengths, maxPassage, j)
    decreases j
  {
    if i < j { BeforeMonotone(lengths, maxPassage, i, j - 1); }
  }

  /** Relevance order wins over length: behind a passage that was cut or dropped, none is kept. */
  lemma NothingAfterTheCut(lengths: seq<int>, budget: int, maxPassage: int, i: nat, j: nat)
    requires i < j < |lengths|
    requires Share(lengths, budget, maxPassage, i) < Capped(lengths[i], maxPassage)
    ensures Share(lengths, budget, maxPassage, j) == 0
  {
    BeforeMonotone(lengths, maxPassage, i + 1, j);
    BeforeMonotone(lengths, maxPassage, j, j + 1);
  }

  /** A larger budget takes nothing away from any passage. */
  lemma ShareMonotone(lengths: seq<int>, small: int, large: int, maxPassage: int, i: nat)
    requires i < |lengths| && small <= large
    ensures Share(lengths, small, maxPassage, i) <= Share(lengths, large, maxPassage, i)
  {
    BeforeMonotone(lengths, maxPassage, i, i + 1);
  }

  lemma {:induction false} BeforeLocal(lengths: seq<int>, more: seq<int>, maxPassage: int, i: nat)
    requires i <= |lengths|
    ensures Before(lengths + more, maxPassage, i) == Before(lengths, maxPassage, i)
  {
    if i > 0 { BeforeLocal(lengths, more, maxPassage, i - 1); }
  }

  /** Passages of lower relevance never change what the ones before them get. */
  lemma ShareLocal(lengths: seq<int>, more: seq<int>, budget: int, maxPassage: int, i: nat)
    requires i < |lengths|
    ensures Share(lengths + more, budget, maxPassage, i) == Share(lengths, budget, maxPassage, i)
  {
    BeforeLocal(lengths, more, maxPassage, i);
    BeforeLocal(lengths, more, maxPassage, i + 1);
  }

  // ----- clipping one passage -----

  /** `clip_passage`. */
  function ClipPassage(text: string, budget: int): string {
    if budget <= 0 || |text| <= budget then text else CutAtWord(text, budget) + [ELLIPSIS]
  }

  /** Exactly when a clipped passage is longer than its budget, by the ellipsis: the cut falls
      behind a character that is no whitespace, with no space in the last quarter. */
  lemma ClipOverrunsExactly(text: string, budget: int)
    requires 0 < budget < |text|
    ensures |ClipPassage(text, budget)| <= budget + 1
    ensures |ClipPassage(text, budget)| > budget
       <==> !IsSpace(text[budget - 1]) && NoLateSpace(text, budget)
  {
    var j := CutIsPrefix(text, budget);
  }

  lemma OverrunExample()
    ensures |ClipPassage("abc", 2)| == 3
  {
    ClipOverrunsExactly("abc", 2);
  }

  // ----- fitting the passages themselves -----

  function Lengths(passages: seq<string>): (lengths: seq<int>)
    ensures |lengths| == |passages| && forall i | 0 <= i < |passages| :: lengths[i] == |passages[i]|
  {
    seq(|passages|, i requires 0 <= i < |passages| => |passages[i]|)
  }

  function Clipped(passage: string, allowance: nat): string {
    if allowance >= |passage| then passage else ClipPassage(passage, allowance)
  }

  /** The texts kept among the first `n` candidates, in relevance order. */
  function Fitted(candidates: seq<string>, allowances: seq<nat>, n: nat): seq<string>
    requires n <= |candidates| == |allowances|
  {
    if n == 0 then []
    else if allowances[n - 1] == 0 then Fitted(candidates, allowances, n - 1)
    else Fitted(candidates, allowances, n - 1) + [Clipped(candidates[n - 1], allowances[n - 1])]
  }

  /** How many of the first `n` candidates are kept shortened. */
  function ClippedCount(candidates: seq<string>, allowances: seq<nat>, n: nat): nat
    requires n <= |candidates| == |allowances|
  {
    if n == 0 then 0
    else ClippedCount(candidates, allowances, n - 1) + if 0 < allowances[n - 1] < |candidates[n - 1]| then 1 else 0
  }

  function Shortened(candidates: seq<string>, allowances: seq<nat>, n: nat): set<nat>
    requires n <= |candidates| == |allowances|
  {
    set k: nat | k < n && 0 < allowances[k] < |candidates[k]|
  }

  lemma {:induction false} ClippedCountExactly(candidates: seq<string>, allowances: seq<nat>, n: nat)
    requires n <= |candidates| == |allowances|
    ensures ClippedCount(candidates, allowances, n) == |Shortened(candidates, allowances, n)|
  {
    if n > 0 {
      ClippedCountExactly(candidates, allowances, n - 1);
      var before, now := Shortened(candidates, allowances, n - 1), Shortened(candidates, allowances, n);
      assert now == if 0 < allowances[n - 1] < |candidates[n - 1]| then before + {n - 1} else before;
    }
  }

  function TotalCharacters(texts: seq<string>): nat {
    if texts == [] then 0 else TotalCharacters(texts[..|texts| - 1]) + |texts[|texts| - 1]|
  }

  lemma TotalAppend(texts: seq<string>, text: string)
    ensures TotalCharacters(texts + [text]) == TotalCharacters(texts) + |text|
  {
    assert (texts + [text])[..|texts|] == texts;
  }

  function Allowances(candidates: seq<string>, budget: int, maxPassage: int): (allowances: seq<nat>)
    ensures |allowances| == |candidates|
  {
    Shares(Lengths(candidates), budget, maxPassage)
  }

  lemma ClippedWithin(passage: string, allowance: nat)
    requires allowance > 0
    ensures |Clipped(passage, allowance)| <= allowance + if allowance < |passage| then 1 else 0
  {
    if allowance < |passage| { ClipOverrunsExactly(passage, allowance); }
  }

  function Sum(amounts: seq<nat>, n: nat): nat
    requires n <= |amounts|
  {
    if n == 0 then 0 else Sum(amounts, n - 1) + amounts[n - 1]
  }

  lemma {:induction false} SpentIsSum(lengths: seq<int>, budget: int, maxPassage: int, n: nat)
    requires n <= |lengths|
    ensures Spent(lengths, budget, maxPassage, n) == Sum(Shares(lengths, budget, maxPassage), n)
  {
    if n > 0 { SpentIsSum(lengths, budget, maxPassage, n - 1); }
  }

  lemma {:induction false} FittedWithin(candidates: seq<string>, allowances: seq<nat>, n: nat)
    requires n <= |candidates| == |allowances|
    ensures TotalCharacters(Fitted(candidates, allowances, n))
         <= Sum(allowances, n) + ClippedCount(candidates, allowances, n)
  {
    if n > 0 {
      FittedWithin(candidates, allowances, n - 1);
      if allowances[n - 1] > 0 {
        TotalAppend(Fitted(candidates, allowances, n - 1), Clipped(candidates[n - 1], allowances[n - 1]));
        ClippedWithin(candidates[n - 1], allowances[n - 1]);
      }
    }
  }

  /** The prompt's evidence never exceeds the context budget by more than one ellipsis for each
      shortened passage. */
  lemma {:induction false} EvidenceWithinBudget(candidates: seq<string>, budget: int, maxPassage: int)
    ensures var allowances := Allowances(candidates, budget, maxPassage);
            TotalCharacters(Fitted(candidates, allowances, |candidates|))
            <= Max(0, budget) + ClippedCount(candidates, allowances, |candidates|)
  {
    FittedWithin(candidates, Allowances(candidates, budget, maxPassage), |candidates|);
    SpentIsSum(Lengths(candidates), budget, maxPassage, |candidates|);
    BudgetIsUsed(Lengths(candidates), budget, maxPassage, |candidates|);
  }

  /** Each of the first `n` candidates is kept, and kept as it was. */
  predicate AllWhole(candidates: seq<string>, allowances: seq<nat>, n: nat)
    requires n <= |candidates| == |allowances|
  {
    n == 0 || (AllWhole(candidates, allowances, n - 1) && allowances[n - 1] > 0
               && Clipped(candidates[n - 1], allowances[n - 1]) == candidates[n - 1])
  }

  lemma SnocInjective(a: seq<string>, x: string, b: seq<string>, y: string)
    ensures a + [x] == b + [y] <==> a == b && x == y
  {
    if a + [x] == b + [y] {
      assert (a + [x])[..|a|] == a && (b + [y])[..|b|] == b;
      assert (a + [x])[|a|] == x && (b + [y])[|b|] == y;
    }
  }

  lemma {:induction false} FittedWhole(candidates: seq<string>, allowances: seq<nat>, n: nat)
    requires n <= |candidates| == |allowances|
    ensures |Fitted(candidates, allowances, n)| <= n
    ensures Fitted(candidates, allowances, n) == candidates[..n] <==> AllWhole(candidates, allowances, n)
  {
    if n > 0 {
      FittedWhole(candidates, allowances, n - 1);
      assert candidates[..n] == candidates[..n - 1] + [candidates[n - 1]];
      if allowances[n - 1] > 0 {
        SnocInjective(Fitted(candidates, allowances, n - 1), Clipped(candidates[n - 1], allowances[n - 1]),
                      candidates[..n - 1], candidates[n - 1]);
      }
    }
  }

  function FittedLength(candidates: seq<string>, allowances: seq<nat>, n: nat): nat
    requires n <= |candidates| == |allowances|
  {
    if n == 0 then 0
    else if allowances[n - 1] == 0 then FittedLength(candidates, allowances, n - 1)
    else FittedLength(candidates, allowances, n - 1) + |Clipped(candidates[n - 1], allowances[n - 1])|
  }

  lemma {:induction false} FittedLengthIsTotal(candidates: seq<string>, allowances: seq<nat>, n: nat)
    requires n <= |candidates| == |allowances|
    ensures FittedLength(candidates, allowances, n) == TotalCharacters(Fitted(candidates, allowances, n))
  {
    if n > 0 {
      FittedLengthIsTotal(candidates, allowances, n - 1);
      if allowances[n - 1] > 0 {
        TotalAppend(Fitted(candidates, allowances, n - 1), Clipped(candidates[n - 1], allowances[n - 1]));
      }
    }
  }

  function Candidates(passages: seq<string>, maxCitations: int): seq<string> {
    passages[..Min(|passages|, Max(1, maxCitations))]
  }

  lemma NothingMissing(passages: seq<string>, maxCitations: int, allowances: seq<nat>)
    requires |allowances| == |Candidates(passages, maxCitations)|
    ensures var candidates := Candidates(passages, maxCitations);
            Fitted(candidates, allowances, |candidates|) == passages
            <==> |candidates| == |passages| && AllWhole(candidates, allowances, |candidates|)
  {
    var candidates := Candidates(passages, maxCitations);
    FittedWhole(candidates, allowances, |candidates|);
    assert candidates[..|candidates|] == candidates;
  }

  /** The loop of `_fit_context` over the candidates and their allowances. */
  method KeepWithin(candidates: seq<string>, allowances: seq<nat>)
    returns (kept: seq<string>, characters: nat, truncated: bool)
    requires |allowances| == |candidates|
    ensures kept == Fitted(candidates, allowances, |candidates|)
    ensures characters == FittedLength(candidates, allowances, |candidates|)
    ensures truncated <==> !AllWhole(candidates, allowances, |candidates|)
  {
    kept, characters, truncated := [], 0, false;
    for k := 0 to |candidates|
      invariant kept == Fitted(candidates, allowances, k)
      invariant characters == FittedLength(candidates, allowances, k)
      invariant truncated <==> !AllWhole(candidates, allowances, k)
    {
      var passage, allowance := candidates[k], allowances[k];
      if allowance <= 0 {
        truncated := true;
      } else {
        var text := Clipped(passage, allowance);
        if text != passage {
          truncated := true;
        }
        kept := kept + [text];
        characters := characters + |text|;
      }
    }
  }

  /** `text` is the passage, or a beginning of it no longer than its share and an ellipsis. */
  ghost predicate TakenFrom(text: string, passage: string, share: nat) {
    || (text == passage && share >= |passage|)
    || exists j | 0 <= j <= |passage| && j <= share :: text == passage[..j] + ['\U{2026}']
  }

  predicate ChosenIfShare(chosen: seq<nat>, allowances: seq<nat>, i: nat)
    requires i < |allowances|
  {
    i in chosen <==> allowances[i] > 0
  }

  /** Which candidates the kept texts are: in order, those with a share. */
  predicate Chosen(chosen: seq<nat>, allowances: seq<nat>, n: nat)
    requires n <= |allowances|
  {
    && (forall k | 0 <= k < |chosen| :: chosen[k] < n)
    && (forall k, m | 0 <= k < m < |chosen| :: chosen[k] < chosen[m])
    && (forall i | 0 <= i < n :: ChosenIfShare(chosen, allowances, i))
  }

  lemma ClippedFrom(passage: string, allowance: nat)
    requires allowance > 0
    ensures TakenFrom(Clipped(passage, allowance), passage, allowance)
  {
    if allowance < |passage| {
      var j := CutIsPrefix(passage, allowance);
      assert Clipped(passage, allowance) == passage[..j] + ['\U{2026}'];
    }
  }

  lemma ChosenStep(chosen: seq<nat>, next: seq<nat>, allowances: seq<nat>, n: nat)
    requires 0 < n <= |allowances| && Chosen(chosen, allowances, n - 1)
    requires next == if allowances[n - 1] == 0 then chosen else chosen + [n - 1]
    ensures Chosen(next, allowances, n)
  {
    forall i | 0 <= i < n ensures ChosenIfShare(next, allowances, i) {
      if i < n - 1 { assert ChosenIfShare(chosen, allowances, i); }
    }
  }

  /** The kept texts are the chosen candidates, each whole or cut within its share. */
  ghost predicate EachTaken(kept: seq<string>, candidates: seq<string>, shares: seq<nat>, chosen: seq<nat>) {
    && |kept| == |chosen| && |shares| == |candidates|
    && forall k | 0 <= k < |kept| ::
         chosen[k] < |candidates| && TakenFrom(kept[k], candidates[chosen[k]], shares[chosen[k]])
  }

  lemma EachTakenSnoc(
      kept: seq<string>, text: string, candidates: seq<string>, shares: seq<nat>, chosen: seq<nat>, i: nat)
    requires EachTaken(kept, candidates, shares, chosen) && i < |candidates|
    requires TakenFrom(text, candidates[i], shares[i])
    ensures EachTaken(kept + [text], candidates, shares, chosen + [i])
  {
    forall k | 0 <= k < |kept| + 1
      ensures var m := (chosen + [i])[k]; m < |candidates| && TakenFrom((kept + [text])[k], candidates[m], shares[m])
    {
      if k < |kept| { assert TakenFrom(kept[k], candidates[chosen[k]], shares[chosen[k]]); }
    }
  }

  function WithShare(allowances: seq<nat>, n: nat): seq<nat>
    requires n <= |allowances|
  {
    if n == 0 then []
    else if allowances[n - 1] == 0 then WithShare(allowances, n - 1)
    else WithShare(allowances, n - 1) + [n - 1]
  }

  lemma {:induction false} WithShareIsChosen(allowances: seq<nat>, n: nat)
    requires n <= |allowances|
    ensures Chosen(WithShare(allowances, n), allowances, n)
  {
    if n > 0 {
      WithShareIsChosen(allowances, n - 1);
      ChosenStep(WithShare(allowances, n - 1), WithShare(allowances, n), allowances, n);
    }
  }

  lemma {:induction false} FittedIsTaken(candidates: seq<string>, allowances: seq<nat>, n: nat)
    requires n <= |candidates| == |allowances|
    ensures EachTaken(Fitted(candidates, allowances, n), candidates, allowances, WithShare(allowances, n))
  {
    if n > 0 {
      FittedIsTaken(candidates, allowances, n - 1);
      if allowances[n - 1] > 0 {
        ClippedFrom(candidates[n - 1], allowances[n - 1]);
        EachTakenSnoc(Fitted(candidates, allowances, n - 1), Clipped(candidates[n - 1], allowances[n - 1]), candidates,
                      allowances, WithShare(allowances, n - 1), n - 1);
      }
    }
  }

  ghost predicate AllFair(shares: seq<nat>, lengths: seq<int>, room: nat, cap: int) {
    |shares| == |lengths| && forall i | 0 <= i < |lengths| :: FairAt(shares[i], lengths, room, cap, i)
  }

  lemma SharesAreFair(lengths: seq<int>, budget: int, maxPassage: int)
    ensures AllFair(Shares(lengths, budget, maxPassage), lengths, if budget >= 0 then budget else 0, maxPassage)
  {
    forall i | 0 <= i < |lengths|
      ensures FairAt(Shares(lengths, budget, maxPassage)[i], lengths, if budget >= 0 then budget else 0, maxPassage, i)
    {
      ShareIsFair(lengths, budget, maxPassage, i);
    }
  }

  ghost predicate AllTaken(kept: seq<string>, candidates: seq<string>, shares: seq<nat>, chosen: seq<nat>) {
    EachTaken(kept, candidates, shares, chosen) && Chosen(chosen, shares, |candidates|)
  }

  lemma {:induction false} IncreasingCount(chosen: seq<nat>, n: nat)
    requires forall k | 0 <= k < |chosen| :: chosen[k] < n
    requires forall k, m | 0 <= k < m < |chosen| :: chosen[k] < chosen[m]
    ensures |chosen| <= n
  {
    if chosen != [] {
      var last := |chosen| - 1;
      IncreasingCount(chosen[..last], chosen[last]);
    }
  }

  /** The texts kept. */
  function Evidence(passages: seq<string>, maxCitations: int, budget: int, maxPassage: int): seq<string> {
    var candidates := Candidates(passages, maxCitations);
    Fitted(candidates, Allowances(candidates, budget, maxPassage), |candidates|)
  }

  /** The evidence of a prompt: of the first `maxCitations` passages, at least one, those with a share,
      each whole or cut within its share, the shares being fair. */
  lemma EvidenceExactly(passages: seq<string>, maxCitations: int, budget: int, maxPassage: int)
    returns (shares: seq<nat>, chosen: seq<nat>)
    ensures var n := if maxCitations < 1 then 1 else maxCitations;
            var first := if n <= |passages| then passages[..n] else passages;
            && AllFair(shares, Lengths(first), if budget >= 0 then budget else 0, maxPassage)
            && AllTaken(Evidence(passages, maxCitations, budget, maxPassage), first, shares, chosen)
  {
    var first := Candidates(passages, maxCitations);
    assert |first| == |passages| ==> first == passages;
    shares := Allowances(first, budget, maxPassage);
    SharesAreFair(Lengths(first), budget, maxPassage);
    chosen := WithShare(shares, |first|);
    WithShareIsChosen(shares, |first|);
    FittedIsTaken(first, shares, |first|);
  }

  /** No text is more than the ellipsis above the passage cap. */
  lemma TakenWithinCap(
      kept: seq<string>, candidates: seq<string>, shares: seq<nat>, chosen: seq<nat>, room: nat, cap: int, k: nat)
    requires AllTaken(kept, candidates, shares, chosen) && AllFair(shares, Lengths(candidates), room, cap)
    requires k < |kept|
    ensures |kept[k]| <= cap + 1
  {
    assert TakenFrom(kept[k], candidates[chosen[k]], shares[chosen[k]]);
    assert chosen[k] in chosen && ChosenIfShare(chosen, shares, chosen[k]);
    assert FairAt(shares[chosen[k]], Lengths(candidates), room, cap, chosen[k]);
  }

  lemma EvidenceBounds(passages: seq<string>, maxCitations: int, budget: int, maxPassage: int)
    ensures var kept := Evidence(passages, maxCitations, budget, maxPassage);
            && |kept| <= (if maxCitations < 1 then 1 else maxCitations)
            && forall k | 0 <= k < |kept| :: |kept[k]| <= maxPassage + 1
  {
    var kept := Evidence(passages, maxCitations, budget, maxPassage);
    var n := if maxCitations < 1 then 1 else maxCitations;
    var first := if n <= |passages| then passages[..n] else passages;
    var shares, chosen := EvidenceExactly(passages, maxCitations, budget, maxPassage);
    forall k | 0 <= k < |kept| ensures |kept[k]| <= maxPassage + 1 {
      TakenWithinCap(kept, first, shares, chosen, if budget >= 0 then budget else 0, maxPassage, k);
    }
    IncreasingCount(chosen, |first|);
  }

  /** `_fit_context`: the texts placed in the prompt, their total length, and whether anything of
      what was retrieved is missing from them. */
  method FitContext(passages: seq<string>, maxCitations: int, budget: int, maxPassage: int)
    returns (kept: seq<string>, characters: nat, truncated: bool)
    ensures kept == Evidence(passages, maxCitations, budget, maxPassage)
    ensures characters == TotalCharacters(kept)
    ensures truncated <==> kept != passages
    ensures |kept| <= (if maxCitations < 1 then 1 else maxCitations)
    ensures forall k | 0 <= k < |kept| :: |kept[k]| <= maxPassage + 1
  {
    var candidates := Candidates(passages, maxCitations);
    var allowances := FitToBudget(Lengths(candidates), budget, maxPassage);
    kept, characters, truncated := KeepWithin(candidates, allowances);
    truncated := truncated || |candidates| < |passages|;
    FittedLengthIsTotal(candidates, allowances, |candidates|);
    NothingMissing(passages, maxCitations, allowances);
    EvidenceBounds(passages, maxCitations, budget, maxPassage);
  }
}
