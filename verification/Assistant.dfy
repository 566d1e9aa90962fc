/** The assistant's handling of conversations (apps/api/core/assistant.py): follow-up questions
    resolved against the history, suggested next questions, and titles. */
module Assistant {
  import opened Text
  import opened Clipping
  import opened Queries

  // ----- follow-up questions -----

  const FOLLOWUP_QUESTION_MAX_LENGTH: nat := 90

  datatype ResolvedQuestion = ResolvedQuestion(text: string, turns: nat)

  function ContextPreamble(language: string): string {
    if language == "ar" then "في سياق"
    else if language == "en" then "Following on from"
    else "Dans la continuité de"
  }

  function ContextQuestionLabel(language: string): string {
    if language == "ar" then "السؤال" else "Question"
  }

  predicate IsFollowupQuestion(question: string) {
    |Strip(question)| <= FOLLOWUP_QUESTION_MAX_LENGTH
  }

  /** `list(history)[-turns:]`, normalised. */
  function RecentQuestions(tables: CharTables, history: seq<string>, turns: int): seq<string> {
    var window := if 0 <= turns <= |history| then history[|history| - turns..] else history;
    seq(|window|, i requires 0 <= i < |window| => NormalizeQuery(tables, window[i]))
  }

  function TotalLength(texts: seq<string>): nat {
    if texts == [] then 0 else |texts[0]| + TotalLength(texts[1..])
  }

  /** The last `k` questions are all there and together within the character budget. */
  predicate Carriable(recent: seq<string>, k: nat, budget: int) {
    && k <= |recent|
    && (forall i | |recent| - k <= i < |recent| :: recent[i] != [])
    && TotalLength(recent[|recent| - k..]) <= budget
  }

  /** `k` is the length of the longest block of most recent questions that can be carried. */
  ghost predicate LongestCarriable(recent: seq<string>, k: nat, budget: int) {
    Carriable(recent, k, budget) && forall j: nat | Carriable(recent, j, budget) :: j <= k
  }

  function Reversed(s: seq<string>): seq<string> {
    if s == [] then [] else Reversed(s[1..]) + [s[0]]
  }

  function Rewritten(language: string, carried: seq<string>, asked: string): string {
    ContextPreamble(language) + " : " + Join(' ', carried) + "\n" + ContextQuestionLabel(language) + " : " + asked
  }

  /** The question as asked, or with the last `k` recent ones before it. */
  function Resolution(recent: seq<string>, k: nat, language: string, asked: string): ResolvedQuestion
    requires k <= |recent|
  {
    if k == 0 then ResolvedQuestion(asked, 0)
    else ResolvedQuestion(Rewritten(language, recent[|recent| - k..], asked), k)
  }

  lemma {:induction false} ReversedSnoc(s: seq<string>, x: string)
    ensures Reversed(s + [x]) == [x] + Reversed(s)
  {
    if s == [] {
      assert [] + [x] == [x] && [x][1..] == [];
    } else {
      assert (s + [x])[1..] == s[1..] + [x];
      ReversedSnoc(s[1..], x);
    }
  }

  /** A block that cannot be carried cannot be carried as part of a longer one. */
  lemma CarriableShorter(recent: seq<string>, j: nat, k: nat, budget: int)
    requires j <= k && Carriable(recent, k, budget)
    ensures Carriable(recent, j, budget)
  {
    TotalLengthSuffix(recent[|recent| - k..], k - j);
    assert recent[|recent| - k..][k - j..] == recent[|recent| - j..];
  }

  lemma {:induction false} TotalLengthSuffix(texts: seq<string>, k: nat)
    requires k <= |texts|
    ensures TotalLength(texts[k..]) <= TotalLength(texts)
  {
    if k > 0 {
      TotalLengthSuffix(texts[1..], k - 1);
      assert texts[1..][k - 1..] == texts[k..];
    }
  }

  // ----- what a resolved question says -----

  predicate StartsWith(s: string, start: string) { |start| <= |s| && s[..|start|] == start }

  predicate EndsWith(s: string, end: string) { |end| <= |s| && s[|s| - |end|..] == end }

  /** The last `turns` entries of a history, normalised, oldest first. */
  function LastNormalised(tables: CharTables, history: seq<string>, turns: nat): (texts: seq<string>)
    requires turns <= |history|
    ensures |texts| == turns
    ensures forall i | 0 <= i < turns :: texts[i] == NormalizeQuery(tables, history[|history| - turns + i])
  {
    seq(turns, i requires 0 <= i < turns => NormalizeQuery(tables, history[|history| - turns + i]))
  }

  /** A first line that names the earlier questions, and a second that asks the one at hand. */
  predicate FollowsOn(
    tables: CharTables, text: string, question: string, history: seq<string>, turns: nat, preamble: string,
    heading: string)
  {
    && turns <= |history|
    && exists cut | 0 <= cut < |text| :: FollowsOnAt(tables, text, cut, question, history, turns, preamble, heading)
  }

  predicate FollowsOnAt(
    tables: CharTables, text: string, cut: nat, question: string, history: seq<string>, turns: nat,
    preamble: string, heading: string)
    requires cut < |text| && turns <= |history|
  {
    var first, second := text[..cut], text[cut + 1..];
    var carried := Join(' ', LastNormalised(tables, history, turns));
    && text[cut] == '\n'
    && |first| == |preamble| + 3 + |carried| && StartsWith(first, preamble + " : ") && EndsWith(first, carried)
    && second == heading + " : " + Strip(question)
  }

  /** In Arabic, in English, and in French for every other language. */
  predicate FollowsOnIn(
    tables: CharTables, text: string, question: string, history: seq<string>, turns: nat, language: string)
  {
    if language == "ar" then FollowsOn(tables, text, question, history, turns, "في سياق", "السؤال")
    else if language == "en" then FollowsOn(tables, text, question, history, turns, "Following on from", "Question")
    else FollowsOn(tables, text, question, history, turns, "Dans la continuité de", "Question")
  }

  lemma RewrittenFollowsOn(tables: CharTables, question: string, history: seq<string>, turns: nat, language: string)
    requires turns <= |history|
    ensures FollowsOnIn(
              tables, Rewritten(language, LastNormalised(tables, history, turns), Strip(question)), question, history,
              turns, language)
  {
    var preamble, heading := ContextPreamble(language), ContextQuestionLabel(language);
    TwoLines(tables, question, history, turns, preamble, heading);
  }

  lemma RecentIsWindow(tables: CharTables, history: seq<string>, maxTurns: int)
    requires maxTurns > 0
    ensures RecentQuestions(tables, history, maxTurns)
         == LastNormalised(tables, history, if maxTurns <= |history| then maxTurns else |history|)
  {
  }

  lemma CarriedFollowsOn(
      tables: CharTables, question: string, history: seq<string>, maxTurns: int, k: nat, language: string)
    requires maxTurns > 0 && k <= |RecentQuestions(tables, history, maxTurns)|
    ensures var recent := RecentQuestions(tables, history, maxTurns);
            FollowsOnIn(
              tables, Rewritten(language, recent[|recent| - k..], Strip(question)), question, history, k, language)
  {
    var recent := RecentQuestions(tables, history, maxTurns);
    assert recent[|recent| - k..] == LastNormalised(tables, history, k);
    RewrittenFollowsOn(tables, question, history, k, language);
  }

  lemma TwoLines(
      tables: CharTables, question: string, history: seq<string>, turns: nat, preamble: string, heading: string)
    requires turns <= |history|
    ensures FollowsOn(
              tables,
              preamble + " : " + Join(' ', LastNormalised(tables, history, turns)) + "\n" + heading + " : "
              + Strip(question),
              question, history, turns, preamble, heading)
  {
    var carried, asked := Join(' ', LastNormalised(tables, history, turns)), Strip(question);
    var first, second := preamble + " : " + carried, heading + " : " + asked;
    var text := preamble + " : " + carried + "\n" + heading + " : " + asked;
    assert text == first + "\n" + second;
    assert text[..|first|] == first && text[|first| + 1..] == second && text[|first|] == '\n';
    assert first[..|preamble| + 3] == preamble + " : " && first[|first| - |carried|..] == carried;
    assert FollowsOnAt(tables, text, |first|, question, history, turns, preamble, heading);
  }

  /** `resolve_question`: a short question is prefixed with the questions it may refer to, the
      nearest ones that fit both budgets, in the order they were asked. */
  method ResolveQuestion(tables: CharTables, question: string, history: seq<string>, language: string,
                         maxTurns: int, maxCharacters: int)
    returns (resolved: ResolvedQuestion)
    ensures if maxTurns > 0 && maxCharacters > 0 && |Strip(question)| <= 90
            then var window := if maxTurns <= |history| then maxTurns else |history|;
                 LongestCarriable(LastNormalised(tables, history, window), resolved.turns, maxCharacters)
            else resolved.turns == 0
    ensures var recent := RecentQuestions(tables, history, maxTurns);
            resolved.turns <= |recent| && resolved == Resolution(recent, resolved.turns, language, Strip(question))
    ensures if resolved.turns == 0 then resolved.text == Strip(question)
            else FollowsOnIn(tables, resolved.text, question, history, resolved.turns, language)
  {
    var asked := Strip(question);
    StripIfIdempotent(IsSpace, question);
    if maxTurns <= 0 || maxCharacters <= 0 || !IsFollowupQuestion(asked) {
      return ResolvedQuestion(asked, 0);
    }
    var recent := RecentQuestions(tables, history, maxTurns);
    RecentIsWindow(tables, history, maxTurns);
    var carried := CarryMostRecent(recent, maxCharacters);
    if carried == [] {
      return ResolvedQuestion(asked, 0);
    }
    CarriedFollowsOn(tables, question, history, maxTurns, |carried|, language);
    return ResolvedQuestion(Rewritten(language, Reversed(carried), asked), |carried|);
  }

  /** The loop of `resolve_question`: most recent first, until an entry is empty or too long. */
  method CarryMostRecent(recent: seq<string>, budget: nat) returns (carried: seq<string>)
    ensures LongestCarriable(recent, |carried|, budget)
    ensures Reversed(carried) == recent[|recent| - |carried|..]
  {
    carried := [];
    var remaining := budget;
    while |carried| < |recent|
      invariant |carried| <= |recent|
      invariant Reversed(carried) == recent[|recent| - |carried|..]
      invariant Carriable(recent, |carried|, budget)
      invariant remaining == budget - TotalLength(recent[|recent| - |carried|..])
    {
      var at := |recent| - |carried| - 1;
      var candidate := recent[at];
      assert recent[at..] == [candidate] + recent[at + 1..];
      if candidate == [] || |candidate| > remaining {
        assert !Carriable(recent, |carried| + 1, budget);
        forall j: nat | Carriable(recent, j, budget) ensures j <= |carried| {
          if j > |carried| { CarriableShorter(recent, |carried| + 1, j, budget); }
        }
        return;
      }
      ReversedSnoc(carried, candidate);
      carried := carried + [candidate];
      remaining := remaining - |candidate|;
    }
  }

  lemma {:induction false} JoinedLength(texts: seq<string>)
    ensures |Join(' ', texts)| == TotalLength(texts) + if texts == [] then 0 else |texts| - 1
  {
    if texts != [] { JoinedLength(texts[1..]); }
  }

  /** The fixed wording around the carried questions and the one asked. */
  function Wording(language: string): nat {
    |ContextPreamble(language)| + 3 + 1 + |ContextQuestionLabel(language)| + 3
  }

  lemma RewrittenLengthExactly(recent: seq<string>, k: nat, language: string, asked: string)
    requires 0 < k <= |recent|
    ensures |Rewritten(language, recent[|recent| - k..], asked)|
         == Wording(language) + TotalLength(recent[|recent| - k..]) + (k - 1) + |asked|
    ensures Wording(language) <= 36
  {
    JoinedLength(recent[|recent| - k..]);
  }

  /** A rewritten question is bounded by the two budgets, the follow-up limit and the fixed wording. */
  lemma RewrittenLength(recent: seq<string>, k: nat, budget: int, language: string, question: string)
    requires k > 0 && Carriable(recent, k, budget) && IsFollowupQuestion(question)
    ensures |Rewritten(language, recent[|recent| - k..], Strip(question))|
         <= FOLLOWUP_QUESTION_MAX_LENGTH + budget + (k - 1) + 36
  {
    RewrittenLengthExactly(recent, k, language, Strip(question));
  }

  const ASSISTANT_CONTEXT_MESSAGES: nat := 4
  const ASSISTANT_CONTEXT_MAX_CHARACTERS: nat := 800
  const RAG_QUESTION_MAX_LENGTH: nat := 1000

  /** At the default settings it is a question the retrieval pipeline accepts. */
  lemma RewrittenFitsPipeline(recent: seq<string>, k: nat, language: string, question: string)
    requires 0 < k <= ASSISTANT_CONTEXT_MESSAGES && IsFollowupQuestion(question)
    requires Carriable(recent, k, ASSISTANT_CONTEXT_MAX_CHARACTERS)
    ensures |Rewritten(language, recent[|recent| - k..], Strip(question))| <= RAG_QUESTION_MAX_LENGTH
  {
    RewrittenLength(recent, k, ASSISTANT_CONTEXT_MAX_CHARACTERS, language, question);
  }

  const CONTEXT_OVERHEAD_CHARACTERS: nat := 64

  /** The character budget a conversation grants: what the pipeline's limit leaves beside the question
      and the reserve for the wording. */
  function ContextBudget(contextMax: nat, questionMax: nat, content: string): nat {
    var left := questionMax - |content| - CONTEXT_OVERHEAD_CHARACTERS;
    if contextMax <= left then contextMax else if left >= 0 then left else 0
  }

  /** The most there can be, up to the maximum, with the question and 64 characters of wording beside it. */
  lemma ContextBudgetExactly(contextMax: nat, questionMax: nat, content: string, b: nat)
    ensures b <= ContextBudget(contextMax, questionMax, content)
       <==> b == 0 || (b <= contextMax && |content| + 64 + b <= questionMax)
  {
  }

  predicate HasAlnum(tables: CharTables, s: string) {
    s != [] && (tables.isAlnum(s[0]) || HasAlnum(tables, s[1..]))
  }

  const MIN_QUESTION_LENGTH: nat := 2

  /** A message as the schema hands it on and the transcript keeps it. */
  predicate Receivable(tables: CharTables, questionMax: nat, message: string) {
    Normal(tables, message) && MIN_QUESTION_LENGTH <= |message| <= questionMax && HasAlnum(tables, message)
  }

  predicate AllReceivable(tables: CharTables, questionMax: nat, messages: seq<string>) {
    forall i | 0 <= i < |messages| :: Receivable(tables, questionMax, messages[i])
  }

  /** The settings are valid, the messages were received, and the follow-up carries `k` questions of
      the history. */
  ghost predicate CarriesUnder(
    tables: CharTables, contextMax: nat, questionMax: nat, history: seq<string>, k: nat, content: string)
  {
    && contextMax < questionMax
    && Receivable(tables, questionMax, content) && AllReceivable(tables, questionMax, history)
    && IsFollowupQuestion(content)
    && LongestCarriable(RecentQuestions(tables, history, |history|), k, ContextBudget(contextMax, questionMax, content))
  }

  /** Then the question it is resolved to is one the pipeline accepts. */
  ghost predicate FollowupFits(
    tables: CharTables, contextMax: nat, questionMax: nat, history: seq<string>, k: nat, language: string,
    content: string)
  {
    CarriesUnder(tables, contextMax, questionMax, history, k, content) ==>
      |Resolution(RecentQuestions(tables, history, |history|), k, language, Strip(content)).text| <= questionMax
  }

  /** Received messages are carried as they are. */
  lemma ReceivedIsRecent(tables: CharTables, questionMax: nat, history: seq<string>)
    requires AllReceivable(tables, questionMax, history)
    ensures RecentQuestions(tables, history, |history|) == history
  {
    forall i | 0 <= i < |history| ensures NormalizeQuery(tables, history[i]) == history[i] {
      assert Receivable(tables, questionMax, history[i]);
      NormalIsFixed(tables, history[i]);
    }
  }

  lemma CarriedFits(
      recent: seq<string>, k: nat, contextMax: nat, questionMax: nat, language: string, content: string)
    requires 0 < k <= 65 - Wording(language) && Carriable(recent, k, ContextBudget(contextMax, questionMax, content))
    ensures |Resolution(recent, k, language, content).text| <= questionMax
  {
    var carried := recent[|recent| - k..];
    RewrittenLengthExactly(recent, k, language, content);
    assert carried[0] != [] && TotalLength(carried) > 0;
    assert TotalLength(carried) <= questionMax - |content| - CONTEXT_OVERHEAD_CHARACTERS;
  }

  lemma ReceivedIsStripped(tables: CharTables, questionMax: nat, content: string)
    requires Receivable(tables, questionMax, content)
    ensures Strip(content) == content
  {
    StripIfFixed(IsSpace, content);
  }

  lemma {:induction false} ReserveSuffices(
      tables: CharTables, contextMax: nat, questionMax: nat, history: seq<string>, k: nat, language: string,
      content: string)
    requires 0 < k <= 65 - Wording(language)
    ensures FollowupFits(tables, contextMax, questionMax, history, k, language, content)
  {
    if CarriesUnder(tables, contextMax, questionMax, history, k, content) {
      ReceivedIsStripped(tables, questionMax, content);
      CarriedFits(RecentQuestions(tables, history, |history|), k, contextMax, questionMax, language, content);
    }
  }

  function Pairs(k: nat): (pairs: seq<string>)
    ensures |pairs| == k && forall i | 0 <= i < k :: pairs[i] == "xx"
  {
    seq(k, _ => "xx")
  }

  lemma {:induction false} PairsLength(k: nat)
    ensures TotalLength(Pairs(k)) == 2 * k
  {
    if k > 0 {
      assert Pairs(k)[1..] == Pairs(k - 1);
      PairsLength(k - 1);
    }
  }

  lemma PairsAreCarried(tables: CharTables, k: nat)
    requires tables.Kept('x') && tables.isAlnum('x')
    ensures CarriesUnder(tables, 2 * k, 2 * k + 66, Pairs(k), k, "xx")
  {
    assert Normal(tables, "xx") && HasAlnum(tables, "xx");
    assert Receivable(tables, 2 * k + 66, "xx");
    ReceivedIsRecent(tables, 2 * k + 66, Pairs(k));
    StripIfFixed(IsSpace, "xx");
    PairsLength(k);
    assert Pairs(k)[|Pairs(k)| - k..] == Pairs(k);
    assert ContextBudget(2 * k, 2 * k + 66, "xx") == 2 * k;
    assert Carriable(Pairs(k), k, 2 * k);
  }

  /** Questions of two letters that use the budget up are too long with too many of them. */
  lemma ReserveExceeded(tables: CharTables, k: nat, language: string)
    requires tables.Kept('x') && tables.isAlnum('x')
    requires k > 0 && k > 65 - Wording(language)
    ensures CarriesUnder(tables, 2 * k, 2 * k + 66, Pairs(k), k, "xx")
    ensures !FollowupFits(tables, 2 * k, 2 * k + 66, Pairs(k), k, language, "xx")
  {
    PairsAreCarried(tables, k);
    ReceivedIsRecent(tables, 2 * k + 66, Pairs(k));
    StripIfFixed(IsSpace, "xx");
    PairsLength(k);
    assert Pairs(k)[|Pairs(k)| - k..] == Pairs(k);
    RewrittenLengthExactly(Pairs(k), k, language, "xx");
  }

  /** The promise that a resolved follow-up is never refused holds for all valid settings and all
      received messages exactly up to as many carried questions as the reserve has characters left. */
  lemma ReserveSufficesExactly(tables: CharTables, k: nat, language: string)
    requires k > 0 && tables.Kept('x') && tables.isAlnum('x')
    ensures (forall contextMax: nat, questionMax: nat, history, content ::
               FollowupFits(tables, contextMax, questionMax, history, k, language, content))
       <==> k <= 65 - Wording(language)
    ensures 65 - Wording(language) >= 29
  {
    if k <= 65 - Wording(language) {
      forall contextMax: nat, questionMax: nat, history, content
        ensures FollowupFits(tables, contextMax, questionMax, history, k, language, content)
      {
        ReserveSuffices(tables, contextMax, questionMax, history, k, language, content);
      }
    } else {
      ReserveExceeded(tables, k, language);
    }
  }

  // ----- suggested next questions -----

  /** What `str.splitlines` breaks at; a carriage return takes a following newline with it. */
  predicate IsLineBreak(c: char) {
    var n := c as int;
    0x0A <= n <= 0x0D || 0x1C <= n <= 0x1E || n == 0x85 || n == 0x2028 || n == 0x2029
  }

  function SplitLines(s: string): (lines: seq<string>)
    ensures s != [] ==> lines != []
    decreases |s|
  {
    if s == [] then []
    else if |s| > 1 && s[0] == '\r' && s[1] == '\n' then [[]] + SplitLines(s[2..])
    else if IsLineBreak(s[0]) then [[]] + SplitLines(s[1..])
    else if |s| == 1 then [s]
    else
      var rest := SplitLines(s[1..]);
      [[s[0]] + rest[0]] + rest[1..]
  }

  predicate IsBullet(c: char) { c in {'-', '*', '\U{2022}', '\U{2013}', '\U{2014}'} }

  predicate ClosesNumber(c: char) { c == '.' || c == ')' }

  /** `_SUGGESTION_PREFIX.sub("", line)`: one bullet or one- or two-digit number at the start, with
      the whitespace around it. */
  function WithoutPrefix(line: string): string {
    var t := LStrip(line);
    if t != [] && IsBullet(t[0]) then LStrip(t[1..])
    else if |t| > 2 && IsDigit(t[0]) && IsDigit(t[1]) && ClosesNumber(t[2]) then LStrip(t[3..])
    else if |t| > 1 && IsDigit(t[0]) && ClosesNumber(t[1]) then LStrip(t[2..])
    else line
  }

  predicate IsSuggestionQuote(c: char) {
    c in {'"', '\'', '\U{AB}', '\U{BB}', '\U{201C}', '\U{201D}', '\U{201E}', '\U{2039}', '\U{203A}'}
  }

  function Candidate(tables: CharTables, line: string): string {
    Strip(StripIf(IsSuggestionQuote, NormalizeQuery(tables, WithoutPrefix(line))))
  }

  predicate Acceptable(tables: CharTables, candidate: string, ceiling: int) {
    0 < |candidate| <= ceiling && HasAlnum(tables, candidate)
  }

  function Key(tables: CharTables, candidate: string): string { MapCase(tables.fold, candidate) }

  /** The questions already asked, as they are compared. */
  function ExcludedKeys(tables: CharTables, exclude: seq<string>): set<string> {
    set i | 0 <= i < |exclude| && Strip(exclude[i]) != [] :: Key(tables, NormalizeQuery(tables, exclude[i]))
  }

  /** All suggestions in a reply, before the list is capped. */
  function Suggestions(tables: CharTables, lines: seq<string>, ceiling: int, seen: set<string>): seq<string> {
    if lines == [] then []
    else
      var candidate := Candidate(tables, lines[0]);
      if !Acceptable(tables, candidate, ceiling) || Key(tables, candidate) in seen then
        Suggestions(tables, lines[1..], ceiling, seen)
      else
        [candidate] + Suggestions(tables, lines[1..], ceiling, seen + {Key(tables, candidate)})
  }

  function Take(s: seq<string>, limit: int): seq<string> {
    if limit <= 0 then [] else if limit <= |s| then s[..limit] else s
  }

  function ReplyLines(text: string, truncated: bool): seq<string> {
    var lines := SplitLines(text);
    if truncated && lines != [] then lines[..|lines| - 1] else lines
  }

  lemma SuggestionsStep(tables: CharTables, lines: seq<string>, k: nat, ceiling: int, seen: set<string>)
    requires k < |lines|
    ensures var candidate := Candidate(tables, lines[k]);
            Suggestions(tables, lines[k..], ceiling, seen)
            == if !Acceptable(tables, candidate, ceiling) || Key(tables, candidate) in seen
               then Suggestions(tables, lines[k + 1..], ceiling, seen)
               else [candidate] + Suggestions(tables, lines[k + 1..], ceiling, seen + {Key(tables, candidate)})
  {
    assert lines[k..][1..] == lines[k + 1..];
  }

  lemma AppendFound(found: seq<string>, candidate: string, rest: seq<string>)
    ensures found + ([candidate] + rest) == (found + [candidate]) + rest
  {
  }

  lemma TakeFound(found: seq<string>, rest: seq<string>, limit: nat)
    requires |found| == limit > 0 || (|found| < limit && rest == [])
    ensures Take(found + rest, limit) == found
  {
  }

  /** The loop of `parse_suggestions`. */
  method CollectSuggestions(tables: CharTables, lines: seq<string>, limit: nat, ceiling: int, excluded: set<string>)
    returns (suggestions: seq<string>)
    requires limit > 0
    ensures suggestions == Take(Suggestions(tables, lines, ceiling, excluded), limit)
  {
    suggestions := [];
    var seen := excluded;
    ghost var all := Suggestions(tables, lines, ceiling, seen);
    for k := 0 to |lines|
      invariant |suggestions| < limit
      invariant all == suggestions + Suggestions(tables, lines[k..], ceiling, seen)
    {
      var candidate := Candidate(tables, lines[k]);
      SuggestionsStep(tables, lines, k, ceiling, seen);
      if !Acceptable(tables, candidate, ceiling) {
        continue;
      }
      var key := Key(tables, candidate);
      if key in seen {
        continue;
      }
      ghost var rest := Suggestions(tables, lines[k + 1..], ceiling, seen + {key});
      AppendFound(suggestions, candidate, rest);
      seen := seen + {key};
      suggestions := suggestions + [candidate];
      if |suggestions| >= limit {
        TakeFound(suggestions, rest, limit);
        return;
      }
    }
    assert lines[|lines|..] == [];
    TakeFound(suggestions, [], limit);
  }

  // ----- what a line and a reply say -----

  lemma {:induction false} LStripSpaces(spaces: string, s: string)
    requires forall k | 0 <= k < |spaces| :: IsSpace(spaces[k])
    requires s == [] || !IsSpace(s[0])
    ensures LStrip(spaces + s) == s
  {
    if spaces == [] {
      assert spaces + s == s;
    } else {
      assert (spaces + s)[1..] == spaces[1..] + s;
      LStripSpaces(spaces[1..], s);
    }
  }

  /** A bullet, or a number of one or two digits with a full stop or a closing bracket. */
  predicate IsListMarker(marker: string) {
    || (|marker| == 1 && (marker[0] == '-' || marker[0] == '*' || marker[0] == '\U{2022}' || marker[0] == '\U{2013}'
                          || marker[0] == '\U{2014}'))
    || (|marker| == 2 && IsDigit(marker[0]) && (marker[1] == '.' || marker[1] == ')'))
    || (|marker| == 3 && IsDigit(marker[0]) && IsDigit(marker[1]) && (marker[2] == '.' || marker[2] == ')'))
  }

  /** The marker of a list item goes, with the whitespace around it. */
  lemma ListMarkerGoes(spaces: string, marker: string, more: string, rest: string)
    requires forall k | 0 <= k < |spaces| :: IsSpace(spaces[k])
    requires forall k | 0 <= k < |more| :: IsSpace(more[k])
    requires IsListMarker(marker) && (rest == [] || !IsSpace(rest[0]))
    ensures WithoutPrefix(spaces + (marker + (more + rest))) == rest
  {
    var t := marker + (more + rest);
    assert !IsSpace(marker[0]) && t[0] == marker[0];
    LStripSpaces(spaces, t);
    LStripSpaces(more, rest);
    assert t[|marker|..] == more + rest;
  }

  /** A line that starts neither with a bullet nor with a digit is taken as it is. */
  lemma OtherLinesKept(line: string)
    requires LStrip(line) == [] || !(IsListMarker([LStrip(line)[0]]) || IsDigit(LStrip(line)[0]))
    ensures WithoutPrefix(line) == line
  {
  }

  lemma SliceOfSlice(s: string, i: nat, j: nat, m: nat, n: nat)
    requires i <= j <= |s| && m <= n <= j - i
    ensures s[i..j][m..n] == s[i + m..i + n]
  {
    assert |s[i..j][m..n]| == |s[i + m..i + n]|;
    forall k | 0 <= k < n - m ensures s[i..j][m..n][k] == s[i + m..i + n][k] {
      assert s[i..j][m..n][k] == s[i..j][m + k] == s[i + m + k];
    }
  }

  /** The straight quotes and the typographic ones. */
  predicate IsQuotationMark(c: char) { c in "\"'«»“”„‹›" }

  lemma ListedAlike(c: char)
    ensures IsSuggestionQuote(c) <==> IsQuotationMark(c)
  {
    var marks := "\"'«»“”„‹›";
    assert marks == ['"', '\'', '\U{AB}', '\U{BB}', '\U{201C}', '\U{201D}', '\U{201E}', '\U{2039}', '\U{203A}'];
  }

  lemma QuotesThenSpaces(text: string) returns (i: nat, a: nat, b: nat, j: nat)
    ensures i <= a <= b <= j <= |text| && Strip(StripIf(IsSuggestionQuote, text)) == text[a..b]
    ensures forall k | 0 <= k < i || j <= k < |text| :: IsQuotationMark(text[k])
    ensures i < j ==> !IsQuotationMark(text[i]) && !IsQuotationMark(text[j - 1])
    ensures forall k | i <= k < a || b <= k < j :: IsSpace(text[k])
    ensures a < b ==> !IsSpace(text[a]) && !IsSpace(text[b - 1])
  {
    i, j := StripIfIsSlice(IsSuggestionQuote, text);
    forall c: char ensures IsSuggestionQuote(c) <==> IsQuotationMark(c) { ListedAlike(c); }
    var inner := text[i..j];
    var m, n := StripIfIsSlice(IsSpace, inner);
    a, b := i + m, i + n;
    assert forall k | 0 <= k < j - i :: inner[k] == text[i + k];
    SliceOfSlice(text, i, j, m, n);
    forall k | i <= k < a || b <= k < j ensures IsSpace(text[k]) { assert inner[k - i] == text[k]; }
    if a < b { assert inner[m] == text[a] && inner[n - 1] == text[b - 1]; }
  }

  /** A candidate is the normalised line without the quotes at its ends and the whitespace inside them. */
  lemma CandidateExactly(tables: CharTables, line: string) returns (i: nat, a: nat, b: nat, j: nat)
    ensures var text := NormalizeQuery(tables, WithoutPrefix(line));
            && i <= a <= b <= j <= |text| && Candidate(tables, line) == text[a..b]
            && (forall k | 0 <= k < i || j <= k < |text| :: IsQuotationMark(text[k]))
            && (i < j ==> !IsQuotationMark(text[i]) && !IsQuotationMark(text[j - 1]))
            && (forall k | i <= k < a || b <= k < j :: IsSpace(text[k]))
            && (a < b ==> !IsSpace(text[a]) && !IsSpace(text[b - 1]))
  {
    i, a, b, j := QuotesThenSpaces(NormalizeQuery(tables, WithoutPrefix(line)));
  }

  lemma {:induction false} LastLine(text: string, partial: string)
    requires partial != [] && forall k | 0 <= k < |partial| :: !IsLineBreak(partial[k])
    ensures SplitLines(text + "\n" + partial) == SplitLines(text + "\n") + [partial]
    decreases |text|
  {
    var s, t := text + "\n" + partial, text + "\n";
    if text == [] {
      assert s[1..] == partial && t[1..] == [];
      WholeLine(partial);
    } else if text == "\r" {
      assert s[2..] == partial && t[2..] == [];
      WholeLine(partial);
    } else if t[0] == '\r' && t[1] == '\n' {
      assert t[2..] == text[2..] + "\n" && s[2..] == text[2..] + "\n" + partial && s[0] == t[0] && s[1] == t[1];
      LastLine(text[2..], partial);
    } else {
      assert t[1..] == text[1..] + "\n" && s[1..] == text[1..] + "\n" + partial && s[0] == t[0] && s[1] == t[1];
      LastLine(text[1..], partial);
    }
  }

  /** A last line need not be ended. */
  lemma {:induction false} WholeLine(line: string)
    requires line != [] && forall k | 0 <= k < |line| :: !IsLineBreak(line[k])
    ensures SplitLines(line) == [line]
  {
    assert !IsLineBreak(line[0]) && [line[0]] + line[1..] == line;
    if |line| > 1 { WholeLine(line[1..]); }
  }

  /** The characters a line can end at. */
  predicate EndsLine(c: char) { c in "\n\r\U{0B}\U{0C}\U{1C}\U{1D}\U{1E}\U{85}\U{2028}\U{2029}" }

  lemma BreaksListed(c: char)
    ensures IsLineBreak(c) <==> EndsLine(c)
  {
  }

  /** A line ends at the first such character; a carriage return takes a newline behind it along. */
  lemma {:induction false} LineEnds(line: string, ending: string, rest: string)
    requires forall k | 0 <= k < |line| :: !EndsLine(line[k])
    requires ending == "\r\n" || (|ending| == 1 && EndsLine(ending[0]))
    requires ending == "\r" && rest != [] ==> rest[0] != '\n'
    ensures SplitLines(line + ending + rest) == [line] + SplitLines(rest)
  {
    var s := line + ending + rest;
    BreaksListed(s[0]);
    if line == [] {
      assert s[|ending|..] == rest && forall k | 0 <= k < |ending| :: s[k] == ending[k];
      if |s| > |ending| { assert s[|ending|] == rest[0]; }
    } else {
      assert s[1..] == line[1..] + ending + rest && [line[0]] + line[1..] == line;
      LineEnds(line[1..], ending, rest);
    }
  }

  /** Of a reply that was cut off, the line that was being written goes, and no other. */
  lemma CutOffLineGoes(text: string, partial: string)
    requires partial != [] && forall k | 0 <= k < |partial| :: !IsLineBreak(partial[k])
    ensures ReplyLines(text + "\n" + partial, true) == ReplyLines(text + "\n", false)
  {
    LastLine(text, partial);
    var lines := SplitLines(text + "\n");
    assert (lines + [partial])[..|lines|] == lines;
  }

  lemma {:induction false} HasAlnumExactly(tables: CharTables, s: string)
    ensures HasAlnum(tables, s) <==> exists k | 0 <= k < |s| :: tables.isAlnum(s[k])
  {
    if s != [] {
      HasAlnumExactly(tables, s[1..]);
      if k :| 0 <= k < |s| && tables.isAlnum(s[k]) { assert k > 0 ==> s[1..][k - 1] == s[k]; }
      if k :| 0 <= k < |s[1..]| && tables.isAlnum(s[1..][k]) { assert s[k + 1] == s[1..][k]; }
    }
  }

  /** A suggestion nobody has asked: not longer than the ceiling, with a letter or digit in it, and equal
      to no question asked, whatever the case. */
  ghost predicate Fresh(tables: CharTables, suggestion: string, maxLength: int, exclude: seq<string>) {
    && 0 < |suggestion| <= maxLength && (exists k | 0 <= k < |suggestion| :: tables.isAlnum(suggestion[k]))
    && forall i | 0 <= i < |exclude| && Strip(exclude[i]) != [] ::
         MapCase(tables.fold, suggestion) != MapCase(tables.fold, NormalizeQuery(tables, exclude[i]))
  }

  lemma SuggestionIsFresh(tables: CharTables, lines: seq<string>, maxLength: int, exclude: seq<string>, k: nat)
    requires k < |Suggestions(tables, lines, maxLength, ExcludedKeys(tables, exclude))|
    ensures Fresh(
              tables, Suggestions(tables, lines, maxLength, ExcludedKeys(tables, exclude))[k], maxLength, exclude)
  {
    var excluded := ExcludedKeys(tables, exclude);
    SuggestionsAreNew(tables, lines, maxLength, excluded);
    var suggestion := Suggestions(tables, lines, maxLength, excluded)[k];
    HasAlnumExactly(tables, suggestion);
    assert Key(tables, suggestion) !in excluded;
  }

  /** `parse_suggestions`. */
  method ParseSuggestions(tables: CharTables, text: string, limit: int, maxLength: int,
                          exclude: seq<string>, truncated: bool)
    returns (suggestions: seq<string>)
    ensures suggestions
         == Take(Suggestions(tables, ReplyLines(text, truncated), maxLength, ExcludedKeys(tables, exclude)), limit)
    ensures |suggestions| <= (if limit <= 0 then 0 else limit)
    ensures forall k | 0 <= k < |suggestions| :: Fresh(tables, suggestions[k], maxLength, exclude)
  {
    if limit <= 0 { return []; }
    suggestions := CollectSuggestions(
      tables, ReplyLines(text, truncated), limit, maxLength, ExcludedKeys(tables, exclude));
    forall k | 0 <= k < |suggestions| ensures Fresh(tables, suggestions[k], maxLength, exclude) {
      SuggestionIsFresh(tables, ReplyLines(text, truncated), maxLength, exclude, k);
    }
  }

  /** The list is cut off only by the limit. */
  lemma TakeExactly(s: seq<string>, limit: nat)
    ensures Take(s, limit) <= s && |Take(s, limit)| == if limit <= |s| then limit else |s|
  {
  }

  /** Every entry is acceptable and new: its key is neither among `seen` nor that of another entry. */
  ghost predicate AllNew(tables: CharTables, found: seq<string>, ceiling: int, seen: set<string>) {
    && (forall i | 0 <= i < |found| :: Acceptable(tables, found[i], ceiling))
    && (forall i | 0 <= i < |found| :: Key(tables, found[i]) !in seen)
    && (forall i, j | 0 <= i < j < |found| :: Key(tables, found[i]) != Key(tables, found[j]))
  }

  lemma AllNewCons(tables: CharTables, candidate: string, rest: seq<string>, ceiling: int, seen: set<string>)
    requires Acceptable(tables, candidate, ceiling) && Key(tables, candidate) !in seen
    requires AllNew(tables, rest, ceiling, seen + {Key(tables, candidate)})
    ensures AllNew(tables, [candidate] + rest, ceiling, seen)
  {
    var found := [candidate] + rest;
    assert found[0] == candidate && forall i | 0 < i < |found| :: found[i] == rest[i - 1];
    forall i, j | 0 <= i < j < |found| ensures Key(tables, found[i]) != Key(tables, found[j]) {
      assert Key(tables, rest[j - 1]) !in seen + {Key(tables, candidate)};
    }
  }

  lemma {:induction false} SuggestionsAreNew(tables: CharTables, lines: seq<string>, ceiling: int, seen: set<string>)
    ensures AllNew(tables, Suggestions(tables, lines, ceiling, seen), ceiling, seen)
  {
    if lines != [] {
      var candidate := Candidate(tables, lines[0]);
      if !Acceptable(tables, candidate, ceiling) || Key(tables, candidate) in seen {
        SuggestionsAreNew(tables, lines[1..], ceiling, seen);
      } else {
        var more := seen + {Key(tables, candidate)};
        SuggestionsAreNew(tables, lines[1..], ceiling, more);
        AllNewCons(tables, candidate, Suggestions(tables, lines[1..], ceiling, more), ceiling, seen);
      }
    }
  }

  /** `found` is what remains of `all` when some entries are left out. */
  predicate Subsequence(found: seq<string>, all: seq<string>) {
    if found == [] then true
    else all != [] && (if found[0] == all[0] then Subsequence(found[1..], all[1..]) else Subsequence(found, all[1..]))
  }

  function Candidates(tables: CharTables, lines: seq<string>): seq<string> {
    if lines == [] then [] else [Candidate(tables, lines[0])] + Candidates(tables, lines[1..])
  }

  lemma {:induction false} SubsequenceSkip(found: seq<string>, x: string, all: seq<string>)
    requires Subsequence(found, all)
    ensures Subsequence(found, [x] + all)
    decreases |all|
  {
    assert ([x] + all)[1..] == all;
    if found != [] && found[0] == x {
      assert all == [all[0]] + all[1..];
      if found[0] == all[0] {
        SubsequenceSkip(found[1..], all[0], all[1..]);
      } else {
        SubsequenceTail(found, all[1..]);
        SubsequenceSkip(found[1..], all[0], all[1..]);
      }
    }
  }

  lemma {:induction false} SubsequenceTail(found: seq<string>, all: seq<string>)
    requires found != [] && Subsequence(found, all)
    ensures Subsequence(found[1..], all)
    decreases |all|
  {
    assert all == [all[0]] + all[1..];
    if found[0] == all[0] {
      SubsequenceSkip(found[1..], all[0], all[1..]);
    } else {
      SubsequenceTail(found, all[1..]);
      SubsequenceSkip(found[1..], all[0], all[1..]);
    }
  }

  /** The suggestions appear in the order of their lines, and each is what one line says. */
  lemma {:induction false} SuggestionsInOrder(tables: CharTables, lines: seq<string>, ceiling: int, seen: set<string>)
    ensures Subsequence(Suggestions(tables, lines, ceiling, seen), Candidates(tables, lines))
  {
    if lines != [] {
      var candidate := Candidate(tables, lines[0]);
      var all := Candidates(tables, lines);
      assert all[1..] == Candidates(tables, lines[1..]);
      if !Acceptable(tables, candidate, ceiling) || Key(tables, candidate) in seen {
        SuggestionsInOrder(tables, lines[1..], ceiling, seen);
        SubsequenceSkip(Suggestions(tables, lines[1..], ceiling, seen), candidate, all[1..]);
      } else {
        SuggestionsInOrder(tables, lines[1..], ceiling, seen + {Key(tables, candidate)});
      }
    }
  }

  predicate HasKey(tables: CharTables, found: seq<string>, key: string) {
    exists i | 0 <= i < |found| :: Key(tables, found[i]) == key
  }

  lemma HasKeyCons(tables: CharTables, x: string, found: seq<string>, key: string)
    ensures HasKey(tables, [x] + found, key) <==> Key(tables, x) == key || HasKey(tables, found, key)
  {
    var all := [x] + found;
    if Key(tables, x) == key { assert Key(tables, all[0]) == key; }
    if HasKey(tables, found, key) {
      var i :| 0 <= i < |found| && Key(tables, found[i]) == key;
      assert Key(tables, all[i + 1]) == key;
    }
  }

  /** Nothing acceptable is passed over: its key is excluded or that of a suggestion. */
  lemma {:induction false} NothingPassedOver(
      tables: CharTables, lines: seq<string>, ceiling: int, seen: set<string>, k: nat)
    requires k < |lines| && |Candidate(tables, lines[k])| <= ceiling
    requires exists i | 0 <= i < |Candidate(tables, lines[k])| :: tables.isAlnum(Candidate(tables, lines[k])[i])
    ensures var key := Key(tables, Candidate(tables, lines[k]));
            key in seen || HasKey(tables, Suggestions(tables, lines, ceiling, seen), key)
  {
    var candidate, key := Candidate(tables, lines[0]), Key(tables, Candidate(tables, lines[k]));
    HasAlnumExactly(tables, Candidate(tables, lines[k]));
    if !Acceptable(tables, candidate, ceiling) || Key(tables, candidate) in seen {
      if k > 0 { NothingPassedOver(tables, lines[1..], ceiling, seen, k - 1); }
    } else {
      var more := seen + {Key(tables, candidate)};
      HasKeyCons(tables, candidate, Suggestions(tables, lines[1..], ceiling, more), key);
      if k > 0 { NothingPassedOver(tables, lines[1..], ceiling, more, k - 1); }
    }
  }

  lemma {:induction false} MoreLinesExtend(
      tables: CharTables, lines: seq<string>, more: seq<string>, ceiling: int, seen: set<string>)
    ensures Suggestions(tables, lines, ceiling, seen) <= Suggestions(tables, lines + more, ceiling, seen)
  {
    if lines != [] {
      assert (lines + more)[1..] == lines[1..] + more;
      var candidate := Candidate(tables, lines[0]);
      if !Acceptable(tables, candidate, ceiling) || Key(tables, candidate) in seen {
        MoreLinesExtend(tables, lines[1..], more, ceiling, seen);
      } else {
        MoreLinesExtend(tables, lines[1..], more, ceiling, seen + {Key(tables, candidate)});
      }
    }
  }

  /** Treating the reply as cut off, and asking for fewer suggestions, both only shorten the list. */
  lemma SuggestionsShorten(tables: CharTables, text: string, less: int, limit: int, ceiling: int, seen: set<string>)
    requires less <= limit
    ensures Take(Suggestions(tables, ReplyLines(text, true), ceiling, seen), less)
         <= Take(Suggestions(tables, ReplyLines(text, false), ceiling, seen), limit)
  {
    var lines := SplitLines(text);
    if lines != [] {
      var n := |lines| - 1;
      MoreLinesExtend(tables, lines[..n], lines[n..], ceiling, seen);
      assert lines[..n] + lines[n..] == lines;
    }
  }

  // ----- titles -----

  /** `_clip`. */
  function Clip(text: string, budget: int): string {
    if budget <= 0 || |text| <= budget then text else CutAtWord(text, budget)
  }

  /** `normalize_title` for a title ceiling. */
  function NormalizeTitle(tables: CharTables, value: string, maxLength: int): string {
    Clip(NormalizeQuery(tables, value), maxLength)
  }

  /** A stored title is in normal form, within the ceiling, a beginning of the normalised text, and
      storing it again changes nothing. */
  lemma TitleIsStable(tables: CharTables, value: string, maxLength: int)
    requires maxLength > 0 && tables.Kept(' ')
    ensures var title := NormalizeTitle(tables, value, maxLength);
            && |title| <= maxLength && Normal(tables, title) && title <= NormalizeQuery(tables, value)
            && NormalizeTitle(tables, title, maxLength) == title
  {
    var text := NormalizeQuery(tables, value);
    NormalizedIsNormal(tables, value);
    if |text| > maxLength {
      var j := CutIsPrefix(text, maxLength);
      NormalPrefix(tables, text, j);
    }
    NormalIsFixed(tables, NormalizeTitle(tables, value, maxLength));
  }

  /** It is the whole normalised text if that fits, else cut at the last space of its last quarter or, if
      there is none, at the ceiling. */
  lemma TitleExactly(tables: CharTables, value: string, maxLength: int) returns (end: nat, j: nat)
    requires maxLength > 0
    ensures var text, title := NormalizeQuery(tables, value), NormalizeTitle(tables, value, maxLength);
            && j <= end <= |text| && title == text[..j] && (|text| <= maxLength ==> title == text)
            && (|text| > maxLength ==>
                  && end <= maxLength && (forall k | j <= k < end :: IsSpace(text[k]))
                  && (end < maxLength ==>
                        text[end] == ' ' && end > maxLength * 3 / 4
                        && forall k | end < k < maxLength :: text[k] != ' ')
                  && (end == maxLength ==> forall k | maxLength * 3 / 4 < k < maxLength :: text[k] != ' '))
  {
    var text := NormalizeQuery(tables, value);
    if |text| <= maxLength {
      end, j := |text|, |text|;
    } else {
      end, j := CutExactly(text, maxLength);
    }
  }
}
