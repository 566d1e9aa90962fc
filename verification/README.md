# Verified model of the legal case platform's domain rules

The platform's `apps/api/core` package holds the rules every service shares: how citations are numbered,
how evidence is fitted to a prompt, how extracted text is stored, how identifiers are printed and read,
what may be logged, which status may follow which. This project models the hardest of them in Dafny,
together with the few service methods that put two of them together, and proves what they promise. Where
the code does not keep a promise, there is an input that shows it and a condition that says exactly when
it is kept.

`dafny verify dfyconfig.toml` checks everything.

| file | subject |
|---|---|
| `Text.dfy`, `Layouts.dfy`, `Clipping.dfy` | the string operations of Python the rest relies on; a text as characters and gaps; cutting at a word boundary |
| `Markers.dfy`, `Remap.dfy`, `RemapComposition.dfy`, `RemapText.dfy`, `CitationLedger.dfy` | citation markers, their renumbering, and the assembly of a report |
| `ContextBudget.dfy`, `StreamGuard.dfy` | the evidence of a prompt; the refusal sentinel in a stream |
| `OcrText.dfy`, `CaseNumbers.dfy`, `Documents.dfy`, `Tracing.dfy` | normal forms, printers and parsers |
| `Redaction.dfy`, `Timeline.dfy` | the logging policy and the coercion of event metadata over object graphs |
| `Queries.dfy`, `Assistant.dfy` | questions, follow-ups, suggestions, titles |
| `Languages.dfy`, `Indexing.dfy` | language negotiation and detection |
| `RetrySchedule.dfy`, `Lifecycles.dfy`, `InFlight.dfy` | schedules, status machines and the concurrent counter over whole runs |
| `RouteLabels.dfy` | the route template a request is counted under |

## How the code is represented

* Strings are sequences of Unicode characters. Whitespace is exactly the set `str.strip` and `\s` share
  (`Text.SpacesExactly`). `\d` accepts ASCII, Arabic-Indic and Extended Arabic-Indic digits
  (`Text.DigitsExactly`). NFC normalisation is the identity.
* Regular expressions are written out as the left-to-right scans they perform. For the whitespace and
  newline repairs a lemma shows the scan equal to a fold from the right, and the proofs use the fold.
* Case mapping, alphanumeric and control characters, printable characters, `float(text)` and freshly
  minted span identifiers are parameters; every theorem holds for all of them.
* Case mappings work character by character (`Text.MapCaseExactly`), and none turns a character into
  nothing (`Text.NeverDeletes`), which matters where lengths do.
* Loops are methods with invariants, objects with changing fields are classes, expressions are functions.
* Redaction and the coercion of metadata work on a heap that may contain cycles, and the depth is the only
  termination measure besides that an enumeration member is made after the value it stands for.
* Concurrency is a state machine over single steps: taking the lock, reading, writing, releasing,
  publishing.

## What turned out not to hold as written

* Removing an unresolvable marker can splice a new one together: `[[5]1]` without an entry for 5 becomes
  `[1]` (`Remap.RemovalCanInventAMarker`; what a splice looks like in `Remap.SplicesExactly`, its effect in
  `Remap.RemapExact`).
* A section none of whose sources fit the report's ceiling keeps its local markers, which then name other
  sources (`CitationLedger.KeptMarkerNamesAnotherSource`, for any prose with the one marker `[1]`, as
  `CitationLedger.ProseWithOneMarker` gives; exact condition in `CitationLedger.SectionFaithfulExactly`).
* Numbers of one year stop sorting as text in issue order after 9999 (`CaseNumbers.OrderBreaksAtTenThousand`,
  `CaseNumbers.IssueOrderExactly`).
* A page cut by the length limit right behind whitespace is neither free of trailing blanks nor stable under
  a second pass (`OcrText.CutBehindSpaceExample`, `OcrText.LinesTrimmedExactly`, `OcrText.IdempotentExactly`).
* A single blank page renders like no pages (`OcrText.BlankPageRendersLikeNone`,
  `OcrText.SplitAfterJoinExactly`).
* A clipped passage can exceed its budget by the ellipsis (`ContextBudget.OverrunExample`,
  `ContextBudget.ClipOverrunsExactly`).
* A weight of NaN on the first usable entry of an `Accept-Language` header wins over everything
  (`Languages.NaNWinsExample`, `Languages.ChoiceExactly`).
* A file name can be accepted and stored as nothing but dots and spaces, if it is one or if shortening cuts
  the rest away (`Documents.BlankNameExample`, `Documents.LongBlankNameExample`,
  `Documents.BlankNameExactly`).
* A suffix that fills the column is lost, and the cut can then read as a file type the name never had
  (`Documents.InventedTypeExample`, `Documents.ShorteningKeepsSuffixExactly`,
  `Documents.ShorteningKeepsTypeExactly`).
* A resolved follow-up can be longer than the pipeline accepts once more questions are carried than the
  reserve for the wording has characters left (`Assistant.ReserveExceeded`,
  `Assistant.ReserveSufficesExactly`).
* A retry delay is above a negative ceiling, and the clamped exponent shows where the delay there is positive
  and below the ceiling (`RetrySchedule.NegativeCeilingExample`, `RetrySchedule.DelayInRange`,
  `RetrySchedule.ClampExample`, `RetrySchedule.ClampIsInvisibleExactly`).
* The in-flight counter is exact but the gauge published from it can stay behind
  (`InFlight.GaugeCanStayBehind`, `InFlight.GaugeIsCurrentExactly`).
* A literal path segment equal to a parameter's value is rewritten with it, so the label is not the route's
  template (`RouteLabels.LiteralCanBeRewritten`; exact condition in `RouteLabels.LabelIsTemplateExactly`).
* An enumeration member standing for `None` is stored as a null although absent values are to be dropped
  (`Timeline.NullStoredExample`, `Timeline.NormalizeTwiceExactly`), and a member that is itself a string or
  number is stored as the member, because the first test takes it; the comment on the second test says
  otherwise (`Timeline.MixedMemberExample`, `Timeline.MembersReplaced`).

## Model

| member | source | states |
|---|---|---|
| Markers.FoundIffMentioned | apps/api/core/rag.py:76 | the non-overlapping scan reports a number exactly if a marker text spelling it occurs anywhere in the answer |
| Markers.UnknownMarkersExact | apps/api/core/rag.py:408-429 | cited and unknown markers by what the answer mentions, not by how it is scanned |
| Remap.CollapseIsRepair | apps/api/core/reports.py:916 | collapsing blank runs by scanning equals a one-character fold from the right |
| Remap.TidyIsRepair | apps/api/core/reports.py:919 | removing whitespace before punctuation by scanning equals a one-character fold from the right |
| Remap.RepairWhitespaceKeepsMarkers | apps/api/core/reports.py:948-950 | both whitespace repairs and the strip create, remove and reorder no marker |
| RemapText.SubstituteExactly | apps/api/core/reports.py:935-947 | a text falls into characters and the markers found; the substitution keeps the characters, writes mapped numbers in brackets and leaves the others out |
| RemapText.RepairExactly | apps/api/core/reports.py:948-950 | gap by gap: runs of blanks become one space, then gaps before nine listed marks and at both ends go, and nothing else changes |
| RemapText.RemapTextExactly | apps/api/core/reports.py:922-950 | the result has no two blanks side by side, no whitespace before a mark or at an end, the non-whitespace characters of the substituted text in order, kept apart if and only if they were and the second is no mark; a text without such defects is unchanged |
| RemapText.RemovedInMidSentence | apps/api/core/reports.py:948 | the gap a removed marker leaves is closed to one space |
| Layouts.LayIsText | apps/api/core/reports.py:915-919 | a layout is the text itself, cut into its gaps and the characters between them |
| Remap.RemapExact | apps/api/core/reports.py:922-950 | the markers left are the resolvable ones, renumbered and in order, if and only if removal splices none together and the new numbers have at most three digits |
| Remap.SimultaneousRenumbering | apps/api/core/reports.py:922-950 | with an entry for every marker, the result's markers are the input's mapped one by one |
| Remap.CitedAfterRemap | apps/api/core/reports.py:941-950 | a number cited afterwards is a renumbered or a spliced one, and all of those are |
| Remap.NoUnknownMarkersLeft | apps/api/core/rag.py:420-429 | keeping 1..n leaves no unknown marker if and only if every spliced number is in 1..n |
| Remap.SplicesExactly | apps/api/core/reports.py:935-945 | removal splices something together if and only if a bracket, one to three digits interleaved with unmapped markers, and a closing bracket stand in the text |
| Remap.NoOpenedMarkerNoSplice | apps/api/core/reports.py:935-945 | nothing is spliced if no unmapped marker stands directly behind a bracket and digits |
| Remap.RemovalCanInventAMarker | apps/api/core/reports.py:935-940 | an input on which a removed marker leaves one the text never had |
| RemapComposition.RepairWhitespaceCommutes | apps/api/core/reports.py:947-950 | substituting commutes with repairing when every marker has an entry |
| RemapComposition.RepairWhitespaceIdempotent | apps/api/core/reports.py:948-950 | repairing repaired text changes nothing |
| RemapComposition.RemapComposes | apps/api/core/reports.py:922-950 | two remaps equal one with the composed mapping, to the character, if the first splices nothing and the second covers what it leaves |
| RemapComposition.TotalRemapComposes | apps/api/core/reports.py:922-950 | for covering mappings two remaps always equal one |
| CitationLedger.Ledger.constructor | apps/api/services/report.py:265-268 | an empty, consistent ledger whose ceiling is the given one, or one if that is lower |
| CitationLedger.Ledger.Register | apps/api/services/report.py:270-305 | the new reference list and the local-to-global map, and that list and dictionary stay consistent |
| CitationLedger.Ledger.RegisterOne | apps/api/services/report.py:279-303 | one round: the known number, the next one, or none when the list is full |
| CitationLedger.Ledger.Promote | apps/api/services/report.py:307-313 | sets the flag of one entry and nothing else |
| CitationLedger.EnterAllKeeps | apps/api/services/report.py:249-262 | references stay numbered 1, 2, 3 without duplicates within the ceiling, and no entry ever moves |
| CitationLedger.SourceOfExactly | apps/api/services/report.py:279-303 | a local number stands for the source of the last citation that has it |
| CitationLedger.MappingPlaces | apps/api/services/report.py:277-305 | each local number maps to the entry of its own source, and is unmapped only if the list is full without it |
| CitationLedger.NumberStable | apps/api/services/report.py:270-305 | a source keeps its number as more sections register, and one left out stays out |
| CitationLedger.FaithfulExactly | apps/api/services/report.py:1089-1094 | following a printed section's markers leads to the sources its draft cited, in order, if and only if the section kept a source, nothing is spliced and its new numbers have at most three digits, or it has no marker |
| CitationLedger.NumbersFit | apps/api/core/config.py:516 | up to 999 references, as at the default ceiling of 60, every number has at most three digits |
| CitationLedger.SectionFaithfulExactly | apps/api/services/report.py:1072-1121 | the same for every section against the finished report's reference list |
| CitationLedger.PrintedIsSection | apps/api/services/report.py:1089-1110 | each printed section is its draft rewritten against the ledger as it stood at its turn |
| CitationLedger.AssembleReport | apps/api/services/report.py:1072-1121 | the sections are rewritten one by one against the growing list, and the references are the first citations of the first sources, excerpts included, in the order of first citation, as many as the ceiling or one allows; a source is left out only if it is first cited when the list is full |
| CitationLedger.ListExactly | apps/api/services/report.py:270-305 | the same of any citations entered one by one |
| CitationLedger.ReferencedExactly | apps/api/services/report.py:284-291 | an entry is flagged as referenced if and only if some section referenced its source |
| CitationLedger.KeptMarkerNamesAnotherSource | apps/api/services/report.py:1092-1094 | reports, one for every prose whose only marker is `[1]`, in which an untouched section's marker resolves to a source it did not cite |
| CitationLedger.ProseWithOneMarker | apps/api/core/reports.py:69 | prose of any length followed by `[1]` is such a text, so also one long enough to be kept as drafted |
| Clipping.CutIsPrefix | apps/api/core/rag.py:340-350 | the cut text is a prefix without trailing whitespace, ends between words unless there is no late space, and fills the budget exactly when stated |
| Clipping.CutExactly | apps/api/core/rag.py:340-350 | the cut falls at the last space of the last quarter or, without one, at the budget, and before any whitespace there |
| ContextBudget.FitToBudget | apps/api/core/rag.py:353-405 | each passage gets no more than the cap and its length: the lesser of both if those up to it fit the budget, else what is left if that is at least 200, else nothing |
| ContextBudget.BudgetIsUsed | apps/api/core/rag.py:369-384 | never over budget, everything kept if it fits, otherwise less than 200 characters unused |
| ContextBudget.NothingAfterTheCut | apps/api/core/rag.py:381-384 | behind a cut or dropped passage nothing is kept |
| ContextBudget.ShareMonotone | apps/api/core/rag.py:353-405 | a larger budget takes nothing from any passage |
| ContextBudget.ShareLocal | apps/api/core/rag.py:375-377 | less relevant passages never change what earlier ones get |
| ContextBudget.ClipOverrunsExactly | apps/api/core/rag.py:332-350 | a clipped passage exceeds its budget, by one, if and only if the cut is flush |
| ContextBudget.OverrunExample | apps/api/core/rag.py:332-350 | a passage clipped to two characters that has three |
| ContextBudget.ClippedCountExactly | apps/api/services/rag.py:984-1003 | the passages counted as shortened are those with an allowance above zero and below their length |
| ContextBudget.EvidenceWithinBudget | apps/api/services/rag.py:984-1003 | the evidence exceeds the budget by at most one character per shortened passage |
| ContextBudget.FitContext | apps/api/services/rag.py:972-1005 | the kept texts, no more than the citation limit or one and none more than one character above the passage cap, their total length, and a truncation flag that is set if and only if the evidence differs from what was retrieved |
| ContextBudget.EvidenceExactly | apps/api/services/rag.py:984-1003 | of the first passages up to the citation limit, those with a share, in order, each whole or a prefix within its share with an ellipsis, the shares being those of the budget rule |
| ContextBudget.KeepWithin | apps/api/services/rag.py:991-1003 | the loop over candidates and allowances |
| StreamGuard.ReleasedStaysReleased | apps/api/core/rag.py:443-478 | once text cannot be the sentinel, no extension can |
| StreamGuard.PendingIsShortOrRefusal | apps/api/core/rag.py:452-478 | withheld text is shorter than the sentinel or already a refusal |
| StreamGuard.TrimmedExactly | apps/api/core/rag.py:476 | what is compared with the sentinel begins behind all leading whitespace and the quotes behind it |
| StreamGuard.PendingExactly | apps/api/core/rag.py:443-478 | text is withheld if and only if it differs from the sentinel at no position below both lengths |
| StreamGuard.Relay | apps/api/services/rag.py:518-540 | however the answer is cut into fragments, after each of them the reader has been shown all of the text so far if it differs from the sentinel somewhere, and nothing otherwise |
| StreamGuard.RefusalNeverShown | apps/api/core/rag.py:458-463 | an answer starting with the sentinel is withheld at every prefix of every stream |
| StreamGuard.PrefixedRefusalIsShown | apps/api/core/rag.py:465-470 | the stated limit: behind a diverging opening a refusal is released |
| OcrText.StoredForm | apps/api/core/ocr.py:217-250 | stored text has no control character, carriage return, page break or three newlines in a row, starts with no whitespace and fits the limit |
| OcrText.LinesTrimmedExactly | apps/api/core/ocr.py:214-250 | no line ends in a blank, if and only if the limit does not cut right behind one |
| OcrText.IdempotentExactly | apps/api/core/ocr.py:217-250 | normalising twice equals once, if and only if the limit does not cut right behind whitespace |
| OcrText.CutBehindSpaceExample | apps/api/core/ocr.py:244-250 | a page cut right behind a space, which keeps it until a second pass |
| OcrText.InkExactly | apps/api/core/ocr.py:204-207 | the visible characters are those between the gaps of whitespace and controls |
| OcrText.CleanKeepsInk | apps/api/core/ocr.py:240-250 | every visible character survives, in order, unless the limit cuts |
| OcrText.CrLfIsOneNewline | apps/api/core/ocr.py:241-244 | a carriage return with a newline becomes one newline wherever it stands |
| OcrText.UnifyExactly | apps/api/core/ocr.py:241-244 | otherwise carriage returns and form feeds become newlines and nothing else changes |
| OcrText.DropControlsExactly | apps/api/core/ocr.py:204-245 | controls but tab, newline, form feed and carriage return go, one by one, and nothing else |
| OcrText.TrimExactly | apps/api/core/ocr.py:213-246 | blanks at the ends of lines go, and no others |
| OcrText.LimitExactly | apps/api/core/ocr.py:209-247 | three or more newlines in a row become two, and nothing else changes |
| OcrText.StoredPrefix | apps/api/core/ocr.py:248-250 | what is stored is the clean text, or its first 200000 characters |
| OcrText.JoinAfterSplit | apps/api/core/ocr.py:253-266 | joining undoes splitting for every text |
| OcrText.SplitAfterJoinExactly | apps/api/core/ocr.py:253-266 | splitting undoes joining if and only if no page holds a break and the pages are not one blank page |
| OcrText.BlankPageRendersLikeNone | apps/api/core/ocr.py:253-266 | one blank page and no page render alike |
| OcrText.StoredPagesRoundTrip | apps/api/core/ocr.py:217-266 | pages as stored always split back, except a single blank one |
| CaseNumbers.NegativePadded | apps/api/core/cases.py:222 | a negative number keeps its sign in front of the zeros, and the sign counts towards the width |
| CaseNumbers.ReadExactly | apps/api/core/cases.py:46-48 | a text reads as a sequence of a year if and only if it is the prefix, four digits of that value, digits of the sequence's and at most one newline |
| CaseNumbers.RoundTrip | apps/api/core/cases.py:215-235 | a built number reads back as its sequence for its own four-digit year and as nothing otherwise, for all integers |
| CaseNumbers.IssueOrderExactly | apps/api/core/cases.py:215-222 | text order is issue order if and only if the later number cut to the earlier's width has not fallen below it |
| CaseNumbers.FirstNumbersInOrder | apps/api/core/cases.py:38-41 | the first 9999 numbers of a year sort in issue order |
| CaseNumbers.OrderBreaksAtTenThousand | apps/api/core/cases.py:218-220 | number 10000 sorts before 9999 |
| CaseNumbers.YearsInOrder | apps/api/core/cases.py:215-222 | all numbers of a year sort before those of a later one |
| CaseNumbers.HighestIsUpperBound | apps/api/repositories/case.py:110-135 | no generated number on file has a higher sequence than the highest found |
| CaseNumbers.HighestIsOnFile | apps/api/repositories/case.py:110-135 | unless it is zero, a number on file has the highest sequence found |
| CaseNumbers.NextIsFreshExactly | apps/api/services/case.py:479-484 | the next number is on no file whatever, if and only if the year prints as four digits |
| RouteLabels.LabelIsTemplateExactly | apps/api/core/middleware.py:282-319 | the label of a matched request is the route's template if and only if no parameter value repeats the text of another segment |
| RouteLabels.SameRouteSameLabel | apps/api/core/middleware.py:285-296 | unambiguous requests of one route are counted under one label whatever their values |
| RouteLabels.NoValueShows | apps/api/core/middleware.py:312-317 | no parameter value is left standing as a segment of a label, ambiguous or not |
| RouteLabels.LiteralCanBeRewritten | apps/api/core/middleware.py:298-300 | a request whose literal segment is rewritten as a parameter |
| RouteLabels.WithoutTemplate | apps/api/core/middleware.py:304-310 | unmatched requests share one label, and a route without parameters is its path |
| Redaction.SensitiveExactly | apps/api/core/observability.py:850-859 | a name is sensitive if and only if one of the words occurs in it in any letter case |
| Redaction.SensitiveWords | apps/api/core/observability.py:804-847 | the words: thirteen of credentials and fourteen of content |
| Redaction.CaseIgnored | apps/api/core/observability.py:850-859 | names that differ in letter case only are treated alike |
| Redaction.NamedSecretIsMarked | apps/api/core/observability.py:876-882 | under the policy in force a field named with such a word is logged as the mark |
| Redaction.SummaryExactly | apps/api/core/observability.py:883-884 | where the depth ends a value shows its type only |
| Redaction.SensitiveInside | apps/api/core/observability.py:850-859 | a name containing a sensitive name is sensitive |
| Redaction.NonInterference | apps/api/core/observability.py:862-894 | field sets over possibly cyclic graphs that differ only below sensitive keys are logged identically at every depth |
| Redaction.MappingScrubbed | apps/api/core/observability.py:879-882 | every sensitive key in the output carries the redaction mark |
| Redaction.MappingNesting | apps/api/core/observability.py:871-875 | the output nests at most one level deeper than the bound, whatever the graph |
| Redaction.ShapeKept | apps/api/core/observability.py:879-894 | within the depth, output and input have the same keys and shape, and each position shows what redaction makes of its object |
| Redaction.HarmlessValueKept | apps/api/core/observability.py:879-894 | a leaf outside sensitive keys and above the bound is logged unchanged |
| Timeline.CoercedFits | apps/api/core/timeline.py:261-289 | whatever the object graph, cycles included, what is kept is a tree within the depth bound with each key once |
| Timeline.KeptAsGivenExactly | apps/api/core/timeline.py:261-289 | a tree of plain values is kept as it is if and only if it is no deeper than the bound |
| Timeline.CoercionIdempotent | apps/api/core/timeline.py:261-289 | what has been coerced once is left alone |
| Timeline.MembersReplaced | apps/api/core/timeline.py:270-275 | at every depth a member is kept for the value behind it, and is left a member if and only if that is one of a string or number type |
| Timeline.MixedMemberExample | apps/api/core/timeline.py:270-275 | a member of a string enumeration that is stored as the member |
| Timeline.NullStoredExample | apps/api/core/timeline.py:312-314 | metadata stored with a null that a second pass drops |
| Timeline.MetadataExactly | apps/api/core/timeline.py:309-314 | the stored fields are the last non-null entry under each printed key, coerced, within the depth bound |
| Timeline.RefusedExactly | apps/api/core/timeline.py:309-322 | metadata is refused if and only if it takes more than 8192 bytes, and stored otherwise |
| Timeline.RenderedExactly | apps/api/core/timeline.py:270-289 | identifiers, times, unrecognised values and everything with parts from the fourth level on become text |
| Timeline.NormalizeTwiceExactly | apps/api/core/timeline.py:292-322 | normalising stored metadata changes nothing if and only if no member standing for `None` was kept |
| Queries.NormalizeQueryExactly | apps/api/core/search.py:110-138 | the characters without controls, with one space where there was whitespace between them and none at the ends |
| Queries.DropControlsExactly | apps/api/core/search.py:110-138 | controls but tab and newline go, one by one, and nothing else |
| Queries.NormalizedIsNormal | apps/api/core/search.py:110-138 | normalised text is words separated by single spaces without controls |
| Queries.NormalIsFixed | apps/api/core/search.py:110-138 | normal text is left alone |
| Assistant.ResolveQuestion | apps/api/core/assistant.py:200-272 | carries exactly the longest most recent block that fits both budgets; the text is a line with the wording of the language, French by default, and the carried questions, oldest first, then a line with the label and the question asked, or the question alone |
| Assistant.CarryMostRecent | apps/api/core/assistant.py:252-260 | the loop from the most recent entry finds that block |
| Assistant.RewrittenLength | apps/api/core/assistant.py:264-272 | a rewritten question is at most 90 characters, the budget, the separators and 36 of fixed wording long |
| Assistant.RewrittenFitsPipeline | apps/api/core/config.py:379-429 | at the default settings it is within the accepted question length |
| Assistant.ContextBudgetExactly | apps/api/services/assistant.py:709-716 | a conversation grants as many characters as the maximum and the question with 64 characters of wording leave |
| Assistant.ReserveSufficesExactly | apps/api/services/assistant.py:713-727 | with the budget a conversation grants, a follow-up is accepted under all valid settings and for all received messages if and only if the questions it carries are at most 65 less the wording, which is at least 29 |
| Assistant.ReserveExceeded | apps/api/services/assistant.py:713-716 | beyond that, valid settings and received messages of two letters whose follow-up is too long |
| Assistant.ParseSuggestions | apps/api/core/assistant.py:293-368 | the capped list of acceptable new candidates, within limit and ceiling, with a letter or digit, and none equal in any case to a question asked |
| Assistant.TakeExactly | apps/api/core/assistant.py:365-366 | the list is cut off only by the limit |
| Assistant.ListMarkerGoes | apps/api/core/assistant.py:293-350 | a bullet or a number of one or two digits goes, with the whitespace around it |
| Assistant.OtherLinesKept | apps/api/core/assistant.py:293-350 | a line that starts with neither is taken as it is |
| Assistant.CandidateExactly | apps/api/core/assistant.py:350-351 | a candidate is the normalised line without the quotes at its ends and the whitespace inside them |
| Assistant.LineEnds | apps/api/core/assistant.py:343 | a line ends at the first of ten listed characters, a carriage return with the newline behind it |
| Assistant.WholeLine | apps/api/core/assistant.py:343 | the last line need not be ended |
| Assistant.CutOffLineGoes | apps/api/core/assistant.py:340-347 | of a reply that was cut off, the line being written goes, and no other |
| Assistant.CollectSuggestions | apps/api/core/assistant.py:346-366 | the loop with early exit computes the first `limit` of them |
| Assistant.SuggestionsAreNew | apps/api/core/assistant.py:346-363 | all acceptable, distinct under case folding, none excluded |
| Assistant.SuggestionsInOrder | apps/api/core/assistant.py:346-363 | a subsequence of what the lines say |
| Assistant.NothingPassedOver | apps/api/core/assistant.py:346-363 | a line whose candidate fits and has a letter or digit in it is excluded or represented |
| Assistant.SuggestionsShorten | apps/api/core/assistant.py:317-330 | truncation and a smaller limit only take away from the end |
| Assistant.TitleIsStable | apps/api/core/assistant.py:126-136 | a title is a normal prefix within the ceiling and normalises to itself |
| Assistant.TitleExactly | apps/api/core/assistant.py:126-136 | the whole normalised text if it fits, else cut at the last space of its last quarter or at the ceiling |
| Languages.ParseAcceptLanguage | apps/api/core/localization.py:228-270 | the loops and the minimum of the tuples compute the strongest offer of the header (section 12.5.4 of RFC 9110) |
| Languages.Least | apps/api/core/localization.py:264-270 | the minimum over negated weight and position is the first offer of greatest weight as floats compare |
| Languages.ReadQuality | apps/api/core/localization.py:253-260 | the last `q` parameter gives the weight, 1 without one, 0 if unreadable |
| Languages.WeightWithoutQ | apps/api/core/localization.py:253-255 | without a `q` the weight is one |
| Languages.WeightOfLastQ | apps/api/core/localization.py:253-260 | with several the last counts, and one that is no number counts as zero |
| Languages.PrimarySubtag | apps/api/core/localization.py:152-170 | a tag is read by what stands before its first hyphen or underscore in lower case, and English, French and Arabic alone are served |
| Languages.PlainEntry | apps/api/core/localization.py:245-263 | an entry without parameters is offered at the weight one |
| Languages.EntryOffer | apps/api/core/localization.py:245-263 | with parameters it is offered at their weight unless that is zero or less |
| Languages.ChoiceExactly | apps/api/core/localization.py:264-270 | the chosen entry is the first-listed of greatest weight if and only if the first usable weight is a number |
| Languages.NaNWinsExample | apps/api/core/localization.py:253-270 | a header in which French at the weight NaN is preferred to English at one |
| Languages.AnsweredExactly | apps/api/core/localization.py:245-269 | an answer exists if and only if some entry is supported and not refused |
| Languages.UselessEntryIgnored | apps/api/core/localization.py:245-263 | deleting an unsupported or refused entry never changes the answer |
| Languages.ResolveLanguage | apps/api/core/localization.py:178-206 | the first candidate naming a served language, else the default |
| Indexing.DominantLanguage | apps/api/core/indexing.py:299-318 | the most frequent determined language, alphabetically first among equals, nothing if there is none |
| Indexing.OrderDoesNotMatter | apps/api/core/indexing.py:316-318 | the answer depends only on how often each language occurs |
| Documents.KeyLayout | apps/api/core/documents.py:220-231 | the key's words, identifiers, version and stored name, part by part |
| Documents.StorageKeyInjective | apps/api/core/documents.py:220-231 | the key determines case, document, version and stored name |
| Documents.DirectoriesDropped | apps/api/core/documents.py:189-191 | directories before the name, with either separator, change nothing |
| Documents.TidiedExactly | apps/api/core/documents.py:192-194 | the characters of the name, unsafe ones as underscores, with one space for any whitespace between them and none at the ends |
| Documents.ShortNameExactly | apps/api/core/documents.py:194-207 | an accepted name that fits is the tidied one without the dots around it |
| Documents.LongNameExactly | apps/api/core/documents.py:199-207 | a longer one is cut to 255 characters, before its suffix if there is room for that and its dot, else at the end |
| Documents.ExtensionExactly | apps/api/core/documents.py:150-167 | a suffix is an extension if and only if, stripped and in lower case, it is one to twenty letters or digits |
| Documents.UnsafeExactly | apps/api/core/documents.py:144-147 | the unsafe characters, one by one |
| Documents.SanitizedIsSafe | apps/api/core/documents.py:170-207 | accepted names are non-empty, at most 255 long and free of separators and unsafe characters |
| Documents.RefusedExactly | apps/api/core/documents.py:192-196 | a name is refused if and only if it is tidied to dots |
| Documents.BlankNameExactly | apps/api/core/documents.py:192-205 | for every name: an accepted one shows nothing but dots and spaces if and only if the tidied one does and has a space, or it is long and what shortening keeps does |
| Documents.BlankNameExample | apps/api/core/documents.py:192-196 | an input accepted as a single space |
| Documents.LongBlankNameExample | apps/api/core/documents.py:198-205 | a name with a letter in it that is shortened to dots and spaces |
| Documents.ShorteningKeepsSuffixExactly | apps/api/core/documents.py:198-205 | shortening keeps the extension if and only if it leaves room for it and its dot |
| Documents.ShorteningKeepsTypeExactly | apps/api/core/documents.py:150-205 | for every accepted name: the file type read from the stored name is the one of the full name unless, and only unless, the suffix fills the column and the cut leaves what reads as a type; the full name has none then |
| Documents.InventedTypeExample | apps/api/core/documents.py:198-205 | a name without a type whose stored form loses the suffix and reads as a PDF |
| Documents.ExtensionReadAlike | apps/api/core/documents.py:150-167 | a file name and its bare suffix give the same extension |
| Tracing.HeaderRoundTrip | apps/api/core/tracing.py:177-244 | a formatted context is read back as the same trace and sampling with the old span as parent, if and only if its identifiers are well formed; ill-formed ones without hyphens are refused |
| Tracing.HyphensShiftFields | apps/api/core/tracing.py:177-211 | why the identifiers must be well formed: hyphenated ones, which no caller produces, would be read back as another trace |
| Tracing.FieldsExactly | apps/api/core/tracing.py:172-174 | what counts as a field of lower-case hexadecimal digits and what as all zeros |
| Tracing.AcceptedExactly | apps/api/core/tracing.py:177-211 | a header is read if and only if it has the layout of section 3.2 of W3C Trace Context with valid fields, and then as its trace, its span as parent and the lowest bit of its flags |
| Tracing.CleanStateIsPlain | apps/api/core/tracing.py:223-238 | an accepted trace state is non-empty, bounded and printable |
| Tracing.PlainStateExactly | apps/api/core/tracing.py:223-238 | a plain state is kept, stripped, up to 512 characters |
| Tracing.UnprintableIgnored | apps/api/core/tracing.py:223-238 | a character that cannot be printed is as if it were not there |
| Tracing.ChainIsLinked | apps/api/core/tracing.py:147-154 | any chain of children keeps trace, sampling and state, and each span names the one around it |
| Tracing.Ambient.BindTraceContext | apps/api/core/tracing.py:265-273 | binds the context and remembers the previous one in a fresh token |
| Tracing.Ambient.ResetTraceContext | apps/api/core/tracing.py:276-287 | restores what the token remembers, or nothing if it was used before |
| Tracing.Ambient.RunNested | apps/api/services/tracer.py:392-403 | however spans are nested and wherever work raises, the ambient context is restored |
| RetrySchedule.DelayInRange | apps/api/core/email.py:245-254 | never negative, and within the ceiling if and only if that is not negative |
| RetrySchedule.NegativeCeilingExample | apps/api/core/email.py:245-254 | a delay above its negative ceiling |
| RetrySchedule.DelayMonotone | apps/api/core/email.py:226-262 | later attempts never come due earlier |
| RetrySchedule.DueExactly | apps/api/core/email.py:226-262 | an attempt comes due its delay after now; the first wait is the base, and from the clamp on the ceiling if that is reached there |
| RetrySchedule.ClampIsInvisibleExactly | apps/api/core/email.py:248-254 | the clamped exponent changes nothing if and only if the condition on attempt, base and ceiling holds |
| RetrySchedule.ClampExample | apps/api/core/email.py:248-254 | the first attempt beyond the clamp falls short of its doubled delay |
| RetrySchedule.DelayDoubles | apps/api/core/email.py:229-231 | below the ceiling each wait is twice the previous one |
| Lifecycles.MovesExactly | apps/api/core/ocr.py:131-138 | for the four kinds of job, which status may follow which, by the target; the other tables are in indexing.py, reports.py and email.py |
| Lifecycles.CaseMovesExactly | apps/api/core/cases.py:86-130 | which status of a case may follow which, by the target |
| Lifecycles.JobConservation | apps/api/core/reports.py:201-210 | over every run, stays in the queue and claims balance with how they end |
| Lifecycles.OcrRunsAreClaimed | apps/api/core/ocr.py:131-138 | completions <= claims <= visits to pending |
| Lifecycles.IndexRunsAreClaimed | apps/api/core/indexing.py:134-141 | completions <= claims <= visits to pending |
| Lifecycles.ReportRunsAreClaimed | apps/api/core/reports.py:201-210 | completions <= claims <= visits to pending |
| Lifecycles.DeliveriesAreClaimed | apps/api/core/email.py:98-115 | sent <= sending <= visits to pending |
| Lifecycles.SentOnceAndLast | apps/api/core/email.py:86-115 | over every run, sent is entered once, out of sending, and ends the run |
| Lifecycles.DraftIsLeftForGood | apps/api/core/cases.py:68-81 | no run returns to draft |
| Lifecycles.CaseReachesExactly | apps/api/core/cases.py:86-130 | some run leads from one status to another if and only if the target is not draft or the start is |
| InFlight.Counter.AdjustInFlight | apps/api/core/middleware.py:197-213 | one call at a time, the field stays the number of metered requests between their +1 and -1, and that number is what is published |
| InFlight.InvAlways | apps/api/core/middleware.py:97-147 | the invariant of every interleaving, with handlers and gauges raising anywhere |
| InFlight.CounterIsExact | apps/api/core/middleware.py:197-213 | the counter is the number of metered requests between their +1 and -1 |
| InFlight.FloorNeverApplies | apps/api/core/middleware.py:208-209 | every write adds exactly its delta |
| InFlight.DrainsToZero | apps/api/core/middleware.py:114-147 | with no metered request under way the counter is zero |
| InFlight.EveryRunCanFinish | apps/api/core/middleware.py:114-147 | nothing gets stuck: from any interleaving all requests can come to their end in at most eleven steps each, with the lock free and the counter at zero |
| InFlight.RaisedExactly | apps/api/core/middleware.py:118-125 | a handler that raises comes to the same place as one that returns; a gauge that raises only is not set |
| InFlight.MutualExclusion | apps/api/core/middleware.py:207-210 | at most one thread is inside the lock |
| InFlight.GaugeIsAReading | apps/api/core/middleware.py:207-211 | in every interleaving the gauge shows what the counter was after one of its writes |
| InFlight.GaugeIsCurrentExactly | apps/api/core/middleware.py:207-211 | the gauge is right if and only if the writes since the published one took away as much as they added, in particular if there was none |
| InFlight.GaugeCanStayBehind | apps/api/core/middleware.py:200-206 | an interleaving that ends idle with the gauge at one |

## Left out

- MappingPlaces: requires a section's local markers to be distinct, which the pipeline guarantees by enumerating them.
- SectionFaithfulExactly: requires the same.
- Digits of other scripts than the three named, full Unicode case mapping with context, and NFC composition.
- Python's limit on the length of a string converted to an integer.
- Rounding of floats: delays and weights are exact reals besides the infinities and NaN.
- LabelIsTemplateExactly: parameter values hold no slash and print as they stand in the path, as with the framework's default converter, the only one the routes use.
- NormalizeTwiceExactly: the second pass meets the stored fields as values, so it does not speak of how the database prints and reads JSON.
- The order in which Python iterates over a set, and failures of a value's own `str`, inside event metadata.
- The fallback label when reading the request itself raises.
- Confidence and rate arithmetic: it would add easy members.
- Removal of invented markers by string replacement in the retrieval service; the model has the report's one-pass remap.
- The first-appearance list of a section's markers, progress events and logging around report assembly.
- Database uniqueness, the retry on a collision of case numbers, worker claims, sweepers, queues and transport.
- Hash-based identifiers, static wording tables, permissions, settings validation and the web client.
