/** The status machines of the platform over whole runs: OCR (apps/api/core/ocr.py), indexing
    (apps/api/core/indexing.py), reports (apps/api/core/reports.py), e-mail deliveries
    (apps/api/core/email.py) and cases (apps/api/core/cases.py). */
module Lifecycles {

  // ----- the transition tables -----

  datatype OcrStatus = Pending | Processing | Completed | Failed

  function OcrTransitions(s: OcrStatus): set<OcrStatus> {
    match s
    case Pending => {OcrStatus.Processing, OcrStatus.Failed}
    case Processing => {OcrStatus.Completed, OcrStatus.Failed}
    case Completed => {OcrStatus.Pending}
    case Failed => {OcrStatus.Pending}
  }

  datatype IndexStatus = Pending | Indexing | Indexed | Failed

  function IndexTransitions(s: IndexStatus): set<IndexStatus> {
    match s
    case Pending => {IndexStatus.Indexing, IndexStatus.Failed}
    case Indexing => {IndexStatus.Indexed, IndexStatus.Failed}
    case Indexed => {IndexStatus.Pending}
    case Failed => {IndexStatus.Pending}
  }

  datatype ReportStatus = Pending | Processing | Completed | Failed

  function ReportTransitions(s: ReportStatus): set<ReportStatus> {
    match s
    case Pending => {ReportStatus.Processing, ReportStatus.Failed}
    case Processing => {ReportStatus.Completed, ReportStatus.Failed, ReportStatus.Pending}
    case Completed => {ReportStatus.Pending}
    case Failed => {ReportStatus.Pending}
  }

  datatype DeliveryStatus = Pending | Sending | Sent | Failed

  function DeliveryTransitions(s: DeliveryStatus): set<DeliveryStatus> {
    match s
    case Pending => {DeliveryStatus.Sending, DeliveryStatus.Failed}
    case Sending => {DeliveryStatus.Sent, DeliveryStatus.Failed, DeliveryStatus.Pending}
    case Sent => {}
    case Failed => {DeliveryStatus.Pending}
  }

  datatype CaseStatus = Draft | Open | InProgress | WaitingForHearing | Closed | Archived

  function CaseTransitions(s: CaseStatus): set<CaseStatus> {
    match s
    case Draft => {Open, Archived}
    case Open => {InProgress, WaitingForHearing, Closed, Archived}
    case InProgress => {Open, WaitingForHearing, Closed, Archived}
    case WaitingForHearing => {Open, InProgress, Closed, Archived}
    case Closed => {Open, Archived}
    case Archived => {Open}
  }

  /** `can_transition` of a case: staying is always permitted. */
  predicate CaseCanTransition(current: CaseStatus, target: CaseStatus) {
    current == target || target in CaseTransitions(current)
  }

  /** The moves by where they lead: only a waiting job is claimed, only a claimed one completes, only an
      unfinished one fails, and a finished one is queued again; reports and deliveries may also go back
      to the queue while being worked on, and a sent delivery stays sent. */
  lemma MovesExactly(
      o: OcrStatus, o': OcrStatus, i: IndexStatus, i': IndexStatus, r: ReportStatus, r': ReportStatus,
      d: DeliveryStatus, d': DeliveryStatus)
    ensures o' in OcrTransitions(o)
       <==> match o'
            case Pending => o == OcrStatus.Completed || o == OcrStatus.Failed
            case Processing => o == OcrStatus.Pending
            case Completed => o == OcrStatus.Processing
            case Failed => o == OcrStatus.Pending || o == OcrStatus.Processing
    ensures i' in IndexTransitions(i)
       <==> match i'
            case Pending => i == Indexed || i == IndexStatus.Failed
            case Indexing => i == IndexStatus.Pending
            case Indexed => i == Indexing
            case Failed => i == IndexStatus.Pending || i == Indexing
    ensures r' in ReportTransitions(r)
       <==> match r'
            case Pending => r != ReportStatus.Pending
            case Processing => r == ReportStatus.Pending
            case Completed => r == ReportStatus.Processing
            case Failed => r == ReportStatus.Pending || r == ReportStatus.Processing
    ensures d' in DeliveryTransitions(d)
       <==> match d'
            case Pending => d == Sending || d == DeliveryStatus.Failed
            case Sending => d == DeliveryStatus.Pending
            case Sent => d == Sending
            case Failed => d == DeliveryStatus.Pending || d == Sending
  {
  }

  /** A case may always stay. It is opened from anywhere, archived from anywhere, closed, worked on or
      left waiting only while it is open in some form, and never a draft again. */
  lemma CaseMovesExactly(c: CaseStatus, c': CaseStatus)
    ensures CaseCanTransition(c, c')
       <==> || c == c' || c' == Open || c' == Archived
            || (c' != Draft && (c == Open || c == InProgress || c == WaitingForHearing))
  {
  }

  // ----- runs -----

  /** A history of statuses in which every change is a legal move. */
  ghost predicate IsRun<S(!new)>(next: S -> set<S>, run: seq<S>) {
    run != [] && forall i | 0 < i < |run| :: run[i] in next(run[i - 1])
  }

  /** How often the run is in a status. */
  function Visits<S(==)>(run: seq<S>, s: S): nat {
    if run == [] then 0 else Visits(run[..|run| - 1], s) + if run[|run| - 1] == s then 1 else 0
  }

  /** How often it moves from one status to another. */
  function Moves<S(==)>(run: seq<S>, a: S, b: S): nat {
    if |run| < 2 then 0
    else Moves(run[..|run| - 1], a, b) + if run[|run| - 2] == a && run[|run| - 1] == b then 1 else 0
  }

  /** The shape the queued jobs share: waiting, working, done and failed. Work is only entered from
      waiting, done only from working, and everything leads back to waiting at most. */
  ghost predicate JobShaped<S(!new)>(next: S -> set<S>, waiting: S, working: S, done: S, failed: S) {
    && waiting != working && waiting != done && waiting != failed
    && working != done && working != failed && done != failed
    && next(waiting) <= {working, failed} && next(working) <= {done, failed, waiting}
    && next(done) <= {waiting} && next(failed) <= {waiting}
  }

  function At<S(==)>(run: seq<S>, s: S): nat
    requires run != []
  {
    if run[|run| - 1] == s then 1 else 0
  }

  /** Conservation: every stay in the queue ends in a claim or a failure or is still going on, and
      every claim ends in a completion, a failure or a return to the queue or is still going on. */
  lemma {:induction false} JobConservation<S(!new)>(
      next: S -> set<S>, waiting: S, working: S, done: S, failed: S, run: seq<S>)
    requires JobShaped(next, waiting, working, done, failed) && IsRun(next, run) && run[0] == waiting
    ensures run[|run| - 1] in {waiting, working, done, failed}
    ensures Visits(run, waiting) == Visits(run, working) + Moves(run, waiting, failed) + At(run, waiting)
    ensures Visits(run, working) == Visits(run, done) + Moves(run, working, failed)
                                    + Moves(run, working, waiting) + At(run, working)
  {
    var n := |run| - 1;
    var before := run[..n];
    if n == 0 {
      assert before == [];
    } else {
      assert IsRun(next, before) by {
        forall i | 0 < i < |before| ensures before[i] in next(before[i - 1]) {
          assert run[i] in next(run[i - 1]);
        }
      }
      JobConservation(next, waiting, working, done, failed, before);
      assert before[n - 1] == run[n - 1];
      assert run[n] in next(run[n - 1]);
    }
  }

  lemma TablesAreJobShaped()
    ensures JobShaped(
              OcrTransitions, OcrStatus.Pending, OcrStatus.Processing, OcrStatus.Completed, OcrStatus.Failed)
    ensures JobShaped(
              IndexTransitions, IndexStatus.Pending, IndexStatus.Indexing, IndexStatus.Indexed, IndexStatus.Failed)
    ensures JobShaped(
              ReportTransitions, ReportStatus.Pending, ReportStatus.Processing, ReportStatus.Completed,
              ReportStatus.Failed)
    ensures JobShaped(
              DeliveryTransitions, DeliveryStatus.Pending, DeliveryStatus.Sending, DeliveryStatus.Sent,
              DeliveryStatus.Failed)
  {
  }

  /** No OCR run is completed more often than it was claimed, nor claimed more often than queued. */
  lemma OcrRunsAreClaimed(run: seq<OcrStatus>)
    requires IsRun(OcrTransitions, run) && run[0] == OcrStatus.Pending
    ensures Visits(run, OcrStatus.Completed) <= Visits(run, OcrStatus.Processing) <= Visits(run, OcrStatus.Pending)
  {
    TablesAreJobShaped();
    JobConservation(
      OcrTransitions, OcrStatus.Pending, OcrStatus.Processing, OcrStatus.Completed, OcrStatus.Failed, run);
  }

  lemma IndexRunsAreClaimed(run: seq<IndexStatus>)
    requires IsRun(IndexTransitions, run) && run[0] == IndexStatus.Pending
    ensures Visits(run, IndexStatus.Indexed) <= Visits(run, IndexStatus.Indexing) <= Visits(run, IndexStatus.Pending)
  {
    TablesAreJobShaped();
    JobConservation(
      IndexTransitions, IndexStatus.Pending, IndexStatus.Indexing, IndexStatus.Indexed, IndexStatus.Failed, run);
  }

  lemma ReportRunsAreClaimed(run: seq<ReportStatus>)
    requires IsRun(ReportTransitions, run) && run[0] == ReportStatus.Pending
    ensures Visits(run, ReportStatus.Completed) <= Visits(run, ReportStatus.Processing)
         <= Visits(run, ReportStatus.Pending)
  {
    TablesAreJobShaped();
    JobConservation(
      ReportTransitions, ReportStatus.Pending, ReportStatus.Processing, ReportStatus.Completed,
      ReportStatus.Failed, run);
  }

  // ----- deliveries -----

  /** Whatever its history, a delivery is sent at most once: being sent is the end of the run, and it
      comes directly out of sending. */
  lemma SentOnceAndLast(run: seq<DeliveryStatus>, i: nat)
    requires IsRun(DeliveryTransitions, run) && i < |run| && run[i] == DeliveryStatus.Sent
    ensures i == |run| - 1
    ensures i > 0 ==> run[i - 1] == DeliveryStatus.Sending
    ensures Visits(run, DeliveryStatus.Sent) == 1
  {
    assert i + 1 < |run| ==> run[i + 1] in DeliveryTransitions(run[i]);
    if i > 0 { assert run[i] in DeliveryTransitions(run[i - 1]); }
    NeverSentBefore(run, |run| - 1);
  }

  lemma {:induction false} NeverSentBefore(run: seq<DeliveryStatus>, n: nat)
    requires IsRun(DeliveryTransitions, run) && n < |run|
    ensures Visits(run[..n], DeliveryStatus.Sent) == 0
  {
    if n > 0 {
      NeverSentBefore(run, n - 1);
      assert run[..n][..n - 1] == run[..n - 1];
      assert run[n] in DeliveryTransitions(run[n - 1]);
    }
  }

  /** Every attempt to send is one claim out of the queue. */
  lemma DeliveriesAreClaimed(run: seq<DeliveryStatus>)
    requires IsRun(DeliveryTransitions, run) && run[0] == DeliveryStatus.Pending
    ensures Visits(run, DeliveryStatus.Sent) <= Visits(run, DeliveryStatus.Sending)
         <= Visits(run, DeliveryStatus.Pending)
  {
    TablesAreJobShaped();
    JobConservation(
      DeliveryTransitions, DeliveryStatus.Pending, DeliveryStatus.Sending, DeliveryStatus.Sent,
      DeliveryStatus.Failed, run);
  }

  // ----- cases -----

  ghost predicate IsCaseRun(run: seq<CaseStatus>) {
    run != [] && forall i | 0 < i < |run| :: CaseCanTransition(run[i - 1], run[i])
  }

  ghost predicate CaseReaches(from: CaseStatus, to: CaseStatus) {
    exists run :: IsCaseRun(run) && run[0] == from && run[|run| - 1] == to
  }

  lemma {:induction false} DraftIsLeftForGood(run: seq<CaseStatus>, i: nat, j: nat)
    requires IsCaseRun(run) && i <= j < |run| && run[i] != Draft
    ensures run[j] != Draft
    decreases j
  {
    if i < j {
      DraftIsLeftForGood(run, i, j - 1);
      assert CaseCanTransition(run[j - 1], run[j]);
    }
  }

  /** A case can get from any status to any other, exactly except that none returns to draft. */
  lemma CaseReachesExactly(from: CaseStatus, to: CaseStatus)
    ensures CaseReaches(from, to) <==> to != Draft || from == Draft
  {
    if to == Draft && from != Draft {
      if CaseReaches(from, to) {
        var run :| IsCaseRun(run) && run[0] == from && run[|run| - 1] == to;
        DraftIsLeftForGood(run, 0, |run| - 1);
      }
    } else {
      var run := if from == to then [from] else [from, Open, to];
      assert IsCaseRun(run);
    }
  }
}
