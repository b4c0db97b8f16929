/**
 * The pipeline status record of the API server: `run_pipeline` refuses a run
 * while the status is `running`, and `execute_pipeline_task` runs the six
 * stages (lead generation, enrichment, scoring, engagement, reply collection,
 * forecasting), advancing `steps_completed` after each one returns and
 * freezing the record at `error` on the first exception. The stages
 * themselves are inputs here: each one either returns or raises with a text.
 */
module Pipeline {
  import opened Strings

  datatype Status = Idle | Running | Completed | Error {
    /** The status string the API reports. */
    function Name(): string {
      match this
      case Idle => "idle"
      case Running => "running"
      case Completed => "completed"
      case Error => "error"
    }
  }

  /** The four reported strings are distinct, so comparing the strings is comparing the statuses. */
  lemma NamesDistinct(a: Status, b: Status)
    ensures a.Name() == b.Name() <==> a == b
  {
  }

  /** The record `{status, message, steps_completed}`. */
  datatype Snapshot = Snapshot(status: Status, message: string, stepsCompleted: nat)

  /** How one stage ends: it returns, or it raises an exception with this text. */
  datatype StageOutcome = Done | Failed(error: string)

  /** What `collect_leads(query)` gives: the number of leads found, or an exception. */
  datatype LeadCount = Leads(count: int) | GenerationFailed(error: string)

  /** The answer of `POST /api/pipeline/run`. */
  datatype RunResponse = Started | Rejected(code: int, detail: string)

  const ReadyMessage: string := "Ready"
  const StartMessage: string := "Starting lead generation..."
  const NoLeadsMessage: string := "No leads found for this query. Try a broader search term."
  const FinishedMessage: string := "Pipeline finished successfully"
  const AlreadyRunning: string := "Pipeline is already running"
  const StageCount: nat := 6

  /** The messages of stages 2 to 6. */
  const LaterMessages: seq<string> := [
    "Enriching leads with contact info...",
    "Scoring leads...",
    "Sending engagement emails...",
    "Checking for replies...",
    "Generating sales forecast..."
  ]

  /** The message shown while stage `k` (counting from 0) runs. */
  function StageMessage(query: string, k: nat): string
    requires k < StageCount
  {
    if k == 0 then "Searching for: " + query else LaterMessages[k - 1]
  }

  /** Stage 1 fails when lead generation raises, and also when it finds no lead. */
  function FirstOutcome(gen: LeadCount): StageOutcome {
    match gen
    case GenerationFailed(e) => Failed(e)
    case Leads(count) => if count == 0 then Failed(NoLeadsMessage) else Done
  }

  /** The outcomes of all six stages, from the lead count and the five later stages. */
  function Outcomes(gen: LeadCount, later: seq<StageOutcome>): seq<StageOutcome> {
    [FirstOutcome(gen)] + later
  }

  /** The two records stage `k` leaves: its message, then either the advanced count or the error. */
  function StageSnapshots(query: string, k: nat, outcome: StageOutcome): seq<Snapshot>
    requires k < StageCount
  {
    var shown := Snapshot(Running, StageMessage(query, k), k);
    match outcome
    case Done => [shown, Snapshot(Running, StageMessage(query, k), k + 1)]
    case Failed(e) => [shown, Snapshot(Error, e, k)]
  }

  /** The records of a run from stage `k` on, `k` stages having completed. */
  function StagesFrom(query: string, outcomes: seq<StageOutcome>, k: nat): seq<Snapshot>
    requires |outcomes| == StageCount && k <= StageCount
    decreases StageCount - k
  {
    if k == StageCount then [Snapshot(Completed, FinishedMessage, StageCount)]
    else if outcomes[k].Failed? then StageSnapshots(query, k, outcomes[k])
    else StageSnapshots(query, k, outcomes[k]) + StagesFrom(query, outcomes, k + 1)
  }

  /** Every record a run passes through, from the reset to the final one. */
  function Trace(query: string, outcomes: seq<StageOutcome>): seq<Snapshot>
    requires |outcomes| == StageCount
  {
    [Snapshot(Running, StartMessage, 0)] + StagesFrom(query, outcomes, 0)
  }

  /** The index of the first failing stage at or after `k`, or `StageCount` when none fails. */
  function FirstFailure(outcomes: seq<StageOutcome>, k: nat): (r: nat)
    requires |outcomes| == StageCount && k <= StageCount
    ensures k <= r <= StageCount
    ensures forall i :: k <= i < r ==> outcomes[i].Done?
    ensures r < StageCount ==> outcomes[r].Failed?
    decreases StageCount - k
  {
    if k == StageCount || outcomes[k].Failed? then k else FirstFailure(outcomes, k + 1)
  }

  /** The status record, with the log of every record it has held during the current run. */
  class PipelineState {
    var status: Status
    var message: string
    var stepsCompleted: nat
    ghost var history: seq<Snapshot>

    function Current(): Snapshot
      reads this
    {
      Snapshot(status, message, stepsCompleted)
    }

    /** The record at start-up: idle, "Ready", no step completed. */
    constructor ()
      ensures Current() == Snapshot(Idle, ReadyMessage, 0)
      ensures history == [Current()]
    {
      status, message, stepsCompleted := Idle, ReadyMessage, 0;
      history := [Snapshot(Idle, ReadyMessage, 0)];
    }

    /** `GET /api/pipeline/status`: the record, with the status as the string the API reports. */
    method GetStatus() returns (s: Snapshot, statusText: string)
      ensures s == Current()
      ensures statusText == Current().status.Name()
    {
      s := Snapshot(status, message, stepsCompleted);
      statusText := status.Name();
    }

    /**
     * The conflict check of `POST /api/pipeline/run`. It only reads the
     * record; the switch to `running` happens later, inside the task.
     */
    method RunPipeline(query: string) returns (r: RunResponse)
      ensures status == Running ==> r == Rejected(400, AlreadyRunning)
      ensures status != Running ==> r == Started
    {
      if status.Name() == "running" {
        return Rejected(400, AlreadyRunning);
      }
      return Started;
    }

    /**
     * Show stage `k`'s message, then record its outcome; `outcomes` are the
     * outcomes of the whole run, whose records so far are `history`.
     */
    method RunStage(query: string, ghost outcomes: seq<StageOutcome>, k: nat, outcome: StageOutcome) returns (ok: bool)
      requires |outcomes| == StageCount && k < StageCount && outcomes[k] == outcome
      requires stepsCompleted == k && status == Running
      requires history + StagesFrom(query, outcomes, k) == Trace(query, outcomes)
      modifies this
      ensures history == old(history) + StageSnapshots(query, k, outcome)
      ensures Current() == Last(history)
      ensures ok <==> outcome.Done?
      ensures ok ==> stepsCompleted == k + 1 && status == Running
      ensures ok ==> history + StagesFrom(query, outcomes, k + 1) == Trace(query, outcomes)
      ensures !ok ==> history == Trace(query, outcomes)
    {
      ghost var h := history;
      message := StageMessage(query, k);
      history := history + [Current()];
      match outcome {
        case Done =>
          stepsCompleted := k + 1;
          ok := true;
        case Failed(e) =>
          status, message := Error, e;
          ok := false;
      }
      history := history + [Current()];
      Advance(query, outcomes, k, h, history);
    }

    /**
     * `execute_pipeline_task(query)`: reset the record to running, run the
     * stages in order and stop at the first exception.
     */
    method ExecuteTask(query: string, gen: LeadCount, later: seq<StageOutcome>)
      requires |later| == StageCount - 1
      modifies this
      ensures history == Trace(query, Outcomes(gen, later))
      ensures Current() == Last(history)
    {
      ghost var outcomes := Outcomes(gen, later);
      status, message, stepsCompleted := Running, StartMessage, 0;
      history := [Current()];
      var ok: bool;
      ok := RunStage(query, outcomes, 0, FirstOutcome(gen));
      if !ok { return; }
      assert outcomes[1] == later[0];
      ok := RunStage(query, outcomes, 1, later[0]);
      if !ok { return; }
      assert outcomes[2] == later[1];
      ok := RunStage(query, outcomes, 2, later[1]);
      if !ok { return; }
      assert outcomes[3] == later[2];
      ok := RunStage(query, outcomes, 3, later[2]);
      if !ok { return; }
      assert outcomes[4] == later[3];
      ok := RunStage(query, outcomes, 4, later[3]);
      if !ok { return; }
      assert outcomes[5] == later[4];
      ok := RunStage(query, outcomes, 5, later[4]);
      if !ok { return; }
      status, message := Completed, FinishedMessage;
      history := history + [Current()];
    }
  }

  /** One stage of `StagesFrom`: the records `h` so far become `h'`, and the run goes on only if the stage returned. */
  lemma Advance(query: string, outcomes: seq<StageOutcome>, k: nat, h: seq<Snapshot>, h': seq<Snapshot>)
    requires |outcomes| == StageCount && k < StageCount
    requires h' == h + StageSnapshots(query, k, outcomes[k])
    ensures outcomes[k].Done? ==> h + StagesFrom(query, outcomes, k) == h' + StagesFrom(query, outcomes, k + 1)
    ensures outcomes[k].Failed? ==> h + StagesFrom(query, outcomes, k) == h'
  {
  }

  // ---- what a run promises ----

  /** The end of the records from stage `k` on, and how many there are. */
  lemma {:induction false} StagesFromEnd(query: string, outcomes: seq<StageOutcome>, k: nat)
    requires |outcomes| == StageCount && k <= StageCount
    ensures var f := FirstFailure(outcomes, k);
      var t := StagesFrom(query, outcomes, k);
      && |t| == (if f == StageCount then 2 * (StageCount - k) + 1 else 2 * (f - k) + 2)
      && Last(t) == (if f == StageCount then Snapshot(Completed, FinishedMessage, StageCount)
                     else Snapshot(Error, outcomes[f].error, f))
    decreases StageCount - k
  {
    if k < StageCount && outcomes[k].Done? {
      StagesFromEnd(query, outcomes, k + 1);
      var a := StageSnapshots(query, k, outcomes[k]);
      var b := StagesFrom(query, outcomes, k + 1);
      assert StagesFrom(query, outcomes, k) == a + b;
      assert FirstFailure(outcomes, k) == FirstFailure(outcomes, k + 1);
      assert Last(a + b) == Last(b);
    }
  }

  /**
   * How a run ends: completed with all six steps when no stage fails, else
   * at `error` with the first failure's text and the number of stages that
   * returned before it. Its record count shows that no later stage ran.
   */
  lemma RunEnd(query: string, outcomes: seq<StageOutcome>)
    requires |outcomes| == StageCount
    ensures var f := FirstFailure(outcomes, 0);
      var t := Trace(query, outcomes);
      && |t| == (if f == StageCount then 2 * StageCount + 2 else 2 * f + 3)
      && Last(t) == (if f == StageCount then Snapshot(Completed, FinishedMessage, StageCount)
                     else Snapshot(Error, outcomes[f].error, f))
  {
    StagesFromEnd(query, outcomes, 0);
  }

  /** A search that finds no lead ends the run at once, with no step completed. */
  lemma NoLeadsAborts(query: string, later: seq<StageOutcome>)
    requires |later| == StageCount - 1
    ensures Trace(query, Outcomes(Leads(0), later)) ==
            [Snapshot(Running, StartMessage, 0), Snapshot(Running, "Searching for: " + query, 0), Snapshot(Error, NoLeadsMessage, 0)]
  {
  }

  /** The records of stage `k` from stage `j` on: the message first, then the step count after it returned. */
  lemma {:induction false} StagesFromRecords(query: string, outcomes: seq<StageOutcome>, j: nat, k: nat)
    requires |outcomes| == StageCount && j <= k < StageCount && k <= FirstFailure(outcomes, j)
    ensures 2 * (k - j) + 1 < |StagesFrom(query, outcomes, j)|
    ensures StagesFrom(query, outcomes, j)[2 * (k - j)] == Snapshot(Running, StageMessage(query, k), k)
    ensures k < FirstFailure(outcomes, j) ==>
              StagesFrom(query, outcomes, j)[2 * (k - j) + 1] == Snapshot(Running, StageMessage(query, k), k + 1)
    decreases k - j
  {
    if j < k {
      StagesFromRecords(query, outcomes, j + 1, k);
      var a := StageSnapshots(query, j, outcomes[j]);
      var b := StagesFrom(query, outcomes, j + 1);
      assert StagesFrom(query, outcomes, j) == a + b;
      assert FirstFailure(outcomes, j) == FirstFailure(outcomes, j + 1);
      var n := 2 * (k - j - 1);
      assert 2 * (k - j) == n + 2;
      assert (a + b)[n + 2] == b[n];
      assert n + 1 < |b| ==> (a + b)[n + 3] == b[n + 1];
    }
  }

  /**
   * Every stage that runs first shows its message with the count unchanged,
   * and the count goes up by one only after the stage returned.
   */
  lemma StageRecords(query: string, outcomes: seq<StageOutcome>, k: nat)
    requires |outcomes| == StageCount && k < StageCount && k <= FirstFailure(outcomes, 0)
    ensures 2 * k + 2 < |Trace(query, outcomes)|
    ensures Trace(query, outcomes)[2 * k + 1] == Snapshot(Running, StageMessage(query, k), k)
    ensures k < FirstFailure(outcomes, 0) ==> Trace(query, outcomes)[2 * k + 2] == Snapshot(Running, StageMessage(query, k), k + 1)
  {
    StagesFromRecords(query, outcomes, 0, k);
    var rest := StagesFrom(query, outcomes, 0);
    var t := [Snapshot(Running, StartMessage, 0)] + rest;
    assert t[2 * k + 1] == rest[2 * k];
    assert 2 * k + 1 < |rest| ==> t[2 * k + 2] == rest[2 * k + 1];
  }

  /** Consecutive records keep the step count or raise it by one. */
  ghost predicate Climbs(t: seq<Snapshot>) {
    forall i :: 0 <= i < |t| - 1 ==> t[i].stepsCompleted <= t[i + 1].stepsCompleted <= t[i].stepsCompleted + 1
  }

  lemma {:induction false} StagesFromClimbs(query: string, outcomes: seq<StageOutcome>, k: nat)
    requires |outcomes| == StageCount && k <= StageCount
    ensures Climbs(StagesFrom(query, outcomes, k))
    ensures StagesFrom(query, outcomes, k)[0].stepsCompleted == k
    decreases StageCount - k
  {
    if k < StageCount && outcomes[k].Done? {
      StagesFromClimbs(query, outcomes, k + 1);
      var a := StageSnapshots(query, k, outcomes[k]);
      var b := StagesFrom(query, outcomes, k + 1);
      var t := a + b;
      forall i | 0 <= i < |t| - 1
        ensures t[i].stepsCompleted <= t[i + 1].stepsCompleted <= t[i].stepsCompleted + 1
      {
        if i >= 2 {
          assert t[i] == b[i - 2] && t[i + 1] == b[i - 1];
        }
      }
    }
  }

  /** The step count climbs by at most one at a time and never goes down during a run. */
  lemma StepsNeverDecrease(query: string, outcomes: seq<StageOutcome>)
    requires |outcomes| == StageCount
    ensures Trace(query, outcomes)[0].stepsCompleted == 0
    ensures Climbs(Trace(query, outcomes))
    ensures forall i, j :: 0 <= i <= j < |Trace(query, outcomes)| ==>
              Trace(query, outcomes)[i].stepsCompleted <= Trace(query, outcomes)[j].stepsCompleted
  {
    var t := Trace(query, outcomes);
    var rest := StagesFrom(query, outcomes, 0);
    StagesFromClimbs(query, outcomes, 0);
    forall i | 0 <= i < |t| - 1 ensures t[i].stepsCompleted <= t[i + 1].stepsCompleted <= t[i].stepsCompleted + 1 {
      if i >= 1 {
        assert t[i] == rest[i - 1] && t[i + 1] == rest[i];
      }
    }
    forall i, j | 0 <= i <= j < |t| ensures t[i].stepsCompleted <= t[j].stepsCompleted {
      ClimbsMonotone(t, i, j);
    }
  }

  lemma {:induction false} ClimbsMonotone(t: seq<Snapshot>, i: nat, j: nat)
    requires Climbs(t) && i <= j < |t|
    ensures t[i].stepsCompleted <= t[j].stepsCompleted
    decreases j - i
  {
    if i < j {
      ClimbsMonotone(t, i + 1, j);
    }
  }
}
