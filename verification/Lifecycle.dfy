/** Certificate rows under concurrency: request handlers, detached issuance tasks, the daily sweep,
    PFX downloads, deletes and process crashes, as steps over one shared state. */
module Lifecycle {
  import opened Text

  datatype Status = Pending | Issuing | Active | Failed {
    predicate InFlight() { Pending? || Issuing? }
  }

  /** Secret material. Each PEM is named by the issuance it came from, a password by its own number. */
  datatype Secret = Secret(fullchain: Option<nat>, cert: Option<nat>, chain: Option<nat>,
                           privkey: Option<nat>, pfx: Option<nat>)

  const EMPTY := Secret(None, None, None, None, None)

  /** `expires` names the issuance whose leaf's expiry was recorded; `ref` says that the material
      is in the backend and no longer in `columns`. */
  datatype Row = Row(status: Status, expires: Option<nat>, columns: Secret, ref: bool)

  /** What one activity has yet to do. `Picked`: a retry or the sweep has chosen the row but not
      yet written to it. `Queued` to `Failing`: an issuance task. The others: a PFX download that
      mints a password, and a delete. */
  datatype Job =
    | Picked(id: nat)
    | Queued(id: nat)
    | Ordering(id: nat)
    | Obtained(id: nat, n: nat)
    | Holding(id: nat, n: nat, base: Secret)
    | Written(id: nat, n: nat)
    | Stored(id: nat, n: nat)
    | Failing(id: nat)
    | PfxFetched(id: nat, ref: bool)
    | PfxHolding(id: nat, base: Secret)
    | Deleting(id: nat, ref: bool)
    | Removing(id: nat, ref: bool)

  predicate Live(job: Job) {
    job.Queued? || job.Ordering? || job.Obtained? || job.Holding? || job.Written? || job.Stored? || job.Failing?
  }

  predicate IsDelete(job: Job) {
    job.Deleting? || job.Removing?
  }

  /** `used` holds every id ever inserted; `orders[n]` is the row issuance `n` was for. */
  datatype State = State(external: bool, rows: map<nat, Row>, kv: map<nat, Secret>, used: set<nat>,
                         orders: seq<nat>, jobs: map<nat, Job>)

  function Init(external: bool): State {
    State(external, map[], map[], {}, [], map[])
  }

  datatype Step =
    | Insert(id: nat, j: nat)
    | Claim(id: nat, j: nat)
    | PickRetry(id: nat, j: nat)
    | PickSweep(id: nat, j: nat)
    | WritePending(j: nat)
    | WriteIssuing(j: nat)
    | Obtain(j: nat)
    | StoreColumns(j: nat)
    | ReadSecret(j: nat, ok: bool)
    | WriteSecret(j: nat, reply: bool)
    | PointRow(j: nat)
    | Activate(j: nat)
    | Fail(j: nat)
    | MarkFailed(j: nat)
    | LoseMark(j: nat)
    | PfxFetch(id: nat, j: nat)
    | PfxRead(j: nat)
    | PfxWriteSecret(j: nat, password: nat)
    | PfxWriteColumn(j: nat, password: nat)
    | PfxGiveUp(j: nat)
    | DeleteFetch(id: nat, j: nat)
    | DeleteRow(j: nat)
    | DeleteSecret(j: nat, ok: bool)
    | Crash

  function SecretAt(kv: map<nat, Secret>, id: nat): Secret {
    if id in kv then kv[id] else EMPTY
  }

  /** What `load_cert_material` returns for a row. */
  function Load(s: State, id: nat): Secret
    requires id in s.rows
  {
    if s.rows[id].ref then SecretAt(s.kv, id) else s.rows[id].columns
  }

  function Overlay(base: Secret, n: nat): Secret {
    Secret(Some(n), Some(n), Some(n), Some(n), base.pfx)
  }

  predicate Enabled(s: State, step: Step) {
    match step
    case Insert(id, j) => id !in s.used && j !in s.jobs
    case Claim(id, j) => id in s.rows && !s.rows[id].status.InFlight() && j !in s.jobs
    case PickRetry(id, j) => id in s.rows && s.rows[id].status.Failed? && j !in s.jobs
    case PickSweep(id, j) => id in s.rows && (s.rows[id].status.Active? || s.rows[id].status.Failed?) && j !in s.jobs
    case WritePending(j) => j in s.jobs && s.jobs[j].Picked?
    case WriteIssuing(j) => j in s.jobs && s.jobs[j].Queued?
    case Obtain(j) => j in s.jobs && s.jobs[j].Ordering?
    case StoreColumns(j) => j in s.jobs && s.jobs[j].Obtained? && !s.external
    case ReadSecret(j, ok) => j in s.jobs && s.jobs[j].Obtained? && s.external
    case WriteSecret(j, reply) => j in s.jobs && s.jobs[j].Holding?
    case PointRow(j) => j in s.jobs && s.jobs[j].Written?
    case Activate(j) => j in s.jobs && s.jobs[j].Stored?
    case Fail(j) => j in s.jobs && Live(s.jobs[j]) && !s.jobs[j].Failing?
    case MarkFailed(j) => j in s.jobs && s.jobs[j].Failing?
    case LoseMark(j) => j in s.jobs && s.jobs[j].Failing?
    case PfxFetch(id, j) => id in s.rows && Load(s, id).cert.Some? && Load(s, id).pfx.None? && j !in s.jobs
    case PfxRead(j) => j in s.jobs && s.jobs[j].PfxFetched? && s.jobs[j].ref
    case PfxWriteSecret(j, password) => j in s.jobs && s.jobs[j].PfxHolding?
    case PfxWriteColumn(j, password) => j in s.jobs && s.jobs[j].PfxFetched? && !s.jobs[j].ref
    case PfxGiveUp(j) => j in s.jobs && (s.jobs[j].PfxFetched? || s.jobs[j].PfxHolding?)
    case DeleteFetch(id, j) => id in s.rows && j !in s.jobs
    case DeleteRow(j) => j in s.jobs && s.jobs[j].Deleting?
    case DeleteSecret(j, ok) => j in s.jobs && s.jobs[j].Removing?
    case Crash => true
  }

  /** An UPDATE by id: it changes nothing, and reports no error, when the row is gone. */
  function SetStatus(rows: map<nat, Row>, id: nat, status: Status): map<nat, Row> {
    if id in rows then rows[id := rows[id].(status := status)] else rows
  }

  function SetColumns(rows: map<nat, Row>, id: nat, columns: Secret): map<nat, Row> {
    if id in rows then rows[id := rows[id].(columns := columns)] else rows
  }

  function ColumnsAt(rows: map<nat, Row>, id: nat): Secret {
    if id in rows then rows[id].columns else EMPTY
  }

  function RowsAfter(s: State, step: Step): map<nat, Row>
    requires Enabled(s, step)
  {
    match step
    case Insert(id, j) => s.rows[id := Row(Pending, None, EMPTY, false)]
    case Claim(id, j) => SetStatus(s.rows, id, Pending)
    case WritePending(j) => SetStatus(s.rows, s.jobs[j].id, Pending)
    case WriteIssuing(j) => SetStatus(s.rows, s.jobs[j].id, Issuing)
    case StoreColumns(j) => SetColumns(s.rows, s.jobs[j].id, Overlay(ColumnsAt(s.rows, s.jobs[j].id), s.jobs[j].n))
    case PointRow(j) =>
      var id := s.jobs[j].id;
      if id in s.rows then
        s.rows[id := s.rows[id].(columns := EMPTY.(pfx := s.rows[id].columns.pfx), ref := true)]
      else s.rows
    case Activate(j) =>
      var id := s.jobs[j].id;
      if id in s.rows then s.rows[id := s.rows[id].(status := Active, expires := Some(s.jobs[j].n))] else s.rows
    case MarkFailed(j) => SetStatus(s.rows, s.jobs[j].id, Failed)
    case PfxWriteColumn(j, password) =>
      SetColumns(s.rows, s.jobs[j].id, ColumnsAt(s.rows, s.jobs[j].id).(pfx := Some(password)))
    case DeleteRow(j) => s.rows - {s.jobs[j].id}
    case _ => s.rows
  }

  function KvAfter(s: State, step: Step): map<nat, Secret>
    requires Enabled(s, step)
  {
    match step
    case WriteSecret(j, reply) => s.kv[s.jobs[j].id := Overlay(s.jobs[j].base, s.jobs[j].n)]
    case PfxWriteSecret(j, password) => s.kv[s.jobs[j].id := s.jobs[j].base.(pfx := Some(password))]
    case DeleteSecret(j, ok) => if ok && s.jobs[j].ref then s.kv - {s.jobs[j].id} else s.kv
    case _ => s.kv
  }

  /** The job a step starts or advances, as it is afterwards; `None` when it ends. */
  function JobAfter(s: State, step: Step): Option<Job>
    requires Enabled(s, step)
  {
    match step
    case Insert(id, j) => Some(Queued(id))
    case Claim(id, j) => Some(Queued(id))
    case PickRetry(id, j) => Some(Picked(id))
    case PickSweep(id, j) => Some(Picked(id))
    case WritePending(j) => Some(Queued(s.jobs[j].id))
    case WriteIssuing(j) => Some(Ordering(s.jobs[j].id))
    case Obtain(j) => Some(Obtained(s.jobs[j].id, |s.orders|))
    case StoreColumns(j) => Some(Stored(s.jobs[j].id, s.jobs[j].n))
    case ReadSecret(j, ok) =>
      Some(Holding(s.jobs[j].id, s.jobs[j].n, if ok then SecretAt(s.kv, s.jobs[j].id) else EMPTY))
    case WriteSecret(j, reply) => Some(if reply then Written(s.jobs[j].id, s.jobs[j].n) else Failing(s.jobs[j].id))
    case PointRow(j) => Some(Stored(s.jobs[j].id, s.jobs[j].n))
    case Fail(j) => Some(Failing(s.jobs[j].id))
    case PfxFetch(id, j) => Some(PfxFetched(id, s.rows[id].ref))
    case PfxRead(j) => Some(PfxHolding(s.jobs[j].id, SecretAt(s.kv, s.jobs[j].id)))
    case DeleteFetch(id, j) => Some(Deleting(id, s.rows[id].ref))
    case DeleteRow(j) => if s.jobs[j].id in s.rows then Some(Removing(s.jobs[j].id, s.jobs[j].ref)) else None
    case _ => None
  }

  function JobsAfter(s: State, step: Step): map<nat, Job>
    requires Enabled(s, step)
  {
    if step.Crash? then map[]
    else if JobAfter(s, step).Some? then s.jobs[step.j := JobAfter(s, step).value]
    else s.jobs - {step.j}
  }

  function Apply(s: State, step: Step): State
    requires Enabled(s, step)
  {
    State(s.external, RowsAfter(s, step), KvAfter(s, step),
          if step.Insert? then s.used + {step.id} else s.used,
          if step.Obtain? then s.orders + [s.jobs[step.j].id] else s.orders,
          JobsAfter(s, step))
  }

  // ── Runs ───────────────────────────────────────────────────────────────────

  predicate Legal(s: State, steps: seq<Step>)
    decreases |steps|
  {
    steps == [] || (Enabled(s, steps[0]) && Legal(Apply(s, steps[0]), steps[1..]))
  }

  function Final(s: State, steps: seq<Step>): State
    requires Legal(s, steps)
    decreases |steps|
  {
    if steps == [] then s else Final(Apply(s, steps[0]), steps[1..])
  }

  /** Every step of the run satisfies `ok` in the state it is taken from. */
  predicate Along(s: State, steps: seq<Step>, ok: (State, Step) -> bool)
    requires Legal(s, steps)
    decreases |steps|
  {
    steps == [] || (ok(s, steps[0]) && Along(Apply(s, steps[0]), steps[1..], ok))
  }

  // ── A task for every row in flight ─────────────────────────────────────────

  predicate LiveOn(s: State, id: nat, j: nat) {
    j in s.jobs && Live(s.jobs[j]) && s.jobs[j].id == id
  }

  ghost predicate Busy(s: State, id: nat) {
    exists j :: LiveOn(s, id, j)
  }

  ghost predicate InFlightIsBusy(s: State) {
    forall id :: id in s.rows && s.rows[id].status.InFlight() ==> Busy(s, id)
  }

  /** Neither a crash nor a final `failed` that the database loses, which `mark_failed` ignores. */
  predicate Completes(step: Step) {
    !step.Crash? && !step.LoseMark?
  }

  /** Such a step ends a task only by writing `active` or `failed` to its row. */
  lemma BusyUntilSettled(s: State, step: Step, id: nat)
    requires Enabled(s, step) && Completes(step) && Busy(s, id)
    ensures Busy(Apply(s, step), id)
            || (id in Apply(s, step).rows ==> !Apply(s, step).rows[id].status.InFlight())
  {
    var j :| LiveOn(s, id, j);
    var t := Apply(s, step);
    if step.j != j || JobAfter(s, step).Some? {
      assert LiveOn(t, id, j);
    }
  }

  lemma StepKeepsBusy(s: State, step: Step)
    requires Enabled(s, step) && Completes(step) && InFlightIsBusy(s)
    ensures InFlightIsBusy(Apply(s, step))
  {
    var t := Apply(s, step);
    forall id | id in t.rows && t.rows[id].status.InFlight() ensures Busy(t, id) {
      if id in s.rows && s.rows[id].status.InFlight() {
        BusyUntilSettled(s, step, id);
      } else {
        assert LiveOn(t, id, step.j);
      }
    }
  }

  /** Without a crash or a lost final write, however the steps interleave, every pending or issuing row has a live task;
      once no task is left, every row is active or failed. */
  lemma {:induction false} CrashFreeRunsStrandNothing(s: State, steps: seq<Step>)
    requires InFlightIsBusy(s) && Legal(s, steps)
    requires forall k :: 0 <= k < |steps| ==> Completes(steps[k])
    ensures InFlightIsBusy(Final(s, steps))
    ensures (forall j :: j in Final(s, steps).jobs ==> !Live(Final(s, steps).jobs[j])) ==>
              forall id :: id in Final(s, steps).rows ==> !Final(s, steps).rows[id].status.InFlight()
    decreases |steps|
  {
    if steps != [] {
      StepKeepsBusy(s, steps[0]);
      CrashFreeRunsStrandNothing(Apply(s, steps[0]), steps[1..]);
    } else {
      forall id | id in s.rows && s.rows[id].status.InFlight()
        ensures exists j :: j in s.jobs && Live(s.jobs[j])
      {
        var j :| LiveOn(s, id, j);
        assert Live(s.jobs[j]);
      }
    }
  }

  /** How many steps a job has left at most. */
  function Rank(job: Job): nat {
    match job
    case Picked(_) => 8
    case Queued(_) => 7
    case Ordering(_) => 6
    case Obtained(_, _) => 5
    case Holding(_, _, _) => 4
    case Written(_, _) => 3
    case Stored(_, _) => 2
    case Failing(_) => 1
    case PfxFetched(_, _) => 2
    case PfxHolding(_, _) => 1
    case Deleting(_, _) => 2
    case Removing(_, _) => 1
  }

  predicate SettledOrGone(s: State, id: nat) {
    id in s.rows ==> s.rows[id].status.Active? || s.rows[id].status.Failed?
  }

  /** A task, or a retry or sweep that has picked its row and will become one. */
  predicate Working(job: Job) {
    Live(job) || job.Picked?
  }

  /** A job's own step brings it closer to its end, and one that works on a row leaves it settled
      when it ends, or the row is gone; nobody else's step touches the job. */
  lemma JobAdvances(s: State, step: Step, j: nat)
    requires Enabled(s, step) && !step.Crash? && j in s.jobs
    ensures step.j != j ==> j in Apply(s, step).jobs && Apply(s, step).jobs[j] == s.jobs[j]
    ensures step.j == j && j in Apply(s, step).jobs ==>
              && Apply(s, step).jobs[j].id == s.jobs[j].id
              && Rank(Apply(s, step).jobs[j]) < Rank(s.jobs[j])
              && (Working(s.jobs[j]) ==> Live(Apply(s, step).jobs[j]))
    ensures step.j == j && j !in Apply(s, step).jobs && Working(s.jobs[j]) && !step.LoseMark? ==>
              SettledOrGone(Apply(s, step), s.jobs[j].id)
  {
    hide KvAfter;
  }

  /** The steps job `j` takes in a run. */
  function Turns(steps: seq<Step>, j: nat): nat {
    if steps == [] then 0
    else (if !steps[0].Crash? && steps[0].j == j then 1 else 0) + Turns(steps[1..], j)
  }

  /** Everybody who works on a row ends. By the time the job has had as many steps as its rank
      allows, in any crash-free interleaving, there was a moment when it was gone and had left its
      row settled or deleted. */
  lemma {:induction false} EveryTaskEnds(s: State, steps: seq<Step>, j: nat) returns (k: nat)
    requires Legal(s, steps) && forall i :: 0 <= i < |steps| ==> Completes(steps[i])
    requires j in s.jobs && Working(s.jobs[j]) && Turns(steps, j) >= Rank(s.jobs[j])
    ensures k <= |steps| && Legal(s, steps[..k])
    ensures j !in Final(s, steps[..k]).jobs && SettledOrGone(Final(s, steps[..k]), s.jobs[j].id)
    decreases |steps|
  {
    hide Enabled, Apply, SettledOrGone;
    assert steps != [] by { assert Rank(s.jobs[j]) > 0; }
    assert Completes(steps[0]);
    var t := Apply(s, steps[0]);
    JobAdvances(s, steps[0], j);
    if j in t.jobs {
      k := EveryTaskEnds(t, steps[1..], j);
      assert steps[..k + 1][1..] == steps[1..][..k] && steps[..k + 1][0] == steps[0];
      k := k + 1;
    } else {
      k := 1;
      assert steps[..1][1..] == [] && Final(t, []) == t;
    }
  }

  // ── What a crash leaves behind ─────────────────────────────────────────────

  /** In flight, with nobody working on it or about to. */
  ghost predicate Stranded(s: State, id: nat, status: Status) {
    && id in s.rows && s.rows[id].status == status && status.InFlight() && id in s.used
    && forall j :: j in s.jobs && s.jobs[j].id == id ==> !Working(s.jobs[j])
  }

  lemma StrandedRowStep(s: State, step: Step, id: nat, status: Status)
    requires Enabled(s, step) && Stranded(s, id, status)
    ensures id in Apply(s, step).rows ==> Apply(s, step).rows[id].status == status
    ensures id !in Apply(s, step).rows ==> step.DeleteRow? && s.jobs[step.j].id == id
  {
    hide KvAfter, JobsAfter, JobAfter;
  }

  lemma StrandedStep(s: State, step: Step, id: nat, status: Status)
    requires Enabled(s, step) && Stranded(s, id, status)
    ensures Stranded(Apply(s, step), id, status)
            || (step.DeleteRow? && s.jobs[step.j].id == id && id !in Apply(s, step).rows)
  {
    hide KvAfter, RowsAfter;
    StrandedRowStep(s, step, id, status);
  }

  lemma {:induction false} DeletedStaysDeleted(s: State, steps: seq<Step>, id: nat)
    requires Legal(s, steps) && id in s.used && id !in s.rows
    ensures id !in Final(s, steps).rows
    decreases |steps|
  {
    if steps != [] {
      DeletedStaysDeleted(Apply(s, steps[0]), steps[1..], id);
    }
  }

  /** A stranded row keeps its status through every later run, of any steps and any number of
      restarts: no sweep, renewal, retry or create takes it up again. Deleting it is the only way
      out, against the comment that leaves an `issuing` row to "the retry sweep". */
  lemma {:induction false} StrandedForever(s: State, steps: seq<Step>, id: nat, status: Status)
    requires Legal(s, steps) && Stranded(s, id, status)
    ensures Stranded(Final(s, steps), id, status) || id !in Final(s, steps).rows
    decreases |steps|
  {
    if steps != [] {
      var t := Apply(s, steps[0]);
      StrandedStep(s, steps[0], id, status);
      if Stranded(t, id, status) {
        StrandedForever(t, steps[1..], id, status);
      } else {
        DeletedStaysDeleted(t, steps[1..], id);
      }
    }
  }

  /** What a crash does to a row in flight. */
  lemma CrashStrandsForever(s: State, id: nat, steps: seq<Step>)
    requires id in s.rows && s.rows[id].status.InFlight() && id in s.used
    requires Legal(Apply(s, Crash), steps)
    ensures id in Final(Apply(s, Crash), steps).rows ==>
              Final(Apply(s, Crash), steps).rows[id].status == s.rows[id].status
  {
    assert Stranded(Apply(s, Crash), id, s.rows[id].status);
    StrandedForever(Apply(s, Crash), steps, id, s.rows[id].status);
  }

  ghost predicate WorkedOn(s: State, id: nat) {
    exists j :: j in s.jobs && s.jobs[j].id == id && Working(s.jobs[j])
  }

  /** Some run, of any steps and any crashes, settles the row without deleting it. */
  ghost predicate CanSettle(s: State, id: nat) {
    exists steps :: Legal(s, steps) && id in Final(s, steps).rows && !Final(s, steps).rows[id].status.InFlight()
  }

  lemma SettlesAfter(s: State, step: Step, id: nat)
    requires Enabled(s, step) && CanSettle(Apply(s, step), id)
    ensures CanSettle(s, id)
  {
    hide Enabled, Apply;
    var rest :| Legal(Apply(s, step), rest) && id in Final(Apply(s, step), rest).rows
             && !Final(Apply(s, step), rest).rows[id].status.InFlight();
    var steps := [step] + rest;
    assert steps[0] == step && steps[1..] == rest;
    assert Final(s, steps) == Final(Apply(s, step), rest);
  }

  lemma SettlesNow(s: State, id: nat)
    requires id in s.rows && !s.rows[id].status.InFlight()
    ensures CanSettle(s, id)
  {
    assert Legal(s, []) && Final(s, []) == s;
  }

  /** The shortest way out: pending, failed, done. */
  lemma WorkerSettles(s: State, j: nat)
    requires j in s.jobs && Working(s.jobs[j]) && s.jobs[j].id in s.rows
    ensures CanSettle(s, s.jobs[j].id)
    decreases s.jobs[j].Picked?, !s.jobs[j].Failing?
  {
    hide CanSettle;
    var id := s.jobs[j].id;
    var step := if s.jobs[j].Picked? then WritePending(j) else if s.jobs[j].Failing? then MarkFailed(j) else Fail(j);
    var t := Apply(s, step);
    if s.jobs[j].Failing? {
      SettlesNow(t, id);
    } else {
      WorkerSettles(t, j);
    }
    SettlesAfter(s, step, id);
  }

  /** A row in flight can still be settled if and only if somebody works on it or has picked it. */
  lemma SettlesIff(s: State, id: nat)
    requires id in s.rows && s.rows[id].status.InFlight() && id in s.used
    ensures CanSettle(s, id) <==> WorkedOn(s, id)
  {
    if WorkedOn(s, id) {
      var j :| j in s.jobs && s.jobs[j].id == id && Working(s.jobs[j]);
      WorkerSettles(s, j);
    } else {
      var status := s.rows[id].status;
      assert Stranded(s, id, status);
      forall steps | Legal(s, steps) && id in Final(s, steps).rows
        ensures Final(s, steps).rows[id].status == status
      {
        StrandedForever(s, steps, id, status);
      }
    }
  }

  // ── One issuance behind the four PEMs ──────────────────────────────────────

  /** The PEMs are all absent or all of one issuance, which was for this row. */
  predicate Own(s: State, id: nat, m: Secret) {
    && m.fullchain == m.cert && m.chain == m.cert && m.privkey == m.cert
    && (m.cert.Some? ==> m.cert.value < |s.orders| && s.orders[m.cert.value] == id)
  }

  predicate SamePems(a: Secret, b: Secret) {
    a.fullchain == b.fullchain && a.cert == b.cert && a.chain == b.chain && a.privkey == b.privkey
  }

  predicate OwnNumber(s: State, id: nat, n: nat) {
    n < |s.orders| && s.orders[n] == id
  }

  predicate HasPems(m: Secret) {
    m.cert.Some?
  }

  predicate RowSound(s: State, id: nat)
    requires id in s.rows
  {
    && id in s.used
    && Own(s, id, s.rows[id].columns)
    && (s.rows[id].ref ==> s.external && HasPems(SecretAt(s.kv, id)))
    && (s.rows[id].status.Active? ==> HasPems(Load(s, id)))
  }

  predicate JobSound(s: State, job: Job) {
    && job.id in s.used
    && (job.Obtained? || job.Holding? || job.Written? || job.Stored? ==> OwnNumber(s, job.id, job.n))
    && (job.Holding? || job.PfxHolding? ==> Own(s, job.id, job.base))
    && (job.Holding? || job.Written? ==> s.external)
    && (job.Removing? ==> job.id !in s.rows)
    && (job.id in s.rows ==>
          && (job.Written? ==> HasPems(SecretAt(s.kv, job.id)))
          && (job.Stored? ==> HasPems(Load(s, job.id)))
          && (job.PfxFetched? && job.ref ==> s.rows[job.id].ref)
          && (job.PfxHolding? ==> s.rows[job.id].ref && HasPems(job.base)))
  }

  ghost predicate Sound(s: State) {
    && (forall id :: id in s.rows ==> RowSound(s, id))
    && (forall id :: id in s.kv ==> id in s.used && Own(s, id, s.kv[id]))
    && (forall j :: j in s.jobs ==> JobSound(s, s.jobs[j]))
  }

  /** Who may write what into an existing row. */
  predicate MayChange(s: State, step: Step, id: nat, was: Row, now: Row)
    requires Enabled(s, step)
  {
    var own := !step.Crash? && step.j in s.jobs && s.jobs[step.j].id == id;
    && (now.columns == was.columns
        || (own && step.StoreColumns? && now.columns == Overlay(was.columns, s.jobs[step.j].n))
        || (own && step.PfxWriteColumn? && now.columns == was.columns.(pfx := Some(step.password)))
        || (own && step.PointRow? && now.columns == EMPTY.(pfx := was.columns.pfx)))
    && (if own && step.PointRow? then now.ref else now.ref == was.ref)
    && ((now.status == was.status && now.expires == was.expires)
        || (step.Claim? && step.id == id && now.status.Pending?)
        || (own && step.WritePending? && now.status.Pending?)
        || (own && step.WriteIssuing? && now.status.Issuing?)
        || (own && step.MarkFailed? && now.status.Failed?)
        || (own && step.Activate? && now.status.Active? && now.expires == Some(s.jobs[step.j].n)))
  }

  lemma RowChange(s: State, step: Step, id: nat)
    requires Enabled(s, step) && id in s.used && id in Apply(s, step).rows
    ensures id in s.rows && MayChange(s, step, id, s.rows[id], Apply(s, step).rows[id])
  {
    hide JobsAfter, JobAfter, KvAfter;
  }

  /** Who may write what into a secret. */
  lemma SecretChange(s: State, step: Step, id: nat)
    requires Enabled(s, step)
    ensures SecretAt(Apply(s, step).kv, id) == SecretAt(s.kv, id)
            || (!step.Crash? && step.j in s.jobs && s.jobs[step.j].id == id
                && (step.WriteSecret? ==>
                     SecretAt(Apply(s, step).kv, id) == Overlay(s.jobs[step.j].base, s.jobs[step.j].n))
                && (step.PfxWriteSecret? ==>
                     SecretAt(Apply(s, step).kv, id) == s.jobs[step.j].base.(pfx := Some(step.password)))
                && (step.DeleteSecret? ==> SecretAt(Apply(s, step).kv, id) == EMPTY)
                && (step.WriteSecret? || step.PfxWriteSecret? || step.DeleteSecret?))
  {
    hide JobsAfter, JobAfter, RowsAfter;
  }

  /** While a row exists its material is never lost and its reference never unset. */
  lemma MaterialPersists(s: State, step: Step, id: nat)
    requires Enabled(s, step) && Sound(s) && id in s.used
    ensures id in Apply(s, step).rows ==> id in s.rows
    ensures id in Apply(s, step).rows && HasPems(SecretAt(s.kv, id)) ==> HasPems(SecretAt(Apply(s, step).kv, id))
    ensures id in Apply(s, step).rows && s.rows[id].ref ==> Apply(s, step).rows[id].ref
    ensures id in Apply(s, step).rows && HasPems(Load(s, id)) ==> HasPems(Load(Apply(s, step), id))
  {
    hide RowsAfter, KvAfter, JobsAfter, JobAfter, Own, SecretAt, HasPems, Load, MayChange, Enabled;
    if id in Apply(s, step).rows {
      RowChange(s, step, id);
      assert RowSound(s, id);
      assert step.Crash? || step.j !in s.jobs || JobSound(s, s.jobs[step.j]);
      hide Sound, RowSound, JobSound;
      ExistingMaterialPersists(s, step, id);
    }
  }

  lemma ExistingMaterialPersists(s: State, step: Step, id: nat)
    requires Enabled(s, step) && id in s.rows && id in Apply(s, step).rows && RowSound(s, id)
    requires MayChange(s, step, id, s.rows[id], Apply(s, step).rows[id])
    requires step.Crash? || step.j !in s.jobs || JobSound(s, s.jobs[step.j])
    ensures HasPems(SecretAt(s.kv, id)) ==> HasPems(SecretAt(Apply(s, step).kv, id))
    ensures s.rows[id].ref ==> Apply(s, step).rows[id].ref
    ensures HasPems(Load(s, id)) ==> HasPems(Load(Apply(s, step), id))
  {
    hide RowsAfter, KvAfter, JobsAfter, JobAfter, Own, SecretAt;
    SecretChange(s, step, id);
  }

  lemma RowStaysSound(s: State, step: Step, id: nat)
    requires Enabled(s, step) && Sound(s) && id in Apply(s, step).rows
    ensures RowSound(Apply(s, step), id)
  {
    var t := Apply(s, step);
    if id in s.rows {
      OldRowStaysSound(s, step, id);
    }
  }

  lemma ChangedRowIsSound(s: State, step: Step, id: nat, now: Row)
    requires Enabled(s, step) && id in s.rows && RowSound(s, id) && MayChange(s, step, id, s.rows[id], now)
    requires !step.Crash? && step.j in s.jobs ==> JobSound(s, s.jobs[step.j])
    requires id in Apply(s, step).rows && Apply(s, step).rows[id] == now
    requires s.rows[id].ref
              || (!step.Crash? && step.j in s.jobs && s.jobs[step.j].id == id && s.jobs[step.j].Written?) ==>
               HasPems(SecretAt(Apply(s, step).kv, id))
    requires HasPems(Load(s, id)) ==> HasPems(Load(Apply(s, step), id))
    ensures RowSound(Apply(s, step), id)
  {
    hide RowsAfter, KvAfter, JobsAfter, JobAfter, SecretAt;
  }

  lemma OldRowStaysSound(s: State, step: Step, id: nat)
    requires Enabled(s, step) && Sound(s) && id in s.rows && id in Apply(s, step).rows
    ensures RowSound(Apply(s, step), id)
  {
    hide RowsAfter, KvAfter, JobsAfter, JobAfter, SecretAt, MayChange, Own, Load, HasPems;
    assert RowSound(s, id);
    RowChange(s, step, id);
    MaterialPersists(s, step, id);
    if !step.Crash? && step.j in s.jobs {
      assert JobSound(s, s.jobs[step.j]);
    }
    ChangedRowIsSound(s, step, id, Apply(s, step).rows[id]);
  }

  lemma SecretStaysSound(s: State, step: Step, id: nat)
    requires Enabled(s, step) && Sound(s) && id in Apply(s, step).kv
    ensures id in Apply(s, step).used && Own(Apply(s, step), id, Apply(s, step).kv[id])
  {
    hide JobsAfter, JobAfter, RowsAfter, KvAfter, RowSound, HasPems;
    SecretChange(s, step, id);
    WhereSecretsComeFrom(s, step, id);
    if !step.Crash? && step.j in s.jobs {
      assert JobSound(s, s.jobs[step.j]);
    }
  }

  /** A job another activity owns. */
  lemma OtherJobStaysSound(s: State, step: Step, job: Job)
    requires Enabled(s, step) && Sound(s) && JobSound(s, job)
    ensures JobSound(Apply(s, step), job)
  {
    hide JobsAfter, JobAfter, RowsAfter, KvAfter, Load, SecretAt, HasPems, Enabled;
    MaterialPersists(s, step, job.id);
  }

  lemma NewJobIsSound(s: State, step: Step)
    requires Enabled(s, step) && Sound(s)
    requires step.Insert? || step.Claim? || step.PickRetry? || step.PickSweep? || step.PfxFetch? || step.DeleteFetch?
    ensures JobAfter(s, step).Some? && JobSound(Apply(s, step), JobAfter(s, step).value)
  {
    hide JobsAfter, KvAfter, Own, HasPems;
    assert step.id in s.rows ==> RowSound(s, step.id);
  }

  lemma AdvancedJobIsSound(s: State, step: Step, job: Job)
    requires Enabled(s, step) && !step.Crash? && step.j in s.jobs && s.jobs[step.j] == job && JobSound(s, job)
    requires job.id in s.rows ==> RowSound(s, job.id)
    requires job.id in s.kv ==> Own(s, job.id, s.kv[job.id])
    requires JobAfter(s, step).Some?
    ensures JobSound(Apply(s, step), JobAfter(s, step).value)
  {
    hide JobsAfter;
  }

  lemma OwnJobStaysSound(s: State, step: Step)
    requires Enabled(s, step) && Sound(s) && !step.Crash? && JobAfter(s, step).Some?
    ensures JobSound(Apply(s, step), JobAfter(s, step).value)
  {
    if step.Insert? || step.Claim? || step.PickRetry? || step.PickSweep? || step.PfxFetch? || step.DeleteFetch? {
      NewJobIsSound(s, step);
    } else {
      hide RowsAfter, KvAfter, JobsAfter, JobAfter, RowSound, JobSound, Own, Apply;
      AdvancedJobIsSound(s, step, s.jobs[step.j]);
    }
  }

  lemma StepKeepsSound(s: State, step: Step)
    requires Enabled(s, step) && Sound(s)
    ensures Sound(Apply(s, step))
  {
    hide RowsAfter, KvAfter, JobAfter, RowSound, JobSound, Own, Enabled;
    var t := Apply(s, step);
    forall id | id in t.rows ensures RowSound(t, id) { RowStaysSound(s, step, id); }
    forall id | id in t.kv ensures id in t.used && Own(t, id, t.kv[id]) { SecretStaysSound(s, step, id); }
    forall j | j in t.jobs ensures JobSound(t, t.jobs[j]) {
      if j in s.jobs && s.jobs[j] == t.jobs[j] {
        OtherJobStaysSound(s, step, s.jobs[j]);
      } else {
        OwnJobStaysSound(s, step);
      }
    }
  }

  /** Every run of every step, crashes included: the four PEMs a row loads come from one issuance
      that was for this row, and an active row has them. */
  lemma {:induction false} RunsKeepPemsTogether(s: State, steps: seq<Step>)
    requires Sound(s) && Legal(s, steps)
    ensures Sound(Final(s, steps))
    ensures forall id :: id in Final(s, steps).rows ==>
              && Own(Final(s, steps), id, Load(Final(s, steps), id))
              && (Final(s, steps).rows[id].status.Active? ==> HasPems(Load(Final(s, steps), id)))
    decreases |steps|
  {
    if steps != [] {
      StepKeepsSound(s, steps[0]);
      RunsKeepPemsTogether(Apply(s, steps[0]), steps[1..]);
    } else {
      forall id | id in s.rows
        ensures Own(s, id, Load(s, id)) && (s.rows[id].status.Active? ==> HasPems(Load(s, id)))
      {
        assert RowSound(s, id);
      }
    }
  }

  /** Claims, failures, crashes and other rows' steps never touch a row's PEMs. What does is a
      storing step of its own task, or a password write that puts back the PEMs it had read. */
  lemma OnlyStoresChangePems(s: State, step: Step, id: nat)
    requires Enabled(s, step) && Sound(s) && id in s.rows && id in Apply(s, step).rows
    requires !SamePems(Load(s, id), Load(Apply(s, step), id))
    ensures step.StoreColumns? || step.WriteSecret? || step.PointRow? || step.PfxWriteSecret?
    ensures s.jobs[step.j].id == id
    ensures step.StoreColumns? || step.WriteSecret? ==> Load(Apply(s, step), id).cert == Some(s.jobs[step.j].n)
    ensures step.PointRow? ==> Load(Apply(s, step), id) == SecretAt(s.kv, id)
    ensures step.PfxWriteSecret? ==> SamePems(Load(Apply(s, step), id), s.jobs[step.j].base)
  {
    hide RowsAfter, KvAfter, JobsAfter, JobAfter, Own, SecretAt;
    assert RowSound(s, id);
    RowChange(s, step, id);
    SecretChange(s, step, id);
    if !step.Crash? && step.j in s.jobs {
      assert JobSound(s, s.jobs[step.j]);
    }
  }

  // ── One task per row, and the recorded expiry ──────────────────────────────

  predicate Tasks(s: State, j: nat, k: nat) {
    j in s.jobs && k in s.jobs && Live(s.jobs[j]) && Live(s.jobs[k])
  }

  ghost predicate OneTask(s: State) {
    forall j, k :: Tasks(s, j, k) && s.jobs[j].id == s.jobs[k].id ==> j == k
  }

  predicate RowFresh(s: State, id: nat)
    requires id in s.rows
  {
    s.rows[id].status.Active? ==> s.rows[id].expires.Some? && Load(s, id).cert == s.rows[id].expires
  }

  predicate JobFresh(s: State, job: Job) {
    job.id in s.rows ==>
      && (Live(job) ==> s.rows[job.id].status.InFlight())
      && (job.Written? ==> SecretAt(s.kv, job.id).cert == Some(job.n))
      && (job.Stored? ==> Load(s, job.id).cert == Some(job.n))
  }

  ghost predicate Fresh(s: State) {
    && OneTask(s)
    && (forall id :: id in s.rows ==> RowFresh(s, id))
    && (forall j :: j in s.jobs ==> JobFresh(s, s.jobs[j]))
  }

  /** The two kinds of step the code does not guard, when they do no harm: an unconditional
      `pending` finds no live task on its row, and a password write puts back the PEMs that are
      there now. Every other step qualifies. */
  ghost predicate Guarded(s: State, step: Step) {
    && FindsIdle(s, step)
    && (step.PfxWriteSecret? && step.j in s.jobs && s.jobs[step.j].PfxHolding? ==>
          s.jobs[step.j].base.cert == SecretAt(s.kv, s.jobs[step.j].id).cert)
  }

  /** A live task is alone on its row: nobody else's guarded step changes the status or the leaf. */
  lemma Undisturbed(s: State, step: Step, id: nat, j: nat)
    requires Enabled(s, step) && Sound(s) && Fresh(s) && Guarded(s, step)
    requires LiveOn(s, id, j) && !step.Crash? && step.j != j
    ensures id in Apply(s, step).rows ==> id in s.rows && Apply(s, step).rows[id].status == s.rows[id].status
    ensures id in Apply(s, step).rows ==> SecretAt(Apply(s, step).kv, id).cert == SecretAt(s.kv, id).cert
    ensures id in Apply(s, step).rows ==> Load(Apply(s, step), id).cert == Load(s, id).cert
  {
    hide RowsAfter, KvAfter, JobsAfter, JobAfter, Own, HasPems, SecretAt;
    assert JobFresh(s, s.jobs[j]) && JobSound(s, s.jobs[j]);
    assert Busy(s, id);
    SecretChange(s, step, id);
    if id in Apply(s, step).rows {
      RowChange(s, step, id);
      assert RowSound(s, id);
    }
    if step.j in s.jobs {
      assert JobSound(s, s.jobs[step.j]);
      assert s.jobs[step.j].id == id ==> !Live(s.jobs[step.j]);
    }
  }

  /** What one task per row rests on: ids are not reused, and a live task's row is in flight. */
  ghost predicate Quiet(s: State) {
    && OneTask(s)
    && (forall id :: id in s.rows ==> id in s.used)
    && (forall j :: j in s.jobs ==> QuietJob(s, s.jobs[j]))
  }

  predicate QuietJob(s: State, job: Job) {
    job.id in s.used && (Live(job) && job.id in s.rows ==> s.rows[job.id].status.InFlight())
  }

  lemma FreshIsQuiet(s: State)
    requires Sound(s) && Fresh(s)
    ensures Quiet(s)
  {
    hide Own, HasPems, OneTask;
    forall id | id in s.rows ensures id in s.used { assert RowSound(s, id); }
    forall j | j in s.jobs ensures QuietJob(s, s.jobs[j]) { assert JobFresh(s, s.jobs[j]) && JobSound(s, s.jobs[j]); }
  }

  /** A settled or fresh row has no live task. */
  lemma SettledIsIdle(s: State, id: nat)
    requires Quiet(s)
    ensures id in s.rows && !s.rows[id].status.InFlight() ==> !Busy(s, id)
    ensures id !in s.used ==> !Busy(s, id)
  {
    forall j | j in s.jobs ensures QuietJob(s, s.jobs[j]) {}
  }

  /** The unconditional `pending` finds no live task on its row. */
  ghost predicate FindsIdle(s: State, step: Step) {
    step.WritePending? && step.j in s.jobs ==> !Busy(s, s.jobs[step.j].id)
  }

  /** A step makes a job live on a row only if none was. */
  lemma TaskOrigin(s: State, step: Step, j: nat)
    requires Enabled(s, step) && Quiet(s) && FindsIdle(s, step) && !step.Crash?
    requires j in Apply(s, step).jobs && Live(Apply(s, step).jobs[j])
    ensures LiveOn(s, Apply(s, step).jobs[j].id, j) || (j == step.j && !Busy(s, Apply(s, step).jobs[j].id))
  {
    hide RowsAfter, KvAfter, Quiet;
    if step.Insert? || step.Claim? {
      SettledIsIdle(s, step.id);
    }
  }

  lemma OneTaskStep(s: State, step: Step)
    requires Enabled(s, step) && Quiet(s) && FindsIdle(s, step)
    ensures OneTask(Apply(s, step))
  {
    hide RowsAfter, KvAfter, JobAfter, Enabled, FindsIdle, QuietJob;
    var t := Apply(s, step);
    if !step.Crash? {
      forall j | j in t.jobs && Live(t.jobs[j])
        ensures LiveOn(s, t.jobs[j].id, j) || (j == step.j && forall k :: !LiveOn(s, t.jobs[j].id, k))
      {
        TaskOrigin(s, step, j);
      }
    }
  }

  /** Whose status a step may change: that of the row its own job works on, or of a settled row. */
  lemma StatusChange(s: State, step: Step, id: nat)
    requires Enabled(s, step) && id in s.used && id in Apply(s, step).rows
    ensures id in s.rows
    ensures Apply(s, step).rows[id].status == s.rows[id].status || Apply(s, step).rows[id].status.InFlight()
            || ((step.Activate? || step.MarkFailed?) && s.jobs[step.j].id == id)
  {
    hide KvAfter, JobsAfter, JobAfter;
  }

  lemma StepKeepsQuiet(s: State, step: Step)
    requires Enabled(s, step) && Quiet(s) && FindsIdle(s, step)
    ensures Quiet(Apply(s, step))
  {
    hide KvAfter, RowsAfter, OneTask, FindsIdle;
    var t := Apply(s, step);
    OneTaskStep(s, step);
    forall id | id in t.rows ensures id in t.used { UsedRow(s, step, id); }
    forall j | j in t.jobs ensures QuietJob(t, t.jobs[j]) {
      if j != step.j {
        OtherJobStaysQuiet(s, step, j);
      } else {
        OwnJobStaysQuiet(s, step);
      }
    }
  }

  lemma UsedRow(s: State, step: Step, id: nat)
    requires Enabled(s, step) && id in Apply(s, step).rows && (id in s.rows ==> id in s.used)
    ensures id in Apply(s, step).used
  {
    hide KvAfter, JobsAfter, JobAfter;
  }

  lemma OtherJobStaysQuiet(s: State, step: Step, j: nat)
    requires Enabled(s, step) && Quiet(s) && !step.Crash? && j in s.jobs && j != step.j
    ensures QuietJob(Apply(s, step), s.jobs[j])
  {
    hide KvAfter, RowsAfter, JobsAfter, JobAfter;
    assert QuietJob(s, s.jobs[j]);
    if Live(s.jobs[j]) && s.jobs[j].id in Apply(s, step).rows {
      StatusChange(s, step, s.jobs[j].id);
    }
  }

  lemma OwnJobStaysQuiet(s: State, step: Step)
    requires Enabled(s, step) && Quiet(s) && !step.Crash? && step.j in Apply(s, step).jobs
    ensures QuietJob(Apply(s, step), Apply(s, step).jobs[step.j])
  {
    hide KvAfter, OneTask;
    if step.j in s.jobs {
      assert QuietJob(s, s.jobs[step.j]);
    }
  }

  ghost predicate EachFindsIdle(s: State, steps: seq<Step>)
    requires Legal(s, steps)
    decreases |steps|
  {
    steps == [] || (FindsIdle(s, steps[0]) && EachFindsIdle(Apply(s, steps[0]), steps[1..]))
  }

  ghost predicate AlwaysOneTask(s: State, steps: seq<Step>)
    requires Legal(s, steps)
    decreases |steps|
  {
    OneTask(s) && (steps == [] || AlwaysOneTask(Apply(s, steps[0]), steps[1..]))
  }

  /** The unconditional `pending` of a retry or of the sweep keeps one task per row exactly when
      the row had none. */
  lemma UnguardedClaim(s: State, j: nat)
    requires Quiet(s) && Enabled(s, WritePending(j))
    ensures OneTask(Apply(s, WritePending(j))) <==> !Busy(s, s.jobs[j].id)
  {
    var id := s.jobs[j].id;
    var t := Apply(s, WritePending(j));
    if Busy(s, id) {
      var k :| LiveOn(s, id, k);
      assert LiveOn(t, id, k) && LiveOn(t, id, j) && j != k;
    } else {
      OneTaskStep(s, WritePending(j));
    }
  }

  /** Over every run, crashes and stale password writes included: no row ever has two live tasks
      if and only if every unconditional `pending` finds none on its row. */
  lemma {:induction false} OneTaskIff(s: State, steps: seq<Step>)
    requires Quiet(s) && Legal(s, steps)
    ensures AlwaysOneTask(s, steps) <==> EachFindsIdle(s, steps)
    decreases |steps|
  {
    hide Apply, Enabled, FindsIdle, OneTask, QuietJob;
    if steps != [] {
      var t := Apply(s, steps[0]);
      if FindsIdle(s, steps[0]) {
        StepKeepsQuiet(s, steps[0]);
        OneTaskIff(t, steps[1..]);
      } else {
        BusyClaim(s, steps[0]);
      }
    }
  }

  lemma BusyClaim(s: State, step: Step)
    requires Quiet(s) && Enabled(s, step) && !FindsIdle(s, step)
    ensures !OneTask(Apply(s, step))
  {
    hide Apply, Enabled, OneTask;
    UnguardedClaim(s, step.j);
  }

  lemma RowStaysFresh(s: State, step: Step, id: nat)
    requires Enabled(s, step) && Sound(s) && Fresh(s) && Guarded(s, step) && id in Apply(s, step).rows
    ensures RowFresh(Apply(s, step), id)
  {
    hide JobsAfter, JobAfter, KvAfter, Own, HasPems, SecretAt;
    if id in s.rows {
      hide RowsAfter;
      assert RowFresh(s, id) && RowSound(s, id);
      RowChange(s, step, id);
      SecretChange(s, step, id);
      if !step.Crash? && step.j in s.jobs {
        assert JobFresh(s, s.jobs[step.j]) && JobSound(s, s.jobs[step.j]);
      }
    }
  }

  /** What a task's own step makes of its row and secret. */
  lemma OwnWrites(s: State, step: Step)
    requires Enabled(s, step) && !step.Crash? && step.j in s.jobs
    ensures var id := s.jobs[step.j].id;
            && (step.WriteSecret? ==> SecretAt(Apply(s, step).kv, id).cert == Some(s.jobs[step.j].n))
            && (!step.WriteSecret? && !step.PfxWriteSecret? && !step.DeleteSecret? ==>
                 SecretAt(Apply(s, step).kv, id) == SecretAt(s.kv, id))
            && (id in s.rows && step.WritePending? ==> Apply(s, step).rows[id].status.Pending?)
            && (id in s.rows && step.WriteIssuing? ==> Apply(s, step).rows[id].status.Issuing?)
            && (id in s.rows && step.StoreColumns? ==> Apply(s, step).rows[id].columns.cert == Some(s.jobs[step.j].n))
  {
    hide JobsAfter, JobAfter;
  }

  lemma AdvancedJobStaysFresh(s: State, step: Step)
    requires Enabled(s, step) && !step.Crash? && step.j in s.jobs && JobAfter(s, step).Some?
    requires JobFresh(s, s.jobs[step.j]) && JobSound(s, s.jobs[step.j])
    requires s.jobs[step.j].id in s.rows ==> RowSound(s, s.jobs[step.j].id)
    ensures JobFresh(Apply(s, step), JobAfter(s, step).value)
  {
    hide JobsAfter, KvAfter, RowsAfter, Own, HasPems, SecretAt;
    OwnWrites(s, step);
    if s.jobs[step.j].id in Apply(s, step).rows {
      RowChange(s, step, s.jobs[step.j].id);
    }
  }

  lemma OwnJobStaysFresh(s: State, step: Step)
    requires Enabled(s, step) && Sound(s) && Fresh(s) && Guarded(s, step)
    requires !step.Crash? && JobAfter(s, step).Some?
    ensures JobFresh(Apply(s, step), JobAfter(s, step).value)
  {
    hide JobsAfter, KvAfter, Own, HasPems, SecretAt;
    if step.j in s.jobs {
      assert JobFresh(s, s.jobs[step.j]) && JobSound(s, s.jobs[step.j]);
      assert s.jobs[step.j].id in s.rows ==> RowSound(s, s.jobs[step.j].id);
      hide *;
      AdvancedJobStaysFresh(s, step);
    }
  }

  lemma OtherJobStaysFresh(s: State, step: Step, j: nat)
    requires Enabled(s, step) && Sound(s) && Fresh(s) && Guarded(s, step)
    requires !step.Crash? && step.j != j && j in s.jobs
    ensures JobFresh(Apply(s, step), s.jobs[j])
  {
    hide JobsAfter, JobAfter, RowsAfter, KvAfter, Own, HasPems, Load, SecretAt, Enabled;
    assert JobFresh(s, s.jobs[j]);
    if Live(s.jobs[j]) {
      Undisturbed(s, step, s.jobs[j].id, j);
    }
  }

  lemma GuardedFindsIdle(s: State, step: Step)
    requires Guarded(s, step)
    ensures FindsIdle(s, step)
  {}

  lemma StepKeepsFresh(s: State, step: Step)
    requires Enabled(s, step) && Sound(s) && Fresh(s) && Guarded(s, step)
    ensures Fresh(Apply(s, step))
  {
    hide RowsAfter, KvAfter, JobAfter, RowFresh, JobFresh, Enabled, Guarded, Sound, OneTask;
    var t := Apply(s, step);
    FreshIsQuiet(s);
    GuardedFindsIdle(s, step);
    OneTaskStep(s, step);
    forall id | id in t.rows ensures RowFresh(t, id) { RowStaysFresh(s, step, id); }
    forall j | j in t.jobs ensures JobFresh(t, t.jobs[j]) {
      if j != step.j {
        OtherJobStaysFresh(s, step, j);
      } else {
        OwnJobStaysFresh(s, step);
      }
    }
  }

  /** Inserts, guarded renewals, task steps, deletes and crashes, with the unguarded writes only
      where they do no harm: at most one live task per row, and the expiry of an active row is that
      of the leaf it serves. */
  lemma {:induction false} GuardedRunsStayFresh(s: State, steps: seq<Step>)
    requires Sound(s) && Fresh(s) && Legal(s, steps) && Along(s, steps, Guarded)
    ensures Sound(Final(s, steps)) && Fresh(Final(s, steps))
    decreases |steps|
  {
    if steps != [] {
      StepKeepsSound(s, steps[0]);
      StepKeepsFresh(s, steps[0]);
      GuardedRunsStayFresh(Apply(s, steps[0]), steps[1..]);
    }
  }

  /** Without crashes the guard of a renewal is exact: it refuses just the rows with a live task. */
  lemma ClaimGuardIsExact(s: State, id: nat)
    requires Quiet(s) && InFlightIsBusy(s) && id in s.rows
    ensures s.rows[id].status.InFlight() <==> Busy(s, id)
  {
    SettledIsIdle(s, id);
  }

  // ── Exactly when the recorded expiry stays that of the leaf ────────────────

  predicate Numbers(job: Job) {
    job.Obtained? || job.Holding? || job.Written? || job.Stored?
  }

  /** An issuance is in the hands of one task, and no longer of any once its expiry is recorded. */
  ghost predicate Numbered(s: State) {
    && (forall j, k :: j in s.jobs && k in s.jobs && Numbers(s.jobs[j]) && Numbers(s.jobs[k]) && j != k ==>
          s.jobs[j].n != s.jobs[k].n)
    && (forall j :: j in s.jobs && Numbers(s.jobs[j]) ==> s.jobs[j].n < |s.orders|)
    && (forall id :: id in s.rows && s.rows[id].expires.Some? ==> Recorded(s, s.rows[id].expires.value))
  }

  ghost predicate Recorded(s: State, n: nat) {
    n < |s.orders| && forall j :: j in s.jobs && Numbers(s.jobs[j]) ==> s.jobs[j].n != n
  }

  /** Where a job's issuance number comes from. */
  lemma NumberOrigin(s: State, step: Step, j: nat)
    requires Enabled(s, step) && j in Apply(s, step).jobs && Numbers(Apply(s, step).jobs[j])
    ensures !step.Crash?
    ensures var n := Apply(s, step).jobs[j].n;
            (j in s.jobs && Numbers(s.jobs[j]) && s.jobs[j].n == n)
            || (step.Obtain? && step.j == j && n == |s.orders|)
  {
    hide RowsAfter, KvAfter;
  }

  lemma ExpiryOrigin(s: State, step: Step, id: nat)
    requires Enabled(s, step) && id in Apply(s, step).rows && Apply(s, step).rows[id].expires.Some?
    ensures var n := Apply(s, step).rows[id].expires.value;
            (id in s.rows && s.rows[id].expires == Some(n))
            || (step.Activate? && s.jobs[step.j].Stored? && s.jobs[step.j].n == n && step.j !in Apply(s, step).jobs)
  {
    hide KvAfter;
  }

  lemma StepKeepsNumbered(s: State, step: Step)
    requires Enabled(s, step) && Numbered(s)
    ensures Numbered(Apply(s, step))
  {
    hide RowsAfter, KvAfter, JobsAfter, JobAfter, Enabled;
    var t := Apply(s, step);
    forall j | j in t.jobs && Numbers(t.jobs[j])
      ensures (j in s.jobs && Numbers(s.jobs[j]) && s.jobs[j].n == t.jobs[j].n)
              || (step.Obtain? && step.j == j && t.jobs[j].n == |s.orders|)
    {
      NumberOrigin(s, step, j);
    }
    forall id | id in t.rows && t.rows[id].expires.Some? ensures Recorded(t, t.rows[id].expires.value) {
      ExpiryOrigin(s, step, id);
      StoredIsNumbered(s, step);
    }
  }

  lemma StoredIsNumbered(s: State, step: Step)
    requires Enabled(s, step)
    ensures step.Activate? ==> step.j in s.jobs && Numbers(s.jobs[step.j])
  {}

  /** The step leaves the row's expiry that of its leaf: a task that activates the row finds its own
      leaf there; and while the row is active nothing is stored on it, no password write puts back
      another leaf, and it is not pointed at another. */
  predicate KeepsLeaf(s: State, step: Step, id: nat)
    requires Enabled(s, step) && id in s.rows
  {
    !step.Crash? && step.j in s.jobs && s.jobs[step.j].id == id ==>
      && (step.Activate? ==> Load(s, id).cert == Some(s.jobs[step.j].n))
      && (s.rows[id].status.Active? ==>
            && (step.StoreColumns? ==> s.rows[id].ref)
            && (step.WriteSecret? ==> !s.rows[id].ref)
            && (step.PfxWriteSecret? ==> s.jobs[step.j].base.cert == s.rows[id].expires)
            && (step.PointRow? ==> SecretAt(s.kv, id).cert == s.rows[id].expires))
  }

  lemma StepKeepsLeafIff(s: State, step: Step, id: nat)
    requires Enabled(s, step) && Sound(s) && Numbered(s) && id in s.rows && RowFresh(s, id)
    requires id in Apply(s, step).rows
    ensures RowFresh(Apply(s, step), id) <==> KeepsLeaf(s, step, id)
  {
    assert RowSound(s, id);
    if !step.Crash? && step.j in s.jobs && s.jobs[step.j].id == id {
      assert JobSound(s, s.jobs[step.j]);
      assert s.rows[id].expires.Some? && Numbers(s.jobs[step.j]) ==> s.rows[id].expires != Some(s.jobs[step.j].n);
      hide *;
      OwnStepKeepsLeafIff(s, step, id);
    } else {
      hide Sound, Numbered, Own, RowsAfter, KvAfter, JobsAfter, JobAfter;
      OtherStepKeepsLeaf(s, step, id);
    }
  }

  lemma OtherStepKeepsLeaf(s: State, step: Step, id: nat)
    requires Enabled(s, step) && id in s.rows && RowFresh(s, id) && id in s.used && id in Apply(s, step).rows
    requires step.Crash? || step.j !in s.jobs || s.jobs[step.j].id != id
    ensures RowFresh(Apply(s, step), id)
  {
    hide RowsAfter, KvAfter, JobsAfter, JobAfter, SecretAt;
    RowChange(s, step, id);
    SecretChange(s, step, id);
  }

  lemma OwnStepKeepsLeafIff(s: State, step: Step, id: nat)
    requires Enabled(s, step) && id in s.rows && RowFresh(s, id) && RowSound(s, id) && id in Apply(s, step).rows
    requires !step.Crash? && step.j in s.jobs && s.jobs[step.j].id == id && JobSound(s, s.jobs[step.j])
    requires s.rows[id].expires.Some? && Numbers(s.jobs[step.j]) ==> s.rows[id].expires != Some(s.jobs[step.j].n)
    ensures RowFresh(Apply(s, step), id) <==> KeepsLeaf(s, step, id)
  {
    hide RowsAfter, KvAfter, JobsAfter, JobAfter, Own, HasPems, SecretAt;
    RowChange(s, step, id);
    SecretChange(s, step, id);
    OwnRowAfter(s, step);
  }

  /** What a job's own step makes of the row and the secret, whoever else works on them. */
  lemma OwnRowAfter(s: State, step: Step)
    requires Enabled(s, step) && !step.Crash? && step.j in s.jobs && s.jobs[step.j].id in s.rows
    ensures var job, id, t := s.jobs[step.j], s.jobs[step.j].id, Apply(s, step);
            && (step.Activate? ==> t.rows[id].status.Active? && t.rows[id].expires == Some(job.n))
            && (step.StoreColumns? ==> t.rows[id].columns.cert == Some(job.n))
            && (step.WriteSecret? ==> SecretAt(t.kv, id).cert == Some(job.n))
            && (step.PfxWriteSecret? ==> SecretAt(t.kv, id).cert == job.base.cert)
            && (step.PointRow? ==> t.rows[id].ref)
            && (step.WriteSecret? ==> SecretAt(t.kv, id).pfx == job.base.pfx)
            && (step.PfxWriteSecret? ==> SecretAt(t.kv, id).pfx == Some(step.password))
            && (step.PfxWriteColumn? ==> t.rows[id].columns.pfx == Some(step.password))
            && (step.StoreColumns? || step.WriteSecret? || step.PfxWriteSecret? || step.PointRow? ==>
                  id in t.rows && t.rows[id].status == s.rows[id].status && t.rows[id].expires == s.rows[id].expires)
  {
    hide JobsAfter, JobAfter;
  }

  predicate EachKeepsLeaf(s: State, steps: seq<Step>, id: nat)
    requires Legal(s, steps)
    decreases |steps|
  {
    steps == [] ||
    ((id in s.rows && id in Apply(s, steps[0]).rows ==> KeepsLeaf(s, steps[0], id))
     && EachKeepsLeaf(Apply(s, steps[0]), steps[1..], id))
  }

  predicate AlwaysFresh(s: State, steps: seq<Step>, id: nat)
    requires Legal(s, steps)
    decreases |steps|
  {
    && (id in s.rows ==> RowFresh(s, id))
    && (steps == [] || AlwaysFresh(Apply(s, steps[0]), steps[1..], id))
  }

  lemma InsertedIsFresh(s: State, step: Step, id: nat)
    requires Enabled(s, step) && id !in s.rows && id in Apply(s, step).rows
    ensures RowFresh(Apply(s, step), id)
  {
    hide KvAfter, JobsAfter, JobAfter;
  }

  /** Over every run, with any interleaving and any crashes: whenever the row is active its recorded
      expiry is that of the leaf it serves, if and only if every step on it keeps the leaf. */
  lemma {:induction false} FreshIff(s: State, steps: seq<Step>, id: nat)
    requires Sound(s) && Numbered(s) && Legal(s, steps) && (id in s.rows ==> RowFresh(s, id))
    ensures AlwaysFresh(s, steps, id) <==> EachKeepsLeaf(s, steps, id)
    decreases |steps|
  {
    hide Apply, Enabled, KeepsLeaf, RowFresh, Sound, Numbered;
    if steps != [] {
      var t := Apply(s, steps[0]);
      StepKeepsSound(s, steps[0]);
      StepKeepsNumbered(s, steps[0]);
      if id in t.rows {
        if id in s.rows {
          StepKeepsLeafIff(s, steps[0], id);
        } else {
          InsertedIsFresh(s, steps[0], id);
        }
      }
      if id in t.rows ==> RowFresh(t, id) {
        FreshIff(t, steps[1..], id);
      }
    }
  }

  /** A password write leaves the row's expiry right exactly when the row is not active or the
      write puts back the leaf that is there now. */
  lemma PasswordWriteKeepsLeaf(s: State, j: nat, password: nat)
    requires Sound(s) && Enabled(s, PfxWriteSecret(j, password)) && s.jobs[j].id in s.rows && RowFresh(s, s.jobs[j].id)
    ensures RowFresh(Apply(s, PfxWriteSecret(j, password)), s.jobs[j].id)
            <==> (s.rows[s.jobs[j].id].status.Active? ==> s.jobs[j].base.cert == SecretAt(s.kv, s.jobs[j].id).cert)
  {
    assert JobSound(s, s.jobs[j]);
  }

  /** A task whose final `failed` is lost leaves its row as a crash would: nothing settles it any
      more, unless a retry or the sweep had picked it already. */
  lemma LostMarkStrands(s: State, j: nat)
    requires Quiet(s) && Enabled(s, LoseMark(j)) && s.jobs[j].id in s.rows
    ensures CanSettle(Apply(s, LoseMark(j)), s.jobs[j].id)
            <==> exists k :: k in s.jobs && s.jobs[k].Picked? && s.jobs[k].id == s.jobs[j].id
  {
    hide CanSettle;
    var id, t := s.jobs[j].id, Apply(s, LoseMark(j));
    assert QuietJob(s, s.jobs[j]);
    SettlesIff(t, id);
    assert t.jobs == s.jobs - {j};
    if k :| k in s.jobs && s.jobs[k].Picked? && s.jobs[k].id == id {
      assert k in t.jobs && Working(t.jobs[k]);
    }
  }

  // ── The PFX password across renewals ───────────────────────────────────────

  /** Each row's material has one home: a backend leaves nothing in the columns. */
  ghost predicate Homed(s: State) {
    s.external ==>
      && (forall id :: id in s.rows ==> s.rows[id].columns == EMPTY)
      && (forall j :: j in s.jobs && s.jobs[j].PfxFetched? ==> s.jobs[j].ref)
  }

  lemma StepKeepsHomed(s: State, step: Step)
    requires Enabled(s, step) && Homed(s)
    ensures Homed(Apply(s, step))
  {
    hide RowsAfter, KvAfter, JobsAfter;
    var t := Apply(s, step);
    if s.external {
      forall id | id in t.rows ensures t.rows[id].columns == EMPTY { RowStaysHomed(s, step, id); }
      forall j | j in t.jobs && t.jobs[j].PfxFetched? ensures t.jobs[j].ref { JobStaysHomed(s, step, j); }
    }
  }

  lemma RowStaysHomed(s: State, step: Step, id: nat)
    requires Enabled(s, step) && Homed(s) && s.external && id in Apply(s, step).rows
    ensures Apply(s, step).rows[id].columns == EMPTY
  {
    hide KvAfter, JobsAfter, JobAfter;
  }

  lemma JobStaysHomed(s: State, step: Step, j: nat)
    requires Enabled(s, step) && Homed(s) && s.external && j in Apply(s, step).jobs
              && Apply(s, step).jobs[j].PfxFetched?
    ensures Apply(s, step).jobs[j].ref
  {
    hide KvAfter, RowsAfter;
  }

  /** Every task that is about to write a secret holds the password that is there now. */
  ghost predicate Carries(s: State) {
    forall j :: j in s.jobs && s.jobs[j].Holding? && s.jobs[j].id in s.rows ==>
      s.jobs[j].base.pfx == SecretAt(s.kv, s.jobs[j].id).pfx
  }

  /** The two read-modify-writes do not interleave: a task's read succeeds, and no password is
      written to a secret some task has read and not yet written back. */
  ghost predicate Apart(s: State, step: Step) {
    && (step.ReadSecret? ==> step.ok)
    && (step.PfxWriteSecret? && step.j in s.jobs ==>
          forall k :: k in s.jobs && s.jobs[k].id == s.jobs[step.j].id ==> !s.jobs[k].Holding?)
  }

  lemma HoldingStaysCurrent(s: State, step: Step, job: Job)
    requires Enabled(s, step) && Apart(s, step) && !step.Crash?
    requires job.Holding? && (exists j :: j in s.jobs && s.jobs[j] == job)
    requires job.base.pfx == SecretAt(s.kv, job.id).pfx
    requires step.j in s.jobs && s.jobs[step.j].id == job.id ==>
               !step.DeleteSecret? && (s.jobs[step.j].Holding? ==> s.jobs[step.j].base.pfx == job.base.pfx)
    ensures job.base.pfx == SecretAt(Apply(s, step).kv, job.id).pfx
  {
    hide RowsAfter, KvAfter, JobsAfter, JobAfter, SecretAt;
    SecretChange(s, step, job.id);
  }

  lemma StepKeepsCarries(s: State, step: Step)
    requires Enabled(s, step) && Sound(s) && Carries(s) && Apart(s, step)
    ensures Carries(Apply(s, step))
  {
    hide Own, HasPems, RowSound, SecretAt, KvAfter, RowsAfter, Apart;
    var t := Apply(s, step);
    forall j | j in t.jobs && t.jobs[j].Holding? && t.jobs[j].id in t.rows
      ensures t.jobs[j].base.pfx == SecretAt(t.kv, t.jobs[j].id).pfx
    {
      var id := t.jobs[j].id;
      if j != step.j {
        assert JobSound(s, s.jobs[j]);
        RowChange(s, step, id);
        if step.j in s.jobs {
          assert JobSound(s, s.jobs[step.j]);
        }
        HoldingStaysCurrent(s, step, s.jobs[j]);
      } else {
        ReadIsCurrent(s, step);
      }
    }
  }

  lemma ReadIsCurrent(s: State, step: Step)
    requires Enabled(s, step) && Apart(s, step) && !step.Crash?
    requires JobAfter(s, step).Some? && JobAfter(s, step).value.Holding?
    ensures JobAfter(s, step).value.base.pfx == SecretAt(Apply(s, step).kv, JobAfter(s, step).value.id).pfx
  {
    hide RowsAfter, JobsAfter;
  }

  lemma StepKeepsPassword(s: State, step: Step, id: nat)
    requires Enabled(s, step) && Sound(s) && Homed(s) && Carries(s)
    requires id in s.rows && id in Apply(s, step).rows && Load(s, id).pfx.Some?
    ensures Load(Apply(s, step), id).pfx.Some?
    ensures !step.PfxWriteSecret? && !step.PfxWriteColumn? ==> Load(Apply(s, step), id).pfx == Load(s, id).pfx
  {
    hide Own, HasPems, JobsAfter, JobAfter, KvAfter, RowsAfter, SecretAt;
    assert step.Crash? || step.j !in s.jobs || JobSound(s, s.jobs[step.j]);
    assert RowSound(s, id);
    SecretChange(s, step, id);
    RowChange(s, step, id);
    assert s.external ==> s.rows[id].columns == EMPTY;
    assert Apply(s, step).rows[id].ref == s.rows[id].ref;
  }

  /** A password, once stored, is still there after every renewal, failure and restart, and it is
      the same one unless another download has replaced it. */
  lemma {:induction false} PasswordOutlivesRenewals(s: State, steps: seq<Step>, id: nat)
    requires Sound(s) && Homed(s) && Carries(s) && Legal(s, steps) && Along(s, steps, Apart)
    requires id in s.rows && Load(s, id).pfx.Some?
    ensures id in Final(s, steps).rows ==> Load(Final(s, steps), id).pfx.Some?
    ensures id in Final(s, steps).rows
              && (forall k :: 0 <= k < |steps| ==> !steps[k].PfxWriteSecret? && !steps[k].PfxWriteColumn?) ==>
              Load(Final(s, steps), id).pfx == Load(s, id).pfx
    decreases |steps|
  {
    if steps != [] {
      hide KvAfter, RowsAfter, JobsAfter, Own, HasPems;
      var t := Apply(s, steps[0]);
      assert RowSound(s, id);
      StepKeepsSound(s, steps[0]);
      StepKeepsHomed(s, steps[0]);
      StepKeepsCarries(s, steps[0]);
      if id in t.rows {
        StepKeepsPassword(s, steps[0], id);
        PasswordOutlivesRenewals(t, steps[1..], id);
      } else {
        DeletedStaysDeleted(t, steps[1..], id);
      }
    }
  }

  /** The step leaves the password the row loads: whatever is written where the row loads from, be it
      by a renewal or by a download, is the password that is there now, and so is the one in the
      secret that a row still in columns is pointed at. */
  predicate PutsBack(s: State, step: Step, id: nat)
    requires Enabled(s, step) && id in s.rows
  {
    !step.Crash? && step.j in s.jobs && s.jobs[step.j].id == id ==>
      if s.rows[id].ref then
        && (step.WriteSecret? ==> s.jobs[step.j].base.pfx == SecretAt(s.kv, id).pfx)
        && (step.PfxWriteSecret? ==> Some(step.password) == SecretAt(s.kv, id).pfx)
      else
        && (step.PfxWriteColumn? ==> Some(step.password) == s.rows[id].columns.pfx)
        && (step.PointRow? ==> SecretAt(s.kv, id).pfx == s.rows[id].columns.pfx)
  }

  /** A step keeps the password that a row loads exactly when it puts it back. */
  lemma StepPassword(s: State, step: Step, id: nat)
    requires Enabled(s, step) && Sound(s) && id in s.rows && id in Apply(s, step).rows
    ensures Load(Apply(s, step), id).pfx == Load(s, id).pfx <==> PutsBack(s, step, id)
  {
    assert RowSound(s, id);
    if !step.Crash? && step.j in s.jobs && s.jobs[step.j].id == id {
      assert JobSound(s, s.jobs[step.j]);
      hide *;
      OwnStepPassword(s, step, id);
    } else {
      hide *;
      OtherStepPassword(s, step, id);
    }
  }

  lemma OtherStepPassword(s: State, step: Step, id: nat)
    requires Enabled(s, step) && RowSoundAt(s, id) && id in Apply(s, step).rows
    requires step.Crash? || step.j !in s.jobs || s.jobs[step.j].id != id
    ensures Load(Apply(s, step), id).pfx == Load(s, id).pfx && PutsBack(s, step, id)
  {
    hide Own, HasPems, JobsAfter, JobAfter, RowsAfter, KvAfter, SecretAt;
    RowChange(s, step, id);
    SecretChange(s, step, id);
  }

  lemma OwnStepPassword(s: State, step: Step, id: nat)
    requires Enabled(s, step) && RowSoundAt(s, id) && id in Apply(s, step).rows
    requires !step.Crash? && step.j in s.jobs && s.jobs[step.j].id == id && JobSound(s, s.jobs[step.j])
    ensures Load(Apply(s, step), id).pfx == Load(s, id).pfx <==> PutsBack(s, step, id)
  {
    hide Own, HasPems, JobsAfter, JobAfter, RowsAfter, KvAfter, SecretAt;
    RowChange(s, step, id);
    SecretChange(s, step, id);
    OwnRowAfter(s, step);
  }

  predicate RowSoundAt(s: State, id: nat) {
    id in s.rows && RowSound(s, id)
  }

  /** A minted password is what its row loads from then on, and it changes no PEM: of the row as it
      is in columns, and of the secret as the download had read it. */
  lemma PasswordIsStored(s: State, step: Step)
    requires Sound(s) && Enabled(s, step) && (step.PfxWriteColumn? || step.PfxWriteSecret?)
    requires s.jobs[step.j].id in s.rows
    ensures var id, t := s.jobs[step.j].id, Apply(s, step);
            && t.rows.Keys == s.rows.Keys
            && (step.PfxWriteColumn? && !s.rows[id].ref ==>
                  Load(t, id).pfx == Some(step.password) && SamePems(Load(t, id), Load(s, id)))
            && (step.PfxWriteSecret? ==>
                  Load(t, id).pfx == Some(step.password) && SamePems(Load(t, id), s.jobs[step.j].base))
  {
    hide Own, HasPems, JobsAfter, JobAfter, RowSound;
    assert JobSound(s, s.jobs[step.j]);
  }

  /** Every step of the run puts the password back, as long as the row exists. */
  predicate EachPutsBack(s: State, steps: seq<Step>, id: nat)
    requires Legal(s, steps)
    decreases |steps|
  {
    steps == [] ||
    ((id in s.rows && id in Apply(s, steps[0]).rows ==> PutsBack(s, steps[0], id))
     && EachPutsBack(Apply(s, steps[0]), steps[1..], id))
  }

  /** The row loads the password throughout the run, as long as it exists. */
  predicate AlwaysLoads(s: State, steps: seq<Step>, id: nat, pfx: Option<nat>)
    requires Legal(s, steps)
    decreases |steps|
  {
    && (id in s.rows ==> Load(s, id).pfx == pfx)
    && (steps == [] || AlwaysLoads(Apply(s, steps[0]), steps[1..], id, pfx))
  }

  /** Over every run, with crashes and in any interleaving: a row, in columns or in the backend,
      loads the same password throughout if and only if every renewal, and every download, that
      writes where it loads from writes back the password that is there at that moment, and the row
      is pointed at no secret with another. */
  lemma {:induction false} PasswordStaysIff(s: State, steps: seq<Step>, id: nat)
    requires Sound(s) && Legal(s, steps) && id in s.rows
    ensures AlwaysLoads(s, steps, id, Load(s, id).pfx) <==> EachPutsBack(s, steps, id)
    decreases |steps|
  {
    hide Apply, Enabled, PutsBack, Load, Sound;
    if steps != [] {
      var t := Apply(s, steps[0]);
      StepKeepsSound(s, steps[0]);
      if id in t.rows {
        StepPassword(s, steps[0], id);
        if PutsBack(s, steps[0], id) {
          PasswordStaysIff(t, steps[1..], id);
        }
      } else {
        RowWasUsed(s, id);
        UsedStaysUsed(s, steps[0], id);
        NothingAfterDelete(t, steps[1..], id, Load(s, id).pfx);
      }
    }
  }

  lemma RowWasUsed(s: State, id: nat)
    requires Sound(s) && id in s.rows
    ensures id in s.used
  {
    assert RowSound(s, id);
  }

  lemma UsedStaysUsed(s: State, step: Step, id: nat)
    requires Enabled(s, step) && id in s.used
    ensures id in Apply(s, step).used && (id !in s.rows ==> id !in Apply(s, step).rows)
  {
    hide KvAfter, JobsAfter, JobAfter;
  }

  lemma {:induction false} NothingAfterDelete(s: State, steps: seq<Step>, id: nat, pfx: Option<nat>)
    requires Legal(s, steps) && id in s.used && id !in s.rows
    ensures AlwaysLoads(s, steps, id, pfx) && EachPutsBack(s, steps, id)
    decreases |steps|
  {
    hide Apply, Enabled, PutsBack, Load;
    if steps != [] {
      UsedStaysUsed(s, steps[0], id);
      NothingAfterDelete(Apply(s, steps[0]), steps[1..], id, pfx);
    }
  }

  // ── Secrets and the rows they belong to ────────────────────────────────────

  ghost predicate Awaiting(s: State, id: nat) {
    exists j :: j in s.jobs && s.jobs[j] == Removing(id, true)
  }

  /** Every secret belongs to a row or is about to be removed, and everybody but a delete works on
      a row that exists. */
  ghost predicate Tidy(s: State) {
    && (forall id :: id in s.kv ==> id in s.rows || Awaiting(s, id))
    && (forall j :: j in s.jobs && !IsDelete(s.jobs[j]) ==> s.jobs[j].id in s.rows)
  }

  /** A delete that leaves nothing behind: nobody else is working on the row or has picked it, the
      row's reference had landed if a secret was written, the removal succeeds, and no crash comes
      in between. */
  ghost predicate Clean(s: State, step: Step) {
    && (step.DeleteRow? && Enabled(s, step) ==>
          && (forall j :: j in s.jobs && s.jobs[j].id == s.jobs[step.j].id ==> IsDelete(s.jobs[j]))
          && (s.jobs[step.j].ref || s.jobs[step.j].id !in s.kv || s.jobs[step.j].id !in s.rows))
    && (step.DeleteSecret? ==> step.ok)
    && (step.Crash? ==> forall id :: !Awaiting(s, id))
  }

  lemma JobsStayOnRows(s: State, step: Step, j: nat)
    requires Enabled(s, step) && Sound(s) && Tidy(s) && Clean(s, step)
    requires j in Apply(s, step).jobs && !IsDelete(Apply(s, step).jobs[j])
    ensures Apply(s, step).jobs[j].id in Apply(s, step).rows
  {
    hide Own, HasPems, KvAfter, RowSound, JobSound;
    assert step.j in s.jobs ==> JobSound(s, s.jobs[step.j]);
  }

  lemma WhereSecretsComeFrom(s: State, step: Step, id: nat)
    requires Enabled(s, step)
    ensures id in Apply(s, step).kv && id !in s.kv ==>
              !step.Crash? && step.j in s.jobs && s.jobs[step.j].id == id
                  && (s.jobs[step.j].Holding? || s.jobs[step.j].PfxHolding?)
    ensures step.DeleteSecret? && step.ok && s.jobs[step.j].id == id && s.jobs[step.j].ref ==> id !in Apply(s, step).kv
  {
    hide RowsAfter, JobsAfter, JobAfter;
  }

  lemma WhereRowsGo(s: State, step: Step, id: nat)
    requires Enabled(s, step) && id in s.rows && id !in Apply(s, step).rows
    ensures step.DeleteRow? && s.jobs[step.j].id == id && s.jobs[step.j].Deleting?
    ensures Apply(s, step).jobs == s.jobs[step.j := Removing(id, s.jobs[step.j].ref)]
  {
    hide KvAfter;
  }

  lemma AwaitingStep(s: State, step: Step, id: nat)
    requires Enabled(s, step) && Awaiting(s, id) && Clean(s, step)
    ensures Awaiting(Apply(s, step), id)
            || (step.DeleteSecret? && step.ok && s.jobs[step.j] == Removing(id, true))
  {
    hide RowsAfter, KvAfter;
    var k :| k in s.jobs && s.jobs[k] == Removing(id, true);
    if !step.Crash? && step.j != k {
      assert Apply(s, step).jobs[k] == Removing(id, true);
    }
  }

  lemma SecretsStayOwned(s: State, step: Step, id: nat)
    requires Enabled(s, step) && Tidy(s) && Clean(s, step)
    requires id in Apply(s, step).kv && id !in Apply(s, step).rows
    ensures Awaiting(Apply(s, step), id)
  {
    hide RowsAfter, KvAfter, JobsAfter, JobAfter;
    WhereSecretsComeFrom(s, step, id);
    if id in s.rows {
      WhereRowsGo(s, step, id);
      assert Apply(s, step).jobs[step.j] == Removing(id, true);
    } else {
      AwaitingStep(s, step, id);
    }
  }

  /** No secret outlives its row when every delete is clean. */
  lemma {:induction false} CleanRunsLeaveNoOrphan(s: State, steps: seq<Step>)
    requires Sound(s) && Tidy(s) && Legal(s, steps) && Along(s, steps, Clean)
    ensures Tidy(Final(s, steps))
    ensures (forall j :: j in Final(s, steps).jobs ==> !Final(s, steps).jobs[j].Removing?) ==>
              Final(s, steps).kv.Keys <= Final(s, steps).rows.Keys
    decreases |steps|
  {
    if steps != [] {
      var t := Apply(s, steps[0]);
      StepKeepsSound(s, steps[0]);
      forall id | id in t.kv && id !in t.rows ensures Awaiting(t, id) { SecretsStayOwned(s, steps[0], id); }
      forall j | j in t.jobs && !IsDelete(t.jobs[j]) ensures t.jobs[j].id in t.rows { JobsStayOnRows(s, steps[0], j); }
      CleanRunsLeaveNoOrphan(t, steps[1..]);
    }
  }

  /** What a delete that nobody disturbs leaves in the backend: the secret stays exactly when the
      row, as the delete had fetched it, did not refer to it. */
  lemma UndisturbedDelete(s: State, j: nat)
    requires Sound(s) && Enabled(s, DeleteRow(j)) && s.jobs[j].id in s.rows
    ensures var t := Apply(s, DeleteRow(j));
            && Enabled(t, DeleteSecret(j, true))
            && (s.jobs[j].id in Apply(t, DeleteSecret(j, true)).kv <==> s.jobs[j].id in s.kv && !s.jobs[j].ref)
  {}

  // ── Exactly which deletes can leave an orphan ──────────────────────────────

  /** A job that can still write its row's secret, whether or not the row is there. */
  predicate CanWrite(job: Job) {
    job.Picked? || job.Queued? || job.Ordering? || job.Obtained? || job.Holding?
    || (job.PfxFetched? && job.ref) || job.PfxHolding?
  }

  ghost predicate LateWriter(s: State, id: nat) {
    exists k :: k in s.jobs && s.jobs[k].id == id && CanWrite(s.jobs[k])
  }

  /** A secret without a row that nobody is about to remove. */
  ghost predicate Orphaned(s: State, id: nat) {
    id in s.kv && id !in s.rows && !Awaiting(s, id)
  }

  /** No crash, and every removal succeeds. */
  predicate Careful(steps: seq<Step>) {
    forall k :: 0 <= k < |steps| ==> !steps[k].Crash? && (steps[k].DeleteSecret? ==> steps[k].ok)
  }

  ghost predicate CanOrphan(s: State, id: nat) {
    exists steps :: Legal(s, steps) && Careful(steps) && Orphaned(Final(s, steps), id)
  }

  /** After the row is gone and its secret is gone or awaits removal, with no late writer left. */
  ghost predicate Cleared(s: State, id: nat) {
    id in s.used && id !in s.rows && !LateWriter(s, id) && (id in s.kv ==> Awaiting(s, id))
  }

  lemma NoNewWriter(s: State, step: Step, id: nat)
    requires Enabled(s, step) && id in s.used && id !in s.rows && !LateWriter(s, id) && !step.Crash?
    ensures id in Apply(s, step).used && id !in Apply(s, step).rows && !LateWriter(Apply(s, step), id)
  {
    hide KvAfter;
    var t := Apply(s, step);
    forall k | k in t.jobs && t.jobs[k].id == id ensures !CanWrite(t.jobs[k]) {
      assert k in s.jobs && s.jobs[k].id == id ==> !CanWrite(s.jobs[k]);
    }
  }

  lemma StaysCleared(s: State, step: Step, id: nat)
    requires Enabled(s, step) && Cleared(s, id) && !step.Crash? && (step.DeleteSecret? ==> step.ok)
    ensures Cleared(Apply(s, step), id)
  {
    hide RowsAfter, KvAfter, JobsAfter, JobAfter;
    NoNewWriter(s, step, id);
    WhereSecretsComeFrom(s, step, id);
    if id in s.kv {
      AwaitingAdvances(s, step, id);
    }
  }

  lemma AwaitingAdvances(s: State, step: Step, id: nat)
    requires Enabled(s, step) && Awaiting(s, id) && !step.Crash?
    ensures Awaiting(Apply(s, step), id) || (step.DeleteSecret? && s.jobs[step.j] == Removing(id, true))
  {
    hide RowsAfter, KvAfter;
    var k :| k in s.jobs && s.jobs[k] == Removing(id, true);
    if step.j != k {
      assert Apply(s, step).jobs[k] == Removing(id, true);
    }
  }

  lemma {:induction false} ClearedNeverOrphans(s: State, steps: seq<Step>, id: nat)
    requires Cleared(s, id) && Legal(s, steps) && Careful(steps)
    ensures !Orphaned(Final(s, steps), id)
    decreases |steps|
  {
    hide Apply, Enabled, LateWriter, Awaiting;
    if steps != [] {
      StaysCleared(s, steps[0], id);
      ClearedNeverOrphans(Apply(s, steps[0]), steps[1..], id);
    }
  }

  /** The row is gone and no removal of its secret is pending. */
  ghost predicate Unguarded(s: State, id: nat) {
    id !in s.rows && id in s.used && forall k :: k in s.jobs && s.jobs[k].id == id ==> !s.jobs[k].Removing?
  }

  /** The next step of a late writer towards its write. */
  function Onward(s: State, k: nat): Step
    requires k in s.jobs && CanWrite(s.jobs[k])
  {
    match s.jobs[k]
    case Picked(_) => WritePending(k)
    case Queued(_) => WriteIssuing(k)
    case Ordering(_) => Obtain(k)
    case Obtained(_, _) => ReadSecret(k, true)
    case Holding(_, _, _) => WriteSecret(k, true)
    case PfxFetched(_, _) => PfxRead(k)
    case _ => PfxWriteSecret(k, 0)
  }

  lemma OnwardStep(s: State, k: nat)
    requires k in s.jobs && CanWrite(s.jobs[k]) && s.external && Unguarded(s, s.jobs[k].id)
    ensures Enabled(s, Onward(s, k))
    ensures var t, id := Apply(s, Onward(s, k)), s.jobs[k].id;
            && t.external && Unguarded(t, id)
            && (if s.jobs[k].Holding? || s.jobs[k].PfxHolding? then id in t.kv
                else k in t.jobs && t.jobs[k].id == id && CanWrite(t.jobs[k]) && Rank(t.jobs[k]) < Rank(s.jobs[k]))
  {}

  /** A late writer, left to itself, orphans a secret. */
  lemma {:induction false} WriterOrphans(s: State, k: nat)
    requires k in s.jobs && CanWrite(s.jobs[k]) && s.external && Unguarded(s, s.jobs[k].id)
    ensures CanOrphan(s, s.jobs[k].id)
    decreases Rank(s.jobs[k])
  {
    hide Enabled, Apply, CanWrite, CanOrphan, Unguarded;
    OnwardStep(s, k);
    var step, id := Onward(s, k), s.jobs[k].id;
    var t := Apply(s, step);
    if s.jobs[k].Holding? || s.jobs[k].PfxHolding? {
      OrphanNow(t, id);
    } else {
      WriterOrphans(t, k);
    }
    OrphanAfter(s, step, id);
  }

  lemma OrphanNow(s: State, id: nat)
    requires id in s.kv && Unguarded(s, id)
    ensures CanOrphan(s, id)
  {
    assert Legal(s, []) && Careful([]) && Final(s, []) == s;
  }

  lemma OrphanAfter(s: State, step: Step, id: nat)
    requires Enabled(s, step) && CanOrphan(Apply(s, step), id) && !step.Crash? && (step.DeleteSecret? ==> step.ok)
    ensures CanOrphan(s, id)
  {
    hide Enabled, Apply, Orphaned;
    var rest :| Legal(Apply(s, step), rest) && Careful(rest) && Orphaned(Final(Apply(s, step), rest), id);
    var steps := [step] + rest;
    assert steps[0] == step && steps[1..] == rest;
    assert forall k :: 0 < k < |steps| ==> steps[k] == rest[k - 1];
    assert Final(s, steps) == Final(Apply(s, step), rest);
  }

  lemma DeletedState(s: State, j: nat)
    requires Sound(s) && Enabled(s, DeleteRow(j)) && s.jobs[j].id in s.rows
    ensures var t, id := Apply(s, DeleteRow(j)), s.jobs[j].id;
            && t.external == s.external && t.kv == s.kv && id !in t.rows && id in t.used
            && t.jobs == s.jobs[j := Removing(id, s.jobs[j].ref)]
            && (forall k :: k in s.jobs && s.jobs[k].id == id ==> !s.jobs[k].Removing?)
            && (LateWriter(t, id) <==> LateWriter(s, id))
  {
    hide Own, HasPems;
    var t, id := Apply(s, DeleteRow(j)), s.jobs[j].id;
    assert JobSound(s, s.jobs[j]);
    forall k | k in s.jobs && s.jobs[k].id == id ensures !s.jobs[k].Removing? {
      assert JobSound(s, s.jobs[k]);
    }
    if LateWriter(s, id) {
      var k :| k in s.jobs && s.jobs[k].id == id && CanWrite(s.jobs[k]);
      assert t.jobs[k] == s.jobs[k];
    }
  }

  lemma RemovedState(t: State, j: nat, id: nat)
    requires j in t.jobs && t.jobs[j].Removing? && t.jobs[j].id == id && id !in t.rows && id in t.used
    requires forall k :: k in t.jobs && t.jobs[k].id == id && k != j ==> !t.jobs[k].Removing?
    ensures Enabled(t, DeleteSecret(j, true))
    ensures var u := Apply(t, DeleteSecret(j, true));
            && Unguarded(u, id) && u.external == t.external && u.jobs == t.jobs - {j}
            && (id in u.kv <==> id in t.kv && !t.jobs[j].ref)
  {}

  /** Deleting a row under the backend, with the removal of its secret succeeding: some crash-free
      continuation leaves an orphaned secret if and only if another job can still write one, or
      there was a secret to which the row, as the delete had fetched it, did not refer. */
  lemma OrphanIff(s: State, j: nat)
    requires Sound(s) && s.external && Enabled(s, DeleteRow(j)) && s.jobs[j].id in s.rows
    ensures CanOrphan(Apply(s, DeleteRow(j)), s.jobs[j].id)
            <==> LateWriter(s, s.jobs[j].id) || (s.jobs[j].id in s.kv && !s.jobs[j].ref)
  {
    hide Apply, Sound;
    var id := s.jobs[j].id;
    var t := Apply(s, DeleteRow(j));
    DeletedState(s, j);
    assert t.jobs[j] == Removing(id, s.jobs[j].ref);
    if LateWriter(s, id) || (id in s.kv && !s.jobs[j].ref) {
      RemovedState(t, j, id);
      var u := Apply(t, DeleteSecret(j, true));
      if LateWriter(s, id) {
        var k :| k in t.jobs && t.jobs[k].id == id && CanWrite(t.jobs[k]);
        assert u.jobs[k] == t.jobs[k];
        WriterOrphans(u, k);
      } else {
        OrphanNow(u, id);
      }
      OrphanAfter(t, DeleteSecret(j, true), id);
    } else {
      assert id in t.kv ==> Awaiting(t, id);
      forall steps | Legal(t, steps) && Careful(steps) ensures !Orphaned(Final(t, steps), id) {
        ClearedNeverOrphans(t, steps, id);
      }
    }
  }

  /** The empty table meets the premises of all the theorems on runs. */
  lemma EmptyTableIsSound(external: bool)
    ensures var s := Init(external);
            InFlightIsBusy(s) && Sound(s) && Fresh(s) && Quiet(s) && Numbered(s) && Homed(s) && Carries(s) && Tidy(s)
  {}

  // ── Runs that go wrong ─────────────────────────────────────────────────────

  lemma {:induction false} Extend(s: State, steps: seq<Step>, step: Step)
    requires Legal(s, steps) && Enabled(Final(s, steps), step)
    ensures Legal(s, steps + [step]) && Final(s, steps + [step]) == Apply(Final(s, steps), step)
    decreases |steps|
  {
    if steps != [] {
      assert (steps + [step])[1..] == steps[1..] + [step];
      Extend(Apply(s, steps[0]), steps[1..], step);
    } else {
      assert [step][1..] == [];
    }
  }

  /** A run, with the state it ends in. */
  ghost predicate Reaches(external: bool, t: State) {
    exists steps :: Legal(Init(external), steps) && Final(Init(external), steps) == t
  }

  lemma Started(external: bool)
    ensures Reaches(external, Init(external))
  {
    assert Legal(Init(external), []) && Final(Init(external), []) == Init(external);
  }

  lemma Then(external: bool, s: State, step: Step)
    requires Reaches(external, s) && Enabled(s, step)
    ensures Reaches(external, Apply(s, step))
  {
    var steps :| Legal(Init(external), steps) && Final(Init(external), steps) == s;
    Extend(Init(external), steps, step);
  }

  /** The starting point of the runs below: one row whose first issuance failed. */
  lemma AfterFailure(external: bool) returns (s: State)
    ensures Reaches(external, s)
              && s == State(external, map[0 := Row(Failed, None, EMPTY, false)], map[], {0}, [], map[])
  {
    hide Reaches;
    s := Init(external);
    Started(external);
    Then(external, s, Insert(0, 0));
    s := Apply(s, Insert(0, 0));
    Then(external, s, Fail(0));
    s := Apply(s, Fail(0));
    Then(external, s, MarkFailed(0));
    s := Apply(s, MarkFailed(0));
    assert s.rows == map[0 := Row(Failed, None, EMPTY, false)] && s.jobs == map[];
  }

  /** A retry of a failed row and a renewal of it interleave: two live tasks. */
  lemma TwoTasksRun() returns (s: State)
    ensures Reaches(false, s) && !OneTask(s)
    ensures s == State(false, map[0 := Row(Pending, None, EMPTY, false)], map[], {0}, [],
              map[1 := Queued(0), 2 := Queued(0)])
  {
    hide Reaches;
    s := AfterFailure(false);
    Then(false, s, PickRetry(0, 1));
    s := Apply(s, PickRetry(0, 1));
    Then(false, s, Claim(0, 2));
    s := Apply(s, Claim(0, 2));
    Then(false, s, WritePending(1));
    s := Apply(s, WritePending(1));
    assert s.jobs == map[1 := Queued(0), 2 := Queued(0)];
    assert s.rows == map[0 := Row(Pending, None, EMPTY, false)];
    assert Live(s.jobs[1]) && Live(s.jobs[2]);
  }

  lemma BothObtain() returns (s: State)
    ensures Reaches(false, s)
    ensures s == State(false, map[0 := Row(Issuing, None, EMPTY, false)], map[], {0}, [0, 0],
              map[1 := Obtained(0, 0), 2 := Obtained(0, 1)])
  {
    hide Reaches, OneTask;
    s := TwoTasksRun();
    Then(false, s, WriteIssuing(1));
    s := Apply(s, WriteIssuing(1));
    Then(false, s, WriteIssuing(2));
    s := Apply(s, WriteIssuing(2));
    Then(false, s, Obtain(1));
    s := Apply(s, Obtain(1));
    Then(false, s, Obtain(2));
    s := Apply(s, Obtain(2));
    assert s.jobs == map[1 := Obtained(0, 0), 2 := Obtained(0, 1)];
    assert s.rows == map[0 := Row(Issuing, None, EMPTY, false)];
  }

  /** The two tasks end: an active row whose recorded expiry is not that of the leaf it serves. */
  lemma WrongExpiryRun() returns (s: State)
    ensures Reaches(false, s) && s.jobs == map[] && 0 in s.rows && s.rows[0].status.Active? && !RowFresh(s, 0)
  {
    hide Reaches;
    s := BothObtain();
    Then(false, s, StoreColumns(1));
    s := Apply(s, StoreColumns(1));
    Then(false, s, StoreColumns(2));
    s := Apply(s, StoreColumns(2));
    Then(false, s, Activate(2));
    s := Apply(s, Activate(2));
    Then(false, s, Activate(1));
    s := Apply(s, Activate(1));
    assert s.jobs == map[];
  }

  /** A first issuance under the backend, with the certificate in hand. */
  lemma FirstObtained() returns (s: State)
    ensures Reaches(true, s)
    ensures s == State(true, map[0 := Row(Issuing, None, EMPTY, false)], map[], {0}, [0], map[0 := Obtained(0, 0)])
  {
    hide Reaches;
    s := Init(true);
    Started(true);
    Then(true, s, Insert(0, 0));
    s := Apply(s, Insert(0, 0));
    Then(true, s, WriteIssuing(0));
    s := Apply(s, WriteIssuing(0));
    Then(true, s, Obtain(0));
    s := Apply(s, Obtain(0));
    assert s.jobs == map[0 := Obtained(0, 0)];
    assert s.rows == map[0 := Row(Issuing, None, EMPTY, false)];
  }

  /** Its secret written. */
  lemma FirstWritten() returns (s: State)
    ensures Reaches(true, s)
    ensures s == State(true, map[0 := Row(Issuing, None, EMPTY, false)], map[0 := Overlay(EMPTY, 0)], {0}, [0],
              map[0 := Written(0, 0)])
  {
    hide Reaches;
    s := FirstObtained();
    Then(true, s, ReadSecret(0, true));
    s := Apply(s, ReadSecret(0, true));
    Then(true, s, WriteSecret(0, true));
    s := Apply(s, WriteSecret(0, true));
    assert s.jobs == map[0 := Written(0, 0)];
  }

  /** The UPDATE that should point the row at its secret fails. */
  lemma FirstUnpointed() returns (s: State)
    ensures Reaches(true, s)
    ensures s == State(true, map[0 := Row(Failed, None, EMPTY, false)], map[0 := Overlay(EMPTY, 0)], {0}, [0], map[])
  {
    hide Reaches;
    s := FirstWritten();
    Then(true, s, Fail(0));
    s := Apply(s, Fail(0));
    Then(true, s, MarkFailed(0));
    s := Apply(s, MarkFailed(0));
    assert s.jobs == map[];
    assert s.rows == map[0 := Row(Failed, None, EMPTY, false)];
  }

  /** That certificate is deleted with no task live: the secret is left without a row although its
      removal reported no error. */
  lemma UnpointedSecretOrphaned() returns (s: State)
    ensures Reaches(true, s) && s.rows == map[] && s.jobs == map[] && 0 in s.kv
  {
    hide Reaches;
    s := FirstUnpointed();
    Then(true, s, DeleteFetch(0, 1));
    s := Apply(s, DeleteFetch(0, 1));
    assert s.jobs == map[1 := Deleting(0, false)];
    Then(true, s, DeleteRow(1));
    s := Apply(s, DeleteRow(1));
    Then(true, s, DeleteSecret(1, true));
    s := Apply(s, DeleteSecret(1, true));
    assert s.rows == map[] && s.jobs == map[];
  }

  /** The first issuance done: an active row, in the backend, with no password yet. */
  lemma FirstActive() returns (s: State)
    ensures Reaches(true, s)
    ensures s == State(true, map[0 := Row(Active, Some(0), EMPTY, true)], map[0 := Overlay(EMPTY, 0)], {0}, [0], map[])
  {
    hide Reaches;
    s := FirstWritten();
    Then(true, s, PointRow(0));
    s := Apply(s, PointRow(0));
    Then(true, s, Activate(0));
    s := Apply(s, Activate(0));
    assert s.jobs == map[];
    assert s.rows == map[0 := Row(Active, Some(0), EMPTY, true)];
  }

  /** The sweep has picked a row; the row is deleted, with no task live, before the sweep comes to
      it. The sweep's UPDATEs find no row, and its issuance stores a secret all the same. */
  lemma SweptAfterDelete() returns (s: State)
    ensures Reaches(true, s) && s.external && s.rows == map[] && s.kv == map[] && s.jobs == map[1 := Picked(0)]
  {
    hide Reaches;
    s := FirstActive();
    Then(true, s, PickSweep(0, 1));
    s := Apply(s, PickSweep(0, 1));
    Then(true, s, DeleteFetch(0, 2));
    s := Apply(s, DeleteFetch(0, 2));
    assert s.jobs == map[1 := Picked(0), 2 := Deleting(0, true)];
    Then(true, s, DeleteRow(2));
    s := Apply(s, DeleteRow(2));
    Then(true, s, DeleteSecret(2, true));
    s := Apply(s, DeleteSecret(2, true));
    assert s.rows == map[] && s.kv == map[] && s.jobs == map[1 := Picked(0)];
  }

  lemma SweptSecretOrphaned() returns (s: State)
    ensures Reaches(true, s) && s.rows == map[] && 0 in s.kv && forall j :: j in s.jobs ==> !s.jobs[j].Removing?
  {
    hide Reaches;
    s := SweptAfterDelete();
    Then(true, s, WritePending(1));
    s := Apply(s, WritePending(1));
    Then(true, s, WriteIssuing(1));
    s := Apply(s, WriteIssuing(1));
    Then(true, s, Obtain(1));
    s := Apply(s, Obtain(1));
    Then(true, s, ReadSecret(1, true));
    s := Apply(s, ReadSecret(1, true));
    Then(true, s, WriteSecret(1, true));
    s := Apply(s, WriteSecret(1, true));
  }

  /** A renewal of that row, up to its read of the secret. */
  lemma RenewalHolding(s: State, external: bool, j: nat) returns (t: State)
    requires Reaches(external, s) && s.external && 0 in s.rows && s.rows[0].status.Active? && j !in s.jobs
    ensures Reaches(external, t)
    ensures t == s.(rows := s.rows[0 := s.rows[0].(status := Issuing)], orders := s.orders + [0],
                    jobs := s.jobs[j := Holding(0, |s.orders|, SecretAt(s.kv, 0))])
  {
    hide Reaches;
    t := s;
    Then(external, t, Claim(0, j));
    t := Apply(t, Claim(0, j));
    Then(external, t, WriteIssuing(j));
    t := Apply(t, WriteIssuing(j));
    Then(external, t, Obtain(j));
    t := Apply(t, Obtain(j));
    Then(external, t, ReadSecret(j, true));
    t := Apply(t, ReadSecret(j, true));
    assert t.jobs == s.jobs[j := Holding(0, |s.orders|, SecretAt(s.kv, 0))];
  }

  /** A password write and a renewal have both read the secret. */
  lemma BothHold() returns (s: State)
    ensures Reaches(true, s)
    ensures s == State(true, map[0 := Row(Issuing, Some(0), EMPTY, true)], map[0 := Overlay(EMPTY, 0)], {0}, [0, 0],
                       map[1 := PfxHolding(0, Overlay(EMPTY, 0)), 2 := Holding(0, 1, Overlay(EMPTY, 0))])
  {
    hide Reaches;
    s := FirstActive();
    Then(true, s, PfxFetch(0, 1));
    s := Apply(s, PfxFetch(0, 1));
    Then(true, s, PfxRead(1));
    s := Apply(s, PfxRead(1));
    s := RenewalHolding(s, true, 2);
  }

  /** The two writes in either order. A password written between a renewal's read and its write is
      lost, although the download that minted it had succeeded. */
  lemma LostPasswordRun() returns (stored: State, lost: State)
    ensures Reaches(true, stored) && 0 in stored.rows && Load(stored, 0).pfx == Some(7)
    ensures Enabled(stored, WriteSecret(2, true)) && lost == Apply(stored, WriteSecret(2, true))
    ensures Reaches(true, lost)
    ensures 0 in lost.rows && Load(lost, 0) == Overlay(EMPTY, 1)
  {
    hide Reaches;
    var s := BothHold();
    Then(true, s, PfxWriteSecret(1, 7));
    stored := Apply(s, PfxWriteSecret(1, 7));
    assert stored.jobs == map[2 := Holding(0, 1, Overlay(EMPTY, 0))];
    Then(true, stored, WriteSecret(2, true));
    lost := Apply(stored, WriteSecret(2, true));
  }

  /** The password write comes last and puts the old leaf back: the row becomes active with the new
      expiry and serves the old certificate. */
  lemma StaleLeafRun() returns (s: State)
    ensures Reaches(true, s) && s.jobs == map[] && 0 in s.rows && s.rows[0].status.Active?
    ensures s.rows[0].expires == Some(1) && Load(s, 0).cert == Some(0)
  {
    hide Reaches;
    s := BothHold();
    Then(true, s, WriteSecret(2, true));
    s := Apply(s, WriteSecret(2, true));
    Then(true, s, PfxWriteSecret(1, 7));
    s := Apply(s, PfxWriteSecret(1, 7));
    assert s.jobs == map[2 := Written(0, 1)];
    Then(true, s, PointRow(2));
    s := Apply(s, PointRow(2));
    Then(true, s, Activate(2));
    s := Apply(s, Activate(2));
    assert s.jobs == map[];
  }
}
