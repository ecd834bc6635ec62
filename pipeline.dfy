/**
 * The main loop of `fuzzy_match` over the crawled rows, with the two tables it
 * writes, the LLM validation jobs it submits and the drains that collect them.
 *
 * A job's log is written as the job runs; here a job runs when it is submitted,
 * and the drains decide only when its result is collected. Which jobs a drain
 * finds done is an input schedule.
 */
module Pipeline {
  import opened Wrappers
  import opened Text
  import opened StrongNorm
  import opened Records
  import opened Scoring
  import opened Blocking
  import opened AiValidator
  import opened Matcher

  /** A row of `core.ai_match_log`; `llm_response` carries the raw reply and the parsed verdict. */
  datatype AiLogEntry = AiLogEntry(
    companyA: string, companyB: string, fuzzyScore: real,
    prompt: string, rawResponse: string, parsed: Verdict, decision: bool)

  /** The two tables `fuzzy_match` writes. */
  class Database {
    var master: seq<MasterRecord>
    var aiLog: seq<AiLogEntry>

    constructor (master0: seq<MasterRecord>, aiLog0: seq<AiLogEntry>)
      ensures master == master0 && aiLog == aiLog0
    {
      master := master0;
      aiLog := aiLog0;
    }

    /** `_write_match`: `_INSERT_MASTER` in its own transaction. */
    method WriteMatch(r: MasterRecord)
      modifies this
      ensures master == InsertIfAbsent(old(master), r) && aiLog == old(aiLog)
    {
      master := InsertIfAbsent(master, r);
    }

    /** `_write_ai_log`: `_INSERT_AI_LOG` in its own transaction. */
    method WriteAiLog(e: AiLogEntry)
      modifies this
      ensures aiLog == old(aiLog) + [e] && master == old(master)
    {
      aiLog := aiLog + [e];
    }
  }

  /** What one validation job meets outside the model: the LLM's reply, and whether writing its log raises. */
  datatype AiCall = AiCall(reply: Reply, logRaises: bool)

  /** The outcome of `fut.result()`. */
  datatype JobResult = Raised | Returned(approved: bool, confidence: real)

  function JobLog(ccName: string, abrName: string, score: real, v: Validation): AiLogEntry {
    AiLogEntry(ccName, abrName, score, v.prompt, v.rawResponse, v.parsed, v.parsed.sameEntity)
  }

  /** `_run_ai_job`: validate the pair, log it, and return the verdict unless the log write raised. */
  method RunAiJob(db: Database, ccName: string, abrName: string, score: real, call: AiCall, env: Env)
    returns (result: JobResult, logged: seq<AiLogEntry>)
    modifies db
    ensures var v := Validate(ccName, abrName, call.reply, env);
      && result == (if call.logRaises then Raised else Returned(v.parsed.sameEntity, v.parsed.confidence))
      && logged == (if call.logRaises then [] else [JobLog(ccName, abrName, score, v)])
    ensures db.aiLog == old(db.aiLog) + logged && db.master == old(db.master)
  {
    var aiResult := Validate(ccName, abrName, call.reply, env);
    var approved := aiResult.parsed.sameEntity;
    if call.logRaises {
      return Raised, [];
    }
    var entry := JobLog(ccName, abrName, score, aiResult);
    db.WriteAiLog(entry);
    result, logged := Returned(approved, aiResult.parsed.confidence), [entry];
  }

  /** A logged job's decision is its verdict, and a returned confidence lies in [0, 1]. */
  lemma JobLogAgrees(ccName: string, abrName: string, score: real, call: AiCall, env: Env)
    ensures var v := Validate(ccName, abrName, call.reply, env);
      var e := JobLog(ccName, abrName, score, v);
      && e.decision == e.parsed.sameEntity && e.prompt == BuildPrompt(ccName, abrName)
      && 0.0 <= e.parsed.confidence <= 1.0
      && (call.reply.Failure? ==> !e.decision && e.rawResponse == call.reply.message)
  {
  }

  // ---------------------------------------------------------------------
  // Pending jobs and the drains
  // ---------------------------------------------------------------------

  /**
   * A submitted job: its submission number, the entry of `pending_futures`, the result it will
   * yield, and the rows its run wrote to `core.ai_match_log`.
   */
  datatype Job = Job(id: nat, cc: CcRow, abr: AbrRow, score: real, result: JobResult, logged: seq<AiLogEntry>)

  predicate Approved(j: Job) {
    j.result.Returned? && j.result.approved
  }

  /** The match an approved job writes: method `ai_validated`, confidence scaled to a percentage. */
  function AiRecord(j: Job): MasterRecord
    requires j.result.Returned?
  {
    BuildRecord(j.cc, j.abr, AiValidated, j.result.confidence * 100.0)
  }

  /** The matches the approved jobs of `jobs` write when collected in order. */
  function ApprovedRecords(jobs: seq<Job>): seq<MasterRecord>
    decreases |jobs|
  {
    if jobs == [] then []
    else
      var last := jobs[|jobs| - 1];
      ApprovedRecords(jobs[..|jobs| - 1]) + (if Approved(last) then [AiRecord(last)] else [])
  }

  /** `[f for f in list(pending) if f.done()]`, and the jobs left behind. */
  function Finished(jobs: seq<Job>, isDone: nat -> bool): seq<Job>
    decreases |jobs|
  {
    if jobs == [] then []
    else
      var last := jobs[|jobs| - 1];
      Finished(jobs[..|jobs| - 1], isDone) + (if isDone(last.id) then [last] else [])
  }

  function Waiting(jobs: seq<Job>, isDone: nat -> bool): seq<Job>
    decreases |jobs|
  {
    if jobs == [] then []
    else
      var last := jobs[|jobs| - 1];
      Waiting(jobs[..|jobs| - 1], isDone) + (if isDone(last.id) then [] else [last])
  }

  /** The one record a job adds to `ApprovedRecords`, if it is approved. */
  function RecordOf(j: Job): seq<MasterRecord> {
    if Approved(j) then [AiRecord(j)] else []
  }

  lemma ApprovedRecordsSnoc(jobs: seq<Job>, j: Job)
    ensures ApprovedRecords(jobs + [j]) == ApprovedRecords(jobs) + RecordOf(j)
  {
    assert (jobs + [j])[..|jobs|] == jobs;
  }

  lemma ApprovedPrefix(jobs: seq<Job>, k: nat)
    requires k < |jobs|
    ensures ApprovedRecords(jobs[..k + 1]) == ApprovedRecords(jobs[..k]) + RecordOf(jobs[k])
  {
    assert jobs[..k + 1] == jobs[..k] + [jobs[k]];
    ApprovedRecordsSnoc(jobs[..k], jobs[k]);
  }

  lemma FinishedSnoc(init: seq<Job>, last: Job, isDone: nat -> bool)
    ensures Finished(init + [last], isDone) == Finished(init, isDone) + (if isDone(last.id) then [last] else [])
    ensures Waiting(init + [last], isDone) == Waiting(init, isDone) + (if isDone(last.id) then [] else [last])
  {
    assert (init + [last])[..|init|] == init;
  }

  /** A drain splits the pending jobs: each is collected now or stays pending, never both. */
  lemma {:induction false} DrainSplits(jobs: seq<Job>, isDone: nat -> bool)
    ensures multiset(Finished(jobs, isDone)) + multiset(Waiting(jobs, isDone)) == multiset(jobs)
    decreases |jobs|
  {
    if jobs != [] {
      var init, last := jobs[..|jobs| - 1], jobs[|jobs| - 1];
      DrainSplits(init, isDone);
      assert jobs == init + [last];
      assert multiset(jobs) == multiset(init) + multiset{last};
      FinishedSnoc(init, last, isDone);
    }
  }

  lemma {:induction false} ApprovedRecordsAppend(a: seq<Job>, b: seq<Job>)
    ensures ApprovedRecords(a + b) == ApprovedRecords(a) + ApprovedRecords(b)
    decreases |b|
  {
    if b == [] {
      assert a + b == a;
    } else {
      var init, last := b[..|b| - 1], b[|b| - 1];
      ApprovedRecordsAppend(a, init);
      assert a + b == (a + init) + [last];
      assert b == init + [last];
      ApprovedRecordsSnoc(a + init, last);
      ApprovedRecordsSnoc(init, last);
      var x, y, r := ApprovedRecords(a), ApprovedRecords(init), RecordOf(last);
      assert ApprovedRecords(a + b) == (x + y) + r;
      assert ApprovedRecords(b) == y + r;
      assert (x + y) + r == x + (y + r);
    }
  }

  /** The number of approved jobs does not depend on the order in which they are collected. */
  lemma {:induction false} ApprovedCountPerm(a: seq<Job>, b: seq<Job>)
    requires multiset(a) == multiset(b)
    ensures |ApprovedRecords(a)| == |ApprovedRecords(b)|
    decreases |b|
  {
    if b == [] {
      assert |a| == |multiset(a)| == 0;
    } else {
      var n := |b| - 1;
      assert b[n] in multiset(a);
      var k :| 0 <= k < |a| && a[k] == b[n];
      RemoveOne(a, b, k);
      ApprovedCountPerm(a[..k] + a[k + 1..], b[..n]);
      ApprovedWithout(a, k);
      ApprovedPrefix(b, n);
      assert b[..n + 1] == b;
    }
  }

  /** Taking the same job out of two permutations of each other leaves two permutations. */
  lemma RemoveOne(a: seq<Job>, b: seq<Job>, k: nat)
    requires multiset(a) == multiset(b) && b != [] && k < |a| && a[k] == b[|b| - 1]
    ensures multiset(a[..k] + a[k + 1..]) == multiset(b[..|b| - 1])
  {
    var x := a[k];
    assert a == a[..k] + [x] + a[k + 1..];
    assert b == b[..|b| - 1] + [x];
    assert multiset(a[..k] + a[k + 1..]) == multiset(a) - multiset{x};
  }

  /** Taking job `k` out of a list removes its record, if any. */
  lemma ApprovedWithout(a: seq<Job>, k: nat)
    requires k < |a|
    ensures |ApprovedRecords(a)| == |ApprovedRecords(a[..k] + a[k + 1..])| + |RecordOf(a[k])|
  {
    var u, v := a[..k], a[k + 1..];
    assert a == (u + [a[k]]) + v;
    ApprovedRecordsAppend(u + [a[k]], v);
    ApprovedRecordsSnoc(u, a[k]);
    ApprovedRecordsAppend(u, v);
  }

  /** The jobs left pending are pending jobs the schedule has not marked done. */
  lemma {:induction false} WaitingSpec(jobs: seq<Job>, isDone: nat -> bool)
    ensures |Finished(jobs, isDone)| + |Waiting(jobs, isDone)| == |jobs|
    ensures forall j :: j in Waiting(jobs, isDone) ==> j in jobs && !isDone(j.id)
    ensures forall j :: j in Finished(jobs, isDone) ==> j in jobs && isDone(j.id)
    decreases |jobs|
  {
    if jobs != [] {
      var init := jobs[..|jobs| - 1];
      WaitingSpec(init, isDone);
      assert forall j :: j in init ==> j in jobs;
    }
  }

  lemma InsertAllSnoc(master: seq<MasterRecord>, ws: seq<MasterRecord>, w: MasterRecord)
    ensures InsertAll(master, ws + [w]) == InsertIfAbsent(InsertAll(master, ws), w)
  {
    assert (ws + [w])[..|ws|] == ws;
  }

  /** One collected future: write its match when it returned an approval, skip it when it raised. */
  method CollectOne(db: Database, fut: Job) returns (wrote: bool)
    modifies db
    ensures db.master == InsertAll(old(db.master), RecordOf(fut)) && db.aiLog == old(db.aiLog)
    ensures wrote <==> Approved(fut)
  {
    wrote := false;
    match fut.result {
      case Raised =>
      case Returned(approved, confidence) =>
        if approved {
          var rec := BuildRecord(fut.cc, fut.abr, AiValidated, confidence * 100.0);
          assert [rec][..0] == [];
          db.WriteMatch(rec);
          wrote := true;
        }
    }
  }

  /** One more collected job adds its record, if any, to the inserts and to the count. */
  lemma CollectPrefix(m0: seq<MasterRecord>, jobs: seq<Job>, k: nat)
    requires k < |jobs|
    ensures InsertAll(m0, ApprovedRecords(jobs[..k + 1]))
         == InsertAll(InsertAll(m0, ApprovedRecords(jobs[..k])), RecordOf(jobs[k]))
    ensures |ApprovedRecords(jobs[..k + 1])| == |ApprovedRecords(jobs[..k])| + |RecordOf(jobs[k])|
  {
    ApprovedPrefix(jobs, k);
    InsertAllAppend(m0, ApprovedRecords(jobs[..k]), RecordOf(jobs[k]));
  }

  /** Writing the approved jobs of `jobs`, in order: the loop of `_drain_futures` and the final drain. */
  method Collect(db: Database, jobs: seq<Job>, written0: nat) returns (written: nat)
    modifies db
    ensures db.master == InsertAll(old(db.master), ApprovedRecords(jobs)) && db.aiLog == old(db.aiLog)
    ensures written == written0 + |ApprovedRecords(jobs)|
  {
    written := written0;
    ghost var m0 := db.master;
    var k := 0;
    while k < |jobs|
      invariant k <= |jobs|
      invariant db.master == InsertAll(m0, ApprovedRecords(jobs[..k])) && db.aiLog == old(db.aiLog)
      invariant written == written0 + |ApprovedRecords(jobs[..k])|
    {
      CollectPrefix(m0, jobs, k);
      var wrote := CollectOne(db, jobs[k]);
      if wrote {
        written := written + 1;
      }
      k := k + 1;
    }
    assert jobs[..k] == jobs;
  }

  /** `_drain_futures`: collect the jobs done now, in submission order, and keep the rest pending. */
  method DrainFutures(db: Database, pending: seq<Job>, written0: nat, isDone: nat -> bool)
    returns (waiting: seq<Job>, written: nat)
    modifies db
    ensures waiting == Waiting(pending, isDone)
    ensures db.master == InsertAll(old(db.master), ApprovedRecords(Finished(pending, isDone))) && db.aiLog == old(db.aiLog)
    ensures written == written0 + |ApprovedRecords(Finished(pending, isDone))|
  {
    var done := Finished(pending, isDone);
    written := Collect(db, done, written0);
    waiting := Waiting(pending, isDone);
  }

  // ---------------------------------------------------------------------
  // The main loop
  // ---------------------------------------------------------------------

  /** The outcome of every crawled row, in order. */
  ghost function Outcomes(rows: seq<CcRow>, ix: Indexes, sc: Scorers): seq<Outcome> {
    seq(|rows|, k requires 0 <= k < |rows| => Classify(rows[k], ix, sc))
  }

  /** `ys` holds `g` of each element of `xs`, position by position. */
  ghost predicate MapsBy<A, B>(xs: seq<A>, ys: seq<B>, g: A -> B) {
    |ys| == |xs| && forall k :: 0 <= k < |xs| ==> ys[k] == g(xs[k])
  }

  lemma MapsBySnoc<A, B>(xs: seq<A>, i: nat, ys: seq<B>, y: B, g: A -> B)
    requires i < |xs| && MapsBy(xs[..i], ys, g) && y == g(xs[i])
    ensures MapsBy(xs[..i + 1], ys + [y], g)
  {
    var rows := xs[..i + 1];
    var ys' := ys + [y];
    forall k | 0 <= k < i ensures ys'[k] == g(rows[k]) {
      assert ys'[k] == ys[k] && rows[k] == xs[..i][k];
    }
    assert ys'[i] == y && rows[i] == xs[i];
  }

  /** The body of the main loop as a function value over the rows. */
  ghost function Classifier(ix: Indexes, sc: Scorers): CcRow -> Outcome {
    row => Classify(row, ix, sc)
  }

  /** `outs` holds the outcome of each row of `rows`, position by position. */
  ghost predicate Classified(rows: seq<CcRow>, outs: seq<Outcome>, ix: Indexes, sc: Scorers) {
    MapsBy(rows, outs, Classifier(ix, sc))
  }

  lemma ClassifiedSnoc(cc: seq<CcRow>, i: nat, outs: seq<Outcome>, o: Outcome, ix: Indexes, sc: Scorers)
    requires i < |cc| && Classified(cc[..i], outs, ix, sc) && o == Classify(cc[i], ix, sc)
    ensures Classified(cc[..i + 1], outs + [o], ix, sc)
  {
    assert Classifier(ix, sc)(cc[i]) == o;
    MapsBySnoc(cc, i, outs, o, Classifier(ix, sc));
  }

  lemma ClassifiedOutcomes(rows: seq<CcRow>, outs: seq<Outcome>, ix: Indexes, sc: Scorers)
    requires Classified(rows, outs, ix, sc)
    ensures outs == Outcomes(rows, ix, sc)
  {
    forall k | 0 <= k < |rows| ensures outs[k] == Outcomes(rows, ix, sc)[k] {
      assert outs[k] == Classifier(ix, sc)(rows[k]) == Classify(rows[k], ix, sc);
    }
  }

  /** The four counters the decisions drive: `total_high`, `total_med`, `total_ai` and `total_rejected`. */
  datatype Counts = Counts(high: nat, med: nat, ai: nat, rejected: nat)

  /** The counter a row's outcome increments. */
  function Bump(c: Counts, o: Outcome): Counts {
    match o
    case Skipped => c
    case Unmatched => c.(rejected := c.rejected + 1)
    case Direct(band, _) => if band == High then c.(high := c.high + 1) else c.(med := c.med + 1)
    case Review(_, _, _) => c.(ai := c.ai + 1)
    case LowScore => c.(rejected := c.rejected + 1)
  }

  ghost function Tally(outs: seq<Outcome>): Counts
    decreases |outs|
  {
    if outs == [] then Counts(0, 0, 0, 0) else Bump(Tally(outs[..|outs| - 1]), outs[|outs| - 1])
  }

  ghost function SkippedCount(outs: seq<Outcome>): nat
    decreases |outs|
  {
    if outs == [] then 0 else SkippedCount(outs[..|outs| - 1]) + (if outs[|outs| - 1].Skipped? then 1 else 0)
  }

  /** The match a direct decision writes. */
  function DirectOf(o: Outcome): seq<MasterRecord> {
    if o.Direct? then [o.record] else []
  }

  ghost function DirectRecords(outs: seq<Outcome>): seq<MasterRecord>
    decreases |outs|
  {
    if outs == [] then [] else DirectRecords(outs[..|outs| - 1]) + DirectOf(outs[|outs| - 1])
  }

  /** The log rows `_run_ai_job` writes for a pair: one, unless the write raises. */
  function LogRows(ccName: string, abrName: string, score: real, call: AiCall, env: Env): seq<AiLogEntry> {
    if call.logRaises then [] else [JobLog(ccName, abrName, score, Validate(ccName, abrName, call.reply, env))]
  }

  /** What `_run_ai_job` returns for a pair, given what its call meets. */
  function ResultOf(ccName: string, abrName: string, call: AiCall, env: Env): JobResult {
    var v := Validate(ccName, abrName, call.reply, env);
    if call.logRaises then Raised else Returned(v.parsed.sameEntity, v.parsed.confidence)
  }

  /** The job a review decision submits under number `id`. */
  function NewJob(o: Outcome, id: nat, calls: nat -> AiCall, env: Env): seq<Job> {
    if o.Review? then
      var call := calls(id);
      [Job(id, o.cc, o.abr, o.score, ResultOf(o.cc.companyName, o.abr.entityName, call, env),
           LogRows(o.cc.companyName, o.abr.entityName, o.score, call, env))]
    else []
  }

  /** The jobs submitted for `outs`, numbered in submission order. */
  ghost function Jobs(outs: seq<Outcome>, calls: nat -> AiCall, env: Env): seq<Job>
    decreases |outs|
  {
    if outs == [] then []
    else
      var init := Jobs(outs[..|outs| - 1], calls, env);
      init + NewJob(outs[|outs| - 1], |init|, calls, env)
  }

  /** The log rows of the jobs, in submission order. */
  function LogsOf(jobs: seq<Job>): seq<AiLogEntry>
    decreases |jobs|
  {
    if jobs == [] then [] else jobs[0].logged + LogsOf(jobs[1..])
  }

  /** The decision tree for one assessed row, with its write or its job submission. */
  method HandleRow(db: Database, o: Outcome, counts: Counts, written: nat, pending: seq<Job>, calls: nat -> AiCall, env: Env)
    returns (counts': Counts, written': nat, pending': seq<Job>)
    modifies db
    ensures counts' == Bump(counts, o) && written' == written + |DirectOf(o)|
    ensures pending' == pending + NewJob(o, counts.ai, calls, env)
    ensures db.master == InsertAll(old(db.master), DirectOf(o))
    ensures db.aiLog == old(db.aiLog) + LogsOf(NewJob(o, counts.ai, calls, env))
  {
    counts', written', pending' := counts, written, pending;
    match o {
      case Skipped =>
      case Unmatched =>
        counts' := counts'.(rejected := counts'.rejected + 1);
      case Direct(band, record) =>
        assert [record][..0] == [];
        db.WriteMatch(record);
        written' := written' + 1;
        if band == High {
          counts' := counts'.(high := counts'.high + 1);
        } else {
          counts' := counts'.(med := counts'.med + 1);
        }
      case Review(row, abrRow, score) =>
        var id := counts.ai;
        counts' := counts'.(ai := counts'.ai + 1);
        var result, logged := RunAiJob(db, row.companyName, abrRow.entityName, score, calls(id), env);
        var job := Job(id, row, abrRow, score, result, logged);
        assert [job][..0] == [];
        pending' := pending' + [job];
      case LowScore =>
        counts' := counts'.(rejected := counts'.rejected + 1);
    }
  }

  /** A row bumps at most one counter, and a skipped row none. */
  lemma BumpOne(c: Counts, o: Outcome)
    ensures var b := Bump(c, o);
      b.high + b.med + b.ai + b.rejected == c.high + c.med + c.ai + c.rejected + (if o.Skipped? then 0 else 1)
  {
  }

  /**
   * The four counters and the skipped rows partition the rows; the direct matches are as many
   * as the high and medium counts.
   */
  lemma {:induction false} TallyPartition(outs: seq<Outcome>)
    ensures var t := Tally(outs); t.high + t.med + t.ai + t.rejected + SkippedCount(outs) == |outs|
    ensures |DirectRecords(outs)| == Tally(outs).high + Tally(outs).med
    decreases |outs|
  {
    if outs != [] {
      TallyPartition(outs[..|outs| - 1]);
    }
  }

  /** The run's totals, as the final summary prints them. */
  datatype Summary = Summary(proc: nat, written: nat, ai: nat, rejected: nat, high: nat, med: nat)

  lemma SnocSteps(outs: seq<Outcome>, o: Outcome, calls: nat -> AiCall, env: Env)
    ensures Tally(outs + [o]) == Bump(Tally(outs), o)
    ensures DirectRecords(outs + [o]) == DirectRecords(outs) + DirectOf(o)
    ensures Jobs(outs + [o], calls, env) == Jobs(outs, calls, env) + NewJob(o, |Jobs(outs, calls, env)|, calls, env)
    ensures SkippedCount(outs + [o]) == SkippedCount(outs) + (if o.Skipped? then 1 else 0)
  {
    assert (outs + [o])[..|outs|] == outs;
  }

  lemma Associative<T>(a: seq<T>, b: seq<T>, c: seq<T>)
    ensures a + (b + c) == (a + b) + c
  {
  }

  lemma BumpAi(c: Counts, o: Outcome, id: nat, calls: nat -> AiCall, env: Env)
    ensures Bump(c, o).ai == c.ai + |NewJob(o, id, calls, env)|
  {
  }

  lemma {:induction false} LogsAppend(a: seq<Job>, b: seq<Job>)
    ensures LogsOf(a + b) == LogsOf(a) + LogsOf(b)
    decreases |a|
  {
    if a == [] {
      assert a + b == b;
    } else {
      assert (a + b)[0] == a[0];
      assert (a + b)[1..] == a[1..] + b;
      LogsAppend(a[1..], b);
      var x, y, z := a[0].logged, LogsOf(a[1..]), LogsOf(b);
      assert (x + y) + z == x + (y + z);
    }
  }

  /**
   * The bookkeeping of the main loop: every submitted job is collected or pending, exactly once,
   * and the matches written so far are the direct ones and those of the approved collected jobs.
   */
  ghost predicate Accounted(writes: seq<MasterRecord>, collected: seq<Job>, pending: seq<Job>,
                            outs: seq<Outcome>, jobs: seq<Job>) {
    && multiset(collected) + multiset(pending) == multiset(jobs)
    && multiset(writes) == multiset(DirectRecords(outs)) + multiset(ApprovedRecords(collected))
  }

  lemma AccountedRow(writes: seq<MasterRecord>, collected: seq<Job>, pending: seq<Job>,
                     outs: seq<Outcome>, jobs: seq<Job>, o: Outcome, nj: seq<Job>)
    requires Accounted(writes, collected, pending, outs, jobs)
    requires DirectRecords(outs + [o]) == DirectRecords(outs) + DirectOf(o)
    ensures Accounted(writes + DirectOf(o), collected, pending + nj, outs + [o], jobs + nj)
  {
  }

  lemma AccountedDrain(writes: seq<MasterRecord>, collected: seq<Job>, pending: seq<Job>,
                       outs: seq<Outcome>, jobs: seq<Job>, isDone: nat -> bool)
    requires Accounted(writes, collected, pending, outs, jobs)
    ensures var done := Finished(pending, isDone);
      Accounted(writes + ApprovedRecords(done), collected + done, Waiting(pending, isDone), outs, jobs)
  {
    var done := Finished(pending, isDone);
    DrainSplits(pending, isDone);
    ApprovedRecordsAppend(collected, done);
  }

  lemma AccountedFinal(writes: seq<MasterRecord>, collected: seq<Job>, pending: seq<Job>,
                       outs: seq<Outcome>, jobs: seq<Job>)
    requires Accounted(writes, collected, pending, outs, jobs)
    ensures Accounted(writes + ApprovedRecords(pending), collected + pending, [], outs, jobs)
  {
    ApprovedRecordsAppend(collected, pending);
  }

  /**
   * The state of `fuzzy_match` after the outcomes `outs`: the counters, jobs, writes and the two
   * tables agree with them, and every job is collected or pending exactly once.
   */
  ghost predicate Progress(calls: nat -> AiCall, env: Env, counts: Counts, written: nat, pending: seq<Job>,
                           outs: seq<Outcome>, jobs: seq<Job>, writes: seq<MasterRecord>, collected: seq<Job>,
                           master: seq<MasterRecord>, aiLog: seq<AiLogEntry>,
                           m0: seq<MasterRecord>, l0: seq<AiLogEntry>) {
    && counts == Tally(outs)
    && jobs == Jobs(outs, calls, env) && counts.ai == |jobs|
    && Accounted(writes, collected, pending, outs, jobs)
    && written == |writes|
    && master == InsertAll(m0, writes) && aiLog == l0 + LogsOf(jobs)
  }

  /** The bookkeeping of one row: its outcome, its counter, its job and its write extend the state. */
  lemma RowProgress(calls: nat -> AiCall, env: Env, counts: Counts, written: nat, pending: seq<Job>,
                    outs: seq<Outcome>, jobs: seq<Job>, writes: seq<MasterRecord>, collected: seq<Job>,
                    master: seq<MasterRecord>, aiLog: seq<AiLogEntry>, m0: seq<MasterRecord>, l0: seq<AiLogEntry>,
                    o: Outcome, master': seq<MasterRecord>, aiLog': seq<AiLogEntry>)
    requires Progress(calls, env, counts, written, pending, outs, jobs, writes, collected, master, aiLog, m0, l0)
    requires master' == InsertAll(master, DirectOf(o))
    requires aiLog' == aiLog + LogsOf(NewJob(o, counts.ai, calls, env))
    ensures var nj := NewJob(o, counts.ai, calls, env);
      Progress(calls, env, Bump(counts, o), written + |DirectOf(o)|, pending + nj,
               outs + [o], jobs + nj, writes + DirectOf(o), collected, master', aiLog', m0, l0)
  {
    var nj := NewJob(o, counts.ai, calls, env);
    SnocSteps(outs, o, calls, env);
    LogsAppend(jobs, nj);
    InsertAllAppend(m0, writes, DirectOf(o));
    AccountedRow(writes, collected, pending, outs, jobs, o, nj);
    BumpAi(counts, o, counts.ai, calls, env);
    Associative(l0, LogsOf(jobs), LogsOf(nj));
  }

  /** One pass of the main loop up to the drain check: assess the row, then write, reject or submit. */
  method ProcessRow(db: Database, cc: seq<CcRow>, i: nat, ix: Indexes, sc: Scorers,
                    calls: nat -> AiCall, env: Env, counts: Counts, written: nat, pending: seq<Job>,
                    ghost outs: seq<Outcome>, ghost jobs: seq<Job>, ghost writes: seq<MasterRecord>,
                    ghost collected: seq<Job>, ghost m0: seq<MasterRecord>, ghost l0: seq<AiLogEntry>)
    returns (o: Outcome, counts': Counts, written': nat, pending': seq<Job>,
             ghost outs': seq<Outcome>, ghost jobs': seq<Job>, ghost writes': seq<MasterRecord>)
    requires i < |cc| && Classified(cc[..i], outs, ix, sc)
    requires Progress(calls, env, counts, written, pending, outs, jobs, writes, collected, db.master, db.aiLog, m0, l0)
    modifies db
    ensures Classified(cc[..i + 1], outs', ix, sc) && outs' == outs + [o]
    ensures Progress(calls, env, counts', written', pending', outs', jobs', writes', collected, db.master, db.aiLog, m0, l0)
  {
    o := Assess(cc[i], ix, sc);
    ClassifiedSnoc(cc, i, outs, o, ix, sc);
    ghost var nj := NewJob(o, counts.ai, calls, env);
    ghost var master, aiLog := db.master, db.aiLog;
    counts', written', pending' := HandleRow(db, o, counts, written, pending, calls, env);
    RowProgress(calls, env, counts, written, pending, outs, jobs, writes, collected,
                master, aiLog, m0, l0, o, db.master, db.aiLog);
    outs', jobs', writes' := outs + [o], jobs + nj, writes + DirectOf(o);
  }

  /** `_drain_futures` inside the main loop: the collected jobs move from pending to collected. */
  method DrainStep(db: Database, calls: nat -> AiCall, env: Env, counts: Counts, written: nat, pending: seq<Job>,
                   isDone: nat -> bool,
                   ghost outs: seq<Outcome>, ghost jobs: seq<Job>, ghost writes: seq<MasterRecord>,
                   ghost collected: seq<Job>, ghost m0: seq<MasterRecord>, ghost l0: seq<AiLogEntry>)
    returns (written': nat, pending': seq<Job>, ghost writes': seq<MasterRecord>, ghost collected': seq<Job>)
    requires Progress(calls, env, counts, written, pending, outs, jobs, writes, collected, db.master, db.aiLog, m0, l0)
    modifies db
    ensures pending' == Waiting(pending, isDone) && collected' == collected + Finished(pending, isDone)
    ensures Progress(calls, env, counts, written', pending', outs, jobs, writes', collected', db.master, db.aiLog, m0, l0)
  {
    ghost var done := Finished(pending, isDone);
    AccountedDrain(writes, collected, pending, outs, jobs, isDone);
    InsertAllAppend(m0, writes, ApprovedRecords(done));
    pending', written' := DrainFutures(db, pending, written, isDone);
    collected' := collected + done;
    writes' := writes + ApprovedRecords(done);
  }

  /** One pass of the main loop: the row's decision, then the drain when the row was decided and enough jobs wait. */
  method Step(db: Database, cc: seq<CcRow>, i: nat, ix: Indexes, sc: Scorers,
              calls: nat -> AiCall, env: Env, doneAt: (nat, nat) -> bool, aiWorkers: nat,
              counts: Counts, written: nat, pending: seq<Job>,
              ghost outs: seq<Outcome>, ghost jobs: seq<Job>, ghost writes: seq<MasterRecord>,
              ghost collected: seq<Job>, ghost m0: seq<MasterRecord>, ghost l0: seq<AiLogEntry>)
    returns (counts': Counts, written': nat, pending': seq<Job>,
             ghost outs': seq<Outcome>, ghost jobs': seq<Job>, ghost writes': seq<MasterRecord>, ghost collected': seq<Job>)
    requires i < |cc| && Classified(cc[..i], outs, ix, sc)
    requires Progress(calls, env, counts, written, pending, outs, jobs, writes, collected, db.master, db.aiLog, m0, l0)
    modifies db
    ensures Classified(cc[..i + 1], outs', ix, sc)
    ensures Progress(calls, env, counts', written', pending', outs', jobs', writes', collected', db.master, db.aiLog, m0, l0)
  {
    var o;
    o, counts', written', pending', outs', jobs', writes' :=
      ProcessRow(db, cc, i, ix, sc, calls, env, counts, written, pending, outs, jobs, writes, collected, m0, l0);
    collected' := collected;
    if Decided(o) && |pending'| >= aiWorkers * 2 {
      var isDone := (n: nat) => doneAt(i, n);
      written', pending', writes', collected' :=
        DrainStep(db, calls, env, counts', written', pending', isDone, outs', jobs', writes', collected', m0, l0);
    }
  }

  /** The main loop of `fuzzy_match`, from the state before the first row to the state after the last. */
  method MainLoop(db: Database, cc: seq<CcRow>, ix: Indexes, sc: Scorers, calls: nat -> AiCall, env: Env,
                  doneAt: (nat, nat) -> bool, aiWorkers: nat, ghost m0: seq<MasterRecord>, ghost l0: seq<AiLogEntry>)
    returns (totalProc: nat, counts: Counts, totalWritten: nat, pending: seq<Job>,
             ghost outs: seq<Outcome>, ghost jobs: seq<Job>, ghost writes: seq<MasterRecord>, ghost collected: seq<Job>)
    requires db.master == m0 && db.aiLog == l0
    modifies db
    ensures totalProc == |cc| && Classified(cc, outs, ix, sc)
    ensures Progress(calls, env, counts, totalWritten, pending, outs, jobs, writes, collected, db.master, db.aiLog, m0, l0)
  {
    totalProc, totalWritten := 0, 0;
    counts := Counts(0, 0, 0, 0);
    pending := [];
    outs, jobs, writes, collected := [], [], [], [];
    var i := 0;
    while i < |cc|
      invariant i <= |cc| && totalProc == i && Classified(cc[..i], outs, ix, sc)
      invariant Progress(calls, env, counts, totalWritten, pending, outs, jobs, writes, collected, db.master, db.aiLog, m0, l0)
    {
      totalProc := totalProc + 1;
      counts, totalWritten, pending, outs, jobs, writes, collected :=
        Step(db, cc, i, ix, sc, calls, env, doneAt, aiWorkers, counts, totalWritten, pending,
             outs, jobs, writes, collected, m0, l0);
      i := i + 1;
    }
    assert cc[..i] == cc;
  }

  /**
   * `fuzzy_match`: every crawled row is assessed against the indexes built from `abr`; direct
   * matches are written at once, reviews become jobs, and the jobs are collected by the drains
   * the schedule `doneAt` allows and, at the end, all of them. Job `n` (in submission order) meets
   * `calls(n)`; at row `i` a drain finds job `n` done when `doneAt(i, n)`.
   *
   * Every submitted job is collected exactly once; the matches written are the direct ones and
   * those of the approved collected jobs; the table takes them with insert-if-absent; the log has
   * one row per job whose log write did not raise; and the counters count the outcomes.
   */
  method FuzzyMatch(db: Database, cc: seq<CcRow>, abr: seq<AbrRow>, sc: Scorers, env: Env,
                    calls: nat -> AiCall, doneAt: (nat, nat) -> bool, aiWorkers: nat)
    returns (s: Summary, ghost ix: Indexes, ghost writes: seq<MasterRecord>, ghost collected: seq<Job>)
    requires aiWorkers >= 1
    modifies db
    ensures BuiltFrom(ix, abr)
    ensures var outs := Outcomes(cc, ix, sc);
      var t := Tally(outs);
      && s == Summary(|cc|, |writes|, t.ai, t.rejected, t.high, t.med)
      && Accounted(writes, collected, [], outs, Jobs(outs, calls, env))
      && db.master == InsertAll(old(db.master), writes)
      && db.aiLog == old(db.aiLog) + LogsOf(Jobs(outs, calls, env))
    ensures s.high + s.med + s.ai + s.rejected + SkippedCount(Outcomes(cc, ix, sc)) == s.proc
    ensures s.written == s.high + s.med + |ApprovedRecords(Jobs(Outcomes(cc, ix, sc), calls, env))|
  {
    var byPrefix3, namesPrefix3, byToken1, namesToken1 := BuildIndexes(abr);
    var indexes := Indexes(byPrefix3, namesPrefix3, byToken1, namesToken1);
    ix := indexes;
    ghost var m0, l0 := db.master, db.aiLog;
    var totalProc, counts, totalWritten, pending;
    ghost var outs, jobs;
    totalProc, counts, totalWritten, pending, outs, jobs, writes, collected :=
      MainLoop(db, cc, indexes, sc, calls, env, doneAt, aiWorkers, m0, l0);
    ClassifiedOutcomes(cc, outs, ix, sc);
    AccountedFinal(writes, collected, pending, outs, jobs);
    InsertAllAppend(m0, writes, ApprovedRecords(pending));
    totalWritten := Collect(db, pending, totalWritten);
    collected := collected + pending;
    writes := writes + ApprovedRecords(pending);
    s := Summary(totalProc, totalWritten, counts.ai, counts.rejected, counts.high, counts.med);
    TallyPartition(outs);
    ApprovedCountPerm(collected, jobs);
    assert |writes| == |multiset(writes)| == |DirectRecords(outs)| + |ApprovedRecords(collected)|;
  }
}
