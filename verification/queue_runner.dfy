/** The queue runner (class `QueueRunner`) as a state machine.

  metcalf runs on a single-threaded event loop: `runQueue` fills the
  worker slots, and each process's `exit` event records the job's outcome,
  frees its slot and calls `runNext` again.  Here those steps are explicit
  transitions: `Start` for `runQueue`, `Complete(job, exitCode)` for one
  exit event.  Process launching itself is not modelled; `Complete` may be
  applied to any running job, in any order, which covers every order in which
  the launched processes could exit.

  Besides the fields of `QueueRunner` (`runCount`, `processCount` and the two
  title lists) the state records which queue indices are running and which
  have finished, and the reports printed so far.
 */
module QueueRunner {
  import Cli
  import Strings
  import opened Results
  import opened Tasks

  /** The figures `printReport` prints (the duration is not modelled). */
  datatype Report = Report(done: nat, successful: seq<string>, failed: seq<string>)

  datatype Runner = Runner(
    queue: seq<Job>,
    maxWorkers: nat,
    runCount: nat,
    processCount: nat,
    successful: seq<string>,
    failed: seq<string>,
    running: set<nat>,
    finished: set<nat>,
    reports: seq<Report>)

  /** One `exit` event: the job at queue index `job` exited with `code`. */
  datatype Exit = Exit(job: nat, code: int)

  /** The queue indices below `n`. */
  function Below(n: nat): (r: set<nat>)
    ensures forall k: nat :: k in r <==> k < n
    ensures |r| == n
  {
    if n == 0 then {} else
      var b := Below(n - 1);
      assert n - 1 !in b;
      b + {n - 1}
  }

  /** The queue indices from `lo` up to, not including, `hi`. */
  function Between(lo: nat, hi: nat): (r: set<nat>)
    ensures forall k: nat :: k in r <==> lo <= k < hi
  {
    Below(hi) - Below(lo)
  }

  function Min(a: nat, b: nat): nat {
    if a <= b then a else b
  }

  /** Every job of a non-empty queue has reached a terminal state. */
  predicate AllDone(st: Runner) {
    |st.queue| > 0 && |st.successful| + |st.failed| == |st.queue|
  }

  /** The runner's invariant: admitted jobs are exactly the queue prefix
      below the cursor, each either running or finished; running jobs never
      exceed the worker limit and fill every slot while jobs are pending;
      the counts add up; and the report has been printed once exactly when
      every job is done. */
  ghost predicate Inv(st: Runner) {
    && st.runCount <= |st.queue|
    && st.processCount <= st.maxWorkers
    && st.processCount == |st.running|
    && st.runCount == st.processCount + |st.successful| + |st.failed|
    && st.running !! st.finished
    && st.running + st.finished == Below(st.runCount)
    && (st.runCount < |st.queue| ==> st.processCount == st.maxWorkers)
    && |st.reports| == (if AllDone(st) then 1 else 0)
    && (AllDone(st) ==> st.reports[0] == Report(|st.queue|, st.successful, st.failed))
  }

  /** The freshly constructed runner. */
  function Init(queue: seq<Job>, maxWorkers: nat): Runner {
    Runner(queue, maxWorkers, 0, 0, [], [], {}, {}, [])
  }

  /** `runNext()`: admit the job under the cursor if there is one; otherwise
      print the report once every admitted job has completed. */
  function RunNext(st: Runner): Runner {
    if |st.queue| > 0 && st.runCount < |st.queue| then
      st.(processCount := st.processCount + 1,
          runCount := st.runCount + 1,
          running := st.running + {st.runCount})
    else if |st.successful| + |st.failed| >= |st.queue| then
      st.(reports := st.reports + [Report(st.runCount, st.successful, st.failed)])
    else
      st
  }

  /** The three cases of `runNext()` on a consistent runner: with a job
      pending, the job under the cursor (never one already admitted) starts;
      with none pending, the report is printed if every job is done, and
      otherwise nothing happens. */
  lemma RunNextCases(st: Runner)
    requires Inv(st)
    ensures var r := RunNext(st);
            && r.queue == st.queue && r.maxWorkers == st.maxWorkers
            && r.successful == st.successful && r.failed == st.failed && r.finished == st.finished
            && (st.runCount < |st.queue| ==>
                  && st.runCount !in st.running + st.finished
                  && r.running == st.running + {st.runCount}
                  && r.runCount == st.runCount + 1 && r.processCount == st.processCount + 1
                  && r.reports == st.reports)
            && (st.runCount == |st.queue| ==>
                  && r.running == st.running && r.runCount == st.runCount && r.processCount == st.processCount
                  && r.reports == st.reports + (if |st.successful| + |st.failed| == |st.queue|
                                                then [Report(|st.queue|, st.successful, st.failed)] else []))
  {
  }

  /** The admission loop of `runQueue()`, at iteration `i`. */
  function StartLoop(st: Runner, i: nat): (r: Runner)
    requires i == st.runCount == st.processCount == |st.running| && i <= |st.queue| && i <= st.maxWorkers
    requires st.running == Below(i)
    requires st.successful == [] && st.failed == [] && st.finished == {} && st.reports == []
    ensures r.queue == st.queue && r.maxWorkers == st.maxWorkers
    ensures r.runCount == r.processCount == |r.running| == Min(st.maxWorkers, |st.queue|)
    ensures r.running == Below(r.runCount)
    ensures r.successful == [] && r.failed == [] && r.finished == {} && r.reports == []
    decreases |st.queue| - i
  {
    if i < st.maxWorkers && i < |st.queue| then
      assert Below(i) + {i} == Below(i + 1);
      StartLoop(RunNext(st), i + 1)
    else
      st
  }

  /** The worker limit of `runQueue()`: the `maxWorkers=` option, else the
      configured `maxWorkers`, and 1 when that value is falsy (missing, empty
      or zero).  An option's value stays a string, which the admission loop
      compares numerically; `slotsOf(v)` is the number of iterations that
      comparison lets through. */
  function WorkerLimit(argv: seq<string>, configured: Option<nat>, slotsOf: string -> nat): (r: nat)
    ensures Cli.GetCliArg(argv, "maxWorkers").Some? && Cli.GetCliArg(argv, "maxWorkers").value != ""
            ==> r == slotsOf(Cli.GetCliArg(argv, "maxWorkers").value)
    ensures Cli.GetCliArg(argv, "maxWorkers").None? && configured.Some? && configured.value > 0 ==> r == configured.value
    ensures Cli.GetCliArg(argv, "maxWorkers") == Some("")
            || (Cli.GetCliArg(argv, "maxWorkers").None? && (configured.None? || configured.value == 0))
            ==> r == 1
    ensures r == 0 ==> exists k :: 2 <= k < |argv| && Strings.StartsWith(argv[k], "maxWorkers=")
  {
    match Cli.GetCliArg(argv, "maxWorkers")
    case Some(v) => if v != "" then slotsOf(v) else 1
    case None =>
      match configured
      case Some(n) => if n > 0 then n else 1
      case None => 1
  }

  /** `runQueue()`: fills `min(maxWorkers, |queue|)` slots with the first jobs
      of the queue, before any of them completes. */
  function Start(queue: seq<Job>, maxWorkers: nat): (r: Runner)
    ensures Inv(r)
    ensures r.queue == queue && r.maxWorkers == maxWorkers
    ensures r.runCount == r.processCount == Min(maxWorkers, |queue|)
    ensures r.running == Below(r.runCount)
    ensures r.successful == [] && r.failed == [] && r.reports == []
  {
    StartLoop(Init(queue, maxWorkers), 0)
  }

  /** The bookkeeping of an `exit` event before `runNext`: the title goes to
      the list its exit code selects and the slot is freed. */
  function Record(st: Runner, j: nat, exitCode: int): Runner
    requires j < |st.queue| && st.processCount >= 1
  {
    var title := st.queue[j].title;
    st.(successful := if exitCode == 0 then st.successful + [title] else st.successful,
        failed := if exitCode == 0 then st.failed else st.failed + [title],
        processCount := st.processCount - 1,
        running := st.running - {j},
        finished := st.finished + {j})
  }

  lemma RecordFacts(st: Runner, j: nat, exitCode: int)
    requires Inv(st) && j in st.running
    ensures j < |st.queue| && st.processCount >= 1
    ensures var st1 := Record(st, j, exitCode);
            && st1.processCount == |st1.running| < st.maxWorkers + 1
            && st1.runCount == st1.processCount + |st1.successful| + |st1.failed|
            && st1.running !! st1.finished
            && st1.running + st1.finished == Below(st1.runCount)
            && |st1.successful| + |st1.failed| == |st.successful| + |st.failed| + 1
  {
    assert j in Below(st.runCount);
    MoveOne(st.running, st.finished, j);
  }

  /** Moving one element from a set to a disjoint one keeps the union and the
      disjointness, and shrinks the first set by one. */
  lemma MoveOne(running: set<nat>, finished: set<nat>, j: nat)
    requires j in running && running !! finished
    ensures |running - {j}| == |running| - 1
    ensures (running - {j}) !! (finished + {j})
    ensures (running - {j}) + (finished + {j}) == running + finished
  {
    assert running == (running - {j}) + {j};
  }

  /** When a job is pending, the freed slot goes to it. */
  lemma AdmitKeepsInv(st: Runner, j: nat, exitCode: int)
    requires Inv(st) && j in st.running && st.runCount < |st.queue|
    ensures var r := RunNext(Record(st, j, exitCode));
            Inv(r) && !AllDone(r) && r.reports == st.reports
  {
    RecordFacts(st, j, exitCode);
    assert st.processCount == st.maxWorkers;
    assert !AllDone(st);
    AdmitStep(Record(st, j, exitCode));
  }

  /** After an exit with a job pending: the pending job takes the freed slot. */
  lemma AdmitStep(st1: Runner)
    requires st1.runCount < |st1.queue| && st1.processCount + 1 == st1.maxWorkers
    requires st1.processCount == |st1.running|
    requires st1.runCount == st1.processCount + |st1.successful| + |st1.failed|
    requires st1.running !! st1.finished && st1.running + st1.finished == Below(st1.runCount)
    requires st1.reports == []
    ensures var r := RunNext(st1);
            Inv(r) && !AllDone(r) && r.reports == []
  {
    var n := st1.runCount;
    AdmitOne(st1.running, st1.finished, n);
    var r := st1.(processCount := st1.processCount + 1, runCount := n + 1, running := st1.running + {n});
    assert RunNext(st1) == r;
  }

  /** Admitting the index under the cursor extends the admitted prefix by it. */
  lemma AdmitOne(running: set<nat>, finished: set<nat>, n: nat)
    requires running !! finished && running + finished == Below(n)
    ensures |running + {n}| == |running| + 1
    ensures (running + {n}) !! finished
    ensures (running + {n}) + finished == Below(n + 1)
  {
    assert n !in running && n !in finished;
    assert Below(n) + {n} == Below(n + 1);
  }

  /** When nothing is pending, the last completion prints the report. */
  lemma DrainKeepsInv(st: Runner, j: nat, exitCode: int)
    requires Inv(st) && j in st.running && st.runCount == |st.queue|
    ensures var r := RunNext(Record(st, j, exitCode));
            && Inv(r)
            && r.reports == st.reports + (if AllDone(r) then [Report(|r.queue|, r.successful, r.failed)] else [])
            && (AllDone(r) ==> r.runCount == |r.queue| && r.running == {})
  {
    RecordFacts(st, j, exitCode);
    assert !AllDone(st);
    DrainStep(Record(st, j, exitCode));
  }

  /** After an exit with nothing pending: the report is printed once the last
      running job has exited. */
  lemma DrainStep(st1: Runner)
    requires st1.runCount == |st1.queue| && st1.processCount <= st1.maxWorkers
    requires st1.processCount == |st1.running|
    requires st1.runCount == st1.processCount + |st1.successful| + |st1.failed|
    requires st1.running !! st1.finished && st1.running + st1.finished == Below(st1.runCount)
    requires st1.reports == [] && |st1.successful| + |st1.failed| > 0
    ensures var r := RunNext(st1);
            && Inv(r)
            && r.reports == st1.reports + (if AllDone(r) then [Report(|r.queue|, r.successful, r.failed)] else [])
            && (AllDone(r) ==> r.runCount == |r.queue| && r.running == {})
  {
  }

  /** The `exit` handler of the process running the job at index `j`: the
      title goes to exactly one list, the slot is freed and `runNext` either
      admits the next job in queue order or, after the last completion,
      prints the report. */
  function Complete(st: Runner, j: nat, exitCode: int): (r: Runner)
    requires Inv(st) && j in st.running
    ensures Inv(r)
    ensures r.queue == st.queue && r.maxWorkers == st.maxWorkers
    ensures j < |st.queue|
    ensures exitCode == 0 ==> r.successful == st.successful + [st.queue[j].title] && r.failed == st.failed
    ensures exitCode != 0 ==> r.failed == st.failed + [st.queue[j].title] && r.successful == st.successful
    ensures r.finished == st.finished + {j} && j !in st.finished && j !in r.running
    ensures st.runCount < |st.queue| ==> r.runCount == st.runCount + 1 && r.running == st.running - {j} + {st.runCount}
    ensures st.runCount == |st.queue| ==> r.runCount == st.runCount && r.running == st.running - {j}
    ensures r.reports == st.reports + (if AllDone(r) then [Report(|r.queue|, r.successful, r.failed)] else [])
    ensures AllDone(r) ==> r.runCount == |r.queue| && r.running == {}
  {
    RecordFacts(st, j, exitCode);
    CompleteKeepsInv(st, j, exitCode);
    CompleteEffects(st, j, exitCode);
    RunNext(Record(st, j, exitCode))
  }

  lemma CompleteKeepsInv(st: Runner, j: nat, exitCode: int)
    requires Inv(st) && j in st.running
    ensures var r := RunNext(Record(st, j, exitCode));
            && Inv(r)
            && r.reports == st.reports + (if AllDone(r) then [Report(|r.queue|, r.successful, r.failed)] else [])
            && (AllDone(r) ==> r.runCount == |r.queue| && r.running == {})
  {
    if st.runCount < |st.queue| {
      AdmitKeepsInv(st, j, exitCode);
    } else {
      DrainKeepsInv(st, j, exitCode);
    }
  }

  lemma CompleteEffects(st: Runner, j: nat, exitCode: int)
    requires Inv(st) && j in st.running
    ensures var r := RunNext(Record(st, j, exitCode));
            && r.queue == st.queue && r.maxWorkers == st.maxWorkers
            && (exitCode == 0 ==> r.successful == st.successful + [st.queue[j].title] && r.failed == st.failed)
            && (exitCode != 0 ==> r.failed == st.failed + [st.queue[j].title] && r.successful == st.successful)
            && r.finished == st.finished + {j} && j !in st.finished && j !in r.running
            && (st.runCount < |st.queue| ==> r.runCount == st.runCount + 1 && r.running == st.running - {j} + {st.runCount})
            && (st.runCount == |st.queue| ==> r.runCount == st.runCount && r.running == st.running - {j})
  {
    RecordFacts(st, j, exitCode);
    assert st.runCount !in Below(st.runCount);
    RecordEffects(st, j, exitCode);
  }

  lemma RecordEffects(st: Runner, j: nat, exitCode: int)
    requires j < |st.queue| && st.processCount >= 1 && st.runCount <= |st.queue|
    requires j in st.running && st.running !! st.finished && st.runCount !in st.running
    ensures var r := RunNext(Record(st, j, exitCode));
            && r.queue == st.queue && r.maxWorkers == st.maxWorkers
            && (exitCode == 0 ==> r.successful == st.successful + [st.queue[j].title] && r.failed == st.failed)
            && (exitCode != 0 ==> r.failed == st.failed + [st.queue[j].title] && r.successful == st.successful)
            && r.finished == st.finished + {j} && j !in st.finished && j !in r.running
            && (st.runCount < |st.queue| ==> r.runCount == st.runCount + 1 && r.running == st.running - {j} + {st.runCount})
            && (st.runCount == |st.queue| ==> r.runCount == st.runCount && r.running == st.running - {j})
  {
  }

  /** Applies exit events in order; `None` when an event names a job that is
      not running (no process could have emitted it). */
  function Run(st: Runner, events: seq<Exit>): (r: Option<Runner>)
    requires Inv(st)
    ensures r.Some? ==> Inv(r.value) && r.value.queue == st.queue && r.value.maxWorkers == st.maxWorkers
    ensures r.Some? ==> |r.value.successful| + |r.value.failed| == |st.successful| + |st.failed| + |events|
    ensures r.Some? ==> |r.value.reports| <= 1
    decreases |events|
  {
    if |events| == 0 then Some(st)
    else if events[0].job in st.running then Run(Complete(st, events[0].job, events[0].code), events[1..])
    else None
  }

  /** Every event of `events` names a job that is running when it arrives,
      i.e. it could have been emitted by one of the spawned processes. */
  ghost predicate Feasible(st: Runner, events: seq<Exit>)
    requires Inv(st)
  {
    forall i :: 0 <= i < |events| && Run(st, events[..i]).Some? ==> events[i].job in Run(st, events[..i]).value.running
  }

  /** Running a prefix of a schedule whose first exit is accepted is running
      the rest of that prefix from the state after the first exit. */
  lemma RunPrefix(st: Runner, events: seq<Exit>, i: nat)
    requires Inv(st) && 0 < i <= |events| && events[0].job in st.running
    ensures Run(st, events[..i]) == Run(Complete(st, events[0].job, events[0].code), events[1..][..i - 1])
  {
    assert events[..i][0] == events[0];
    assert events[..i][1..] == events[1..][..i - 1];
  }

  /** `Run` accepts a schedule exactly when every exit in it names a job that
      is running at that moment. */
  lemma {:induction false} RunAccepts(st: Runner, events: seq<Exit>)
    requires Inv(st)
    ensures Run(st, events).Some? <==> Feasible(st, events)
    decreases |events|
  {
    if |events| > 0 {
      assert events[..0] == [];
      var e := events[0];
      if e.job in st.running {
        var st1 := Complete(st, e.job, e.code);
        RunAccepts(st1, events[1..]);
        forall i | 1 <= i <= |events|
          ensures Run(st, events[..i]) == Run(st1, events[1..][..i - 1])
        {
          RunPrefix(st, events, i);
        }
        if Feasible(st, events) {
          forall i | 0 <= i < |events[1..]| && Run(st1, events[1..][..i]).Some?
            ensures events[1..][i].job in Run(st1, events[1..][..i]).value.running
          {
            assert events[1..][i] == events[i + 1];
          }
        }
        if Feasible(st1, events[1..]) {
          forall i | 1 <= i < |events| && Run(st, events[..i]).Some?
            ensures events[i].job in Run(st, events[..i]).value.running
          {
            assert events[i] == events[1..][i - 1];
          }
        }
      }
    }
  }

  /** Once no job is running the run is over: with at least one worker slot
      and a non-empty queue, every job has completed and the report has been
      printed exactly once, counting the whole queue. */
  lemma ReportedOnceWhenIdle(st: Runner)
    requires Inv(st) && st.maxWorkers >= 1 && |st.queue| > 0 && st.running == {}
    ensures st.runCount == |st.queue|
    ensures |st.successful| + |st.failed| == |st.queue|
    ensures st.reports == [Report(|st.queue|, st.successful, st.failed)]
  {
    assert st.processCount == 0;
  }

  /** Starting, then any sequence of exit events of running jobs: the
      schedule is accepted exactly when each exit names a running job, the
      concurrency bound and the count identity hold, and with a worker slot
      and a non-empty queue, a run that leaves no job running has completed
      every job and printed the report once.  With no worker slot or an
      empty queue nothing is started, so no exit can be accepted. */
  lemma AnyCompletionOrder(queue: seq<Job>, maxWorkers: nat, events: seq<Exit>)
    ensures Run(Start(queue, maxWorkers), events).Some? <==> Feasible(Start(queue, maxWorkers), events)
    ensures Run(Start(queue, maxWorkers), events).Some? ==>
            var st := Run(Start(queue, maxWorkers), events).value;
            && st.processCount <= maxWorkers
            && st.runCount == st.processCount + |st.successful| + |st.failed|
            && |st.successful| + |st.failed| == |events|
            && (maxWorkers >= 1 && |queue| > 0 && st.running == {} ==>
                  |events| == |queue| && st.reports == [Report(|queue|, st.successful, st.failed)])
    ensures maxWorkers == 0 || |queue| == 0 ==> (Run(Start(queue, maxWorkers), events).Some? <==> |events| == 0)
  {
    var st0 := Start(queue, maxWorkers);
    RunAccepts(st0, events);
    var r := Run(st0, events);
    if r.Some? && r.value.running == {} && maxWorkers >= 1 && |queue| > 0 {
      ReportedOnceWhenIdle(r.value);
    }
  }

  // ---- Running to the end ---------------------------------------------------

  /** Titles of the first `n` jobs whose exit code is zero (`passed`) or
      non-zero (not `passed`), in queue order. */
  function Outcomes(queue: seq<Job>, codes: seq<int>, n: nat, passed: bool): seq<string>
    requires n <= |queue| && |codes| == |queue|
  {
    if n == 0 then []
    else Outcomes(queue, codes, n - 1, passed) + (if (codes[n - 1] == 0) == passed then [queue[n - 1].title] else [])
  }

  /** Runs the queue to the end when the job at index `i` exits with
      `codes[i]` and jobs exit in the order they were started.  With at least
      one worker slot every job runs once, the titles land in the list its
      exit code selects, and the report is printed exactly once; with none,
      nothing runs and nothing is reported. */
  method RunToEnd(queue: seq<Job>, maxWorkers: nat, codes: seq<int>) returns (st: Runner)
    requires |codes| == |queue|
    ensures Inv(st) && st.queue == queue && st.running == {}
    ensures maxWorkers >= 1 ==> st.runCount == |queue|
    ensures maxWorkers >= 1 ==> st.successful == Outcomes(queue, codes, |queue|, true)
    ensures maxWorkers >= 1 ==> st.failed == Outcomes(queue, codes, |queue|, false)
    ensures maxWorkers == 0 ==> st.runCount == 0 && st.successful == [] && st.failed == []
    ensures |st.reports| == (if maxWorkers >= 1 && |queue| > 0 then 1 else 0)
    ensures maxWorkers >= 1 && |queue| > 0 ==> st.reports == [Report(|queue|, st.successful, st.failed)]
  {
    st := Start(queue, maxWorkers);
    var k: nat := 0;
    InOrderStart(queue, maxWorkers, codes);
    while k < st.runCount
      invariant InOrder(st, queue, maxWorkers, codes, k)
      decreases |queue| - k
    {
      InOrderStep(st, queue, maxWorkers, codes, k);
      st := Complete(st, k, codes[k]);
      k := k + 1;
    }
    InOrderEnd(st, queue, maxWorkers, codes, k);
  }

  /** The state after the first `k` jobs, in queue order, have exited. */
  ghost predicate InOrder(st: Runner, queue: seq<Job>, maxWorkers: nat, codes: seq<int>, k: nat) {
    && Inv(st) && st.queue == queue && st.maxWorkers == maxWorkers && |codes| == |queue|
    && k <= st.runCount
    && (maxWorkers == 0 ==> st.runCount == 0)
    && st.finished == Below(k)
    && st.running == Between(k, st.runCount)
    && st.successful == Outcomes(queue, codes, k, true)
    && st.failed == Outcomes(queue, codes, k, false)
  }

  lemma InOrderStep(st: Runner, queue: seq<Job>, maxWorkers: nat, codes: seq<int>, k: nat)
    requires InOrder(st, queue, maxWorkers, codes, k) && k < st.runCount
    ensures k in st.running && k < |codes|
    ensures InOrder(Complete(st, k, codes[k]), queue, maxWorkers, codes, k + 1)
  {
    var r := Complete(st, k, codes[k]);
    BelowStep(k);
    BetweenStep(k, st.runCount);
    assert Outcomes(queue, codes, k + 1, true) == Outcomes(queue, codes, k, true) + (if codes[k] == 0 then [queue[k].title] else []);
    assert Outcomes(queue, codes, k + 1, false) == Outcomes(queue, codes, k, false) + (if codes[k] != 0 then [queue[k].title] else []);
  }

  lemma InOrderStart(queue: seq<Job>, maxWorkers: nat, codes: seq<int>)
    requires |codes| == |queue|
    ensures InOrder(Start(queue, maxWorkers), queue, maxWorkers, codes, 0)
  {
    var st := Start(queue, maxWorkers);
    assert Between(0, st.runCount) == Below(st.runCount);
  }

  lemma InOrderEnd(st: Runner, queue: seq<Job>, maxWorkers: nat, codes: seq<int>, k: nat)
    requires InOrder(st, queue, maxWorkers, codes, k) && k == st.runCount
    ensures Inv(st) && st.queue == queue && st.running == {}
    ensures maxWorkers >= 1 ==> st.runCount == |queue|
    ensures maxWorkers >= 1 ==> st.successful == Outcomes(queue, codes, |queue|, true)
    ensures maxWorkers >= 1 ==> st.failed == Outcomes(queue, codes, |queue|, false)
    ensures maxWorkers == 0 ==> st.runCount == 0 && st.successful == [] && st.failed == []
    ensures |st.reports| == (if maxWorkers >= 1 && |queue| > 0 then 1 else 0)
    ensures maxWorkers >= 1 && |queue| > 0 ==> st.reports == [Report(|queue|, st.successful, st.failed)]
  {
    assert st.running == {};
    if maxWorkers >= 1 && |queue| > 0 {
      ReportedOnceWhenIdle(st);
    }
  }

  lemma BelowStep(k: nat)
    ensures Below(k) + {k} == Below(k + 1)
  {
  }

  lemma BetweenStep(k: nat, n: nat)
    requires k < n
    ensures Between(k, n) - {k} + {n} == Between(k + 1, n + 1)
    ensures Between(k, n) - {k} == Between(k + 1, n)
  {
  }

  /** The command `runNext` spawns for a job: a `command=` option replaces
      every job's own command; without it the job's command is used. */
  function LaunchCommand(argv: seq<string>, job: Job): (r: string)
    ensures (forall k :: 2 <= k < |argv| ==> !Strings.StartsWith(argv[k], "command=")) ==> r == job.command
    ensures (exists k :: 2 <= k < |argv| && Strings.StartsWith(argv[k], "command="))
            ==> exists k :: 2 <= k < |argv| && argv[k] == "command=" + r
                             && forall m :: 2 <= m < k ==> !Strings.StartsWith(argv[m], "command=")
    ensures Cli.GetCliArg(argv, "command").Some? ==> r == Cli.GetCliArg(argv, "command").value
  {
    match Cli.GetCliArg(argv, "command")
    case Some(c) => c
    case None => job.command
  }

  /** The command override is global: with it every job launches the same
      command, without it each job launches its own. */
  lemma LaunchCommandOverride(argv: seq<string>, a: Job, b: Job)
    ensures (exists k :: 2 <= k < |argv| && Strings.StartsWith(argv[k], "command="))
            ==> LaunchCommand(argv, a) == LaunchCommand(argv, b)
    ensures (forall k :: 2 <= k < |argv| ==> !Strings.StartsWith(argv[k], "command="))
            ==> LaunchCommand(argv, a) == a.command
  {
  }
}
