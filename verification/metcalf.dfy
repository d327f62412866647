/** Building the job queue (class `Metcalf`): configuration checks, the task
    inclusion rule and the concatenation of every included task's jobs.

  The configuration is the already-parsed `Metcalf.json`.  Its `tasks`
  object is given as the sequence of its entries in the order
  `Object.entries` yields them.
 */
module Metcalf {
  import opened Results
  import Cli
  import opened Tasks

  /** One `taskId: {...}` entry of the configuration's `tasks` object. */
  datatype TaskEntry = TaskEntry(id: string, def: TaskDef)

  /** The parsed configuration.  A missing `command` and an empty one are
      both falsy and are written `None` and `Some("")`; a missing `sets`
      object is the empty map. */
  datatype Config = Config(command: Option<string>, sets: map<string, seq<string>>, tasks: Option<seq<TaskEntry>>)

  /** A configuration that passed `validateConfig`. */
  datatype Settings = Settings(command: string, sets: map<string, seq<string>>, tasks: seq<TaskEntry>)

  const NoTasks := "No tasks defined in Metcalf.json."
  const NoCommand := "No command defined in Metcalf.json."

  /** `validateConfig()`: tasks must be present, then a non-empty command. */
  function ValidateConfig(config: Config): (r: Result<Settings>)
    ensures r.Ok? <==> config.tasks.Some? && config.command.Some? && config.command.value != ""
    ensures r.Ok? ==> r.value == Settings(config.command.value, config.sets, config.tasks.value)
    ensures config.tasks.None? ==> r == Err(Cli.ErrorText(NoTasks, false, true))
    ensures config.tasks.Some? && r.Err? ==> r == Err(Cli.ErrorText(NoCommand, false, true))
  {
    if config.tasks.None? then Err(Cli.ErrorText(NoTasks, false, true))
    else if config.command.None? || config.command.value == "" then Err(Cli.ErrorText(NoCommand, false, true))
    else Ok(Settings(config.command.value, config.sets, config.tasks.value))
  }

  /** `shouldTaskBeIncluded(task, taskId)`, given the `tasks=a,b` selection. */
  function ShouldTaskBeIncluded(task: TaskDef, taskId: string, cliTasks: Option<seq<string>>): bool
  {
    match cliTasks
    case None => !task.manualOnly
    case Some(ids) => taskId in ids
  }

  /** The inclusion rule in terms of the command line: a missing or empty
      `tasks=` option leaves every task that is not manual-only; a non-empty
      one selects by id alone, so it can run a manual-only task and never
      selects an id that contains a comma. */
  lemma InclusionFromArgv(argv: seq<string>, task: TaskDef, taskId: string)
    ensures var opt := Cli.GetCliArg(argv, "tasks");
            var cliTasks := Cli.GetCliArgSplitBy(argv, "tasks", ',');
            && (opt.None? || opt.value == "" ==> (ShouldTaskBeIncluded(task, taskId, cliTasks) <==> !task.manualOnly))
            && (opt.Some? && opt.value != "" ==>
                  ShouldTaskBeIncluded(task, taskId, cliTasks)
                  == ShouldTaskBeIncluded(task.(manualOnly := !task.manualOnly), taskId, cliTasks))
            && (opt.Some? && opt.value != "" && ',' in taskId ==> !ShouldTaskBeIncluded(task, taskId, cliTasks))
  {
  }

  /** The jobs of one task expanded against the validated configuration. */
  function Expand(settings: Settings, argv: seq<string>, e: TaskEntry): Result<seq<Job>>
  {
    ExpandTask(e.id, e.def, settings.sets, settings.command, argv)
  }

  /** The error entry `e` stops the build with: its expansion's error when
      it is included and fails to expand. */
  function Failure(settings: Settings, argv: seq<string>, cliTasks: Option<seq<string>>, e: TaskEntry): Option<string>
  {
    var ex := Expand(settings, argv, e);
    if ShouldTaskBeIncluded(e.def, e.id, cliTasks) && ex.Err? then Some(ex.msg) else None
  }

  /** The error of every entry, in order. */
  function Failures(settings: Settings, argv: seq<string>, cliTasks: Option<seq<string>>, entries: seq<TaskEntry>): (r: seq<Option<string>>)
    ensures |r| == |entries|
    ensures forall k :: 0 <= k < |r| ==> r[k] == Failure(settings, argv, cliTasks, entries[k])
  {
    seq(|entries|, k requires 0 <= k < |entries| => Failure(settings, argv, cliTasks, entries[k]))
  }

  lemma FailuresTail(settings: Settings, argv: seq<string>, cliTasks: Option<seq<string>>, entries: seq<TaskEntry>)
    requires |entries| > 0
    ensures Failures(settings, argv, cliTasks, entries)[1..] == Failures(settings, argv, cliTasks, entries[1..])
  {
    var outs := Failures(settings, argv, cliTasks, entries);
    var rest := Failures(settings, argv, cliTasks, entries[1..]);
    forall k | 0 <= k < |rest|
      ensures outs[1..][k] == rest[k]
    {
      assert entries[1..][k] == entries[k + 1];
    }
  }

  /** `outs[i]` is the first error of `outs`, and it is `msg`. */
  ghost predicate FirstError(outs: seq<Option<string>>, i: int, msg: string) {
    0 <= i < |outs| && outs[i] == Some(msg) && forall j :: 0 <= j < i ==> outs[j].None?
  }

  /** Without an error at the front, the first error of the rest is the first error. */
  lemma FirstErrorLater(outs: seq<Option<string>>, msg: string)
    requires |outs| > 0 && outs[0].None?
    requires exists i :: FirstError(outs[1..], i, msg)
    ensures exists i :: FirstError(outs, i, msg)
  {
    var i :| FirstError(outs[1..], i, msg);
    assert outs[i + 1] == outs[1..][i];
    assert forall j :: 1 <= j < i + 1 ==> outs[j] == outs[1..][j - 1];
    assert FirstError(outs, i + 1, msg);
  }

  /** A property holds of every entry exactly when it holds of the first
      and of every later one. */
  lemma AllCons<T>(p: T -> bool, xs: seq<T>)
    requires |xs| > 0
    ensures (forall i :: 0 <= i < |xs| ==> p(xs[i])) <==> p(xs[0]) && forall i :: 0 <= i < |xs[1..]| ==> p(xs[1..][i])
  {
    assert forall i :: 1 <= i < |xs| ==> xs[i] == xs[1..][i - 1];
  }

  /** The queue built from `entries`, in order, skipping excluded tasks; the
      first task whose expansion fails decides the error. */
  function BuildFrom(settings: Settings, argv: seq<string>, cliTasks: Option<seq<string>>,
                     entries: seq<TaskEntry>): (r: Result<seq<Job>>)
    ensures r.Ok? <==> forall i :: 0 <= i < |entries| && ShouldTaskBeIncluded(entries[i].def, entries[i].id, cliTasks)
                                   ==> Expand(settings, argv, entries[i]).Ok?
    ensures r.Err? ==> exists i :: FirstError(Failures(settings, argv, cliTasks, entries), i, r.msg)
    decreases |entries|
  {
    if |entries| == 0 then Ok([])
    else
      var e := entries[0];
      AllCons((e: TaskEntry) => ShouldTaskBeIncluded(e.def, e.id, cliTasks) ==> Expand(settings, argv, e).Ok?, entries);
      var rest := BuildFrom(settings, argv, cliTasks, entries[1..]);
      var outs := Failures(settings, argv, cliTasks, entries);
      FailuresTail(settings, argv, cliTasks, entries);
      if ShouldTaskBeIncluded(e.def, e.id, cliTasks) then
        var jobs := Expand(settings, argv, e);
        if jobs.Err? then
          assert FirstError(outs, 0, jobs.msg);
          Err(jobs.msg)
        else if rest.Err? then
          FirstErrorLater(outs, rest.msg);
          Err(rest.msg)
        else Ok(jobs.value + rest.value)
      else if rest.Err? then
        FirstErrorLater(outs, rest.msg);
        rest
      else
        rest
  }

  /** Some included entry has id `taskId`. */
  ghost predicate IncludedId(entries: seq<TaskEntry>, cliTasks: Option<seq<string>>, taskId: string) {
    exists i :: 0 <= i < |entries| && entries[i].id == taskId && ShouldTaskBeIncluded(entries[i].def, entries[i].id, cliTasks)
  }

  /** Every queued job belongs to an included task. */
  lemma {:induction false} QueueTaskIds(settings: Settings, argv: seq<string>, cliTasks: Option<seq<string>>,
                                        entries: seq<TaskEntry>)
    requires BuildFrom(settings, argv, cliTasks, entries).Ok?
    ensures var q := BuildFrom(settings, argv, cliTasks, entries).value;
            forall k :: 0 <= k < |q| ==> IncludedId(entries, cliTasks, q[k].task)
    decreases |entries|
  {
    if |entries| > 0 {
      var e := entries[0];
      var q := BuildFrom(settings, argv, cliTasks, entries).value;
      var rest := BuildFrom(settings, argv, cliTasks, entries[1..]);
      QueueTaskIds(settings, argv, cliTasks, entries[1..]);
      var jobs := if ShouldTaskBeIncluded(e.def, e.id, cliTasks) then Expand(settings, argv, e).value else [];
      assert q == jobs + rest.value;
      forall k | 0 <= k < |q|
        ensures IncludedId(entries, cliTasks, q[k].task)
      {
        if k < |jobs| {
          assert ShouldTaskBeIncluded(e.def, e.id, cliTasks);
          assert q[k] == jobs[k];
          assert jobs[k].task == e.id;
          assert entries[0].id == q[k].task;
        } else {
          assert q[k] == rest.value[k - |jobs|];
          assert IncludedId(entries[1..], cliTasks, q[k].task);
          var i :| 0 <= i < |entries[1..]| && entries[1..][i].id == q[k].task
                   && ShouldTaskBeIncluded(entries[1..][i].def, entries[1..][i].id, cliTasks);
          assert entries[i + 1] == entries[1..][i];
        }
      }
    }
  }

  /** `buildQueue()`: the tasks selected by the `tasks=` option (or, without
      it, every task that is not manual-only), expanded and concatenated. */
  function BuildQueue(settings: Settings, argv: seq<string>): Result<seq<Job>>
  {
    BuildFrom(settings, argv, Cli.GetCliArgSplitBy(argv, "tasks", ','), settings.tasks)
  }

  /** `loadConfig`, `validateConfig` and `buildQueue` in sequence: the job
      queue, or the first configuration error. */
  function Prepare(config: Config, argv: seq<string>): (r: Result<seq<Job>>)
    ensures config.tasks.None? ==> r.Err?
    ensures r.Ok? ==> ValidateConfig(config).Ok?
    ensures ValidateConfig(config).Err? ==> r == Err(ValidateConfig(config).msg)
    ensures ValidateConfig(config).Ok? ==> r == BuildQueue(ValidateConfig(config).value, argv)
  {
    var settings :- ValidateConfig(config);
    BuildQueue(settings, argv)
  }

  // ---- Order and inclusion --------------------------------------------------

  /** Queue order is configuration order: the queue of two runs of entries
      is the first run's queue followed by the second's. */
  lemma {:induction false} BuildFromAppend(settings: Settings, argv: seq<string>, cliTasks: Option<seq<string>>,
                                           a: seq<TaskEntry>, b: seq<TaskEntry>)
    ensures var ra := BuildFrom(settings, argv, cliTasks, a);
            var rb := BuildFrom(settings, argv, cliTasks, b);
            var r := BuildFrom(settings, argv, cliTasks, a + b);
            && (r.Ok? <==> ra.Ok? && rb.Ok?)
            && (r.Ok? ==> r.value == ra.value + rb.value)
    decreases |a|
  {
    if |a| == 0 {
      assert a + b == b;
    } else {
      assert (a + b)[0] == a[0];
      assert (a + b)[1..] == a[1..] + b;
      BuildFromAppend(settings, argv, cliTasks, a[1..], b);
      var e := a[0];
      if ShouldTaskBeIncluded(e.def, e.id, cliTasks) {
        var ex := Expand(settings, argv, e);
        if ex.Ok? && BuildFrom(settings, argv, cliTasks, a[1..]).Ok? && BuildFrom(settings, argv, cliTasks, b).Ok? {
          var jobs := ex.value;
          assert jobs + (BuildFrom(settings, argv, cliTasks, a[1..]).value + BuildFrom(settings, argv, cliTasks, b).value)
              == (jobs + BuildFrom(settings, argv, cliTasks, a[1..]).value) + BuildFrom(settings, argv, cliTasks, b).value;
        }
      }
    }
  }

  /** `jobs` occurs in `q` as a contiguous block starting at `p`. */
  ghost predicate BlockAt(q: seq<Job>, jobs: seq<Job>, p: nat) {
    p + |jobs| <= |q| && q[p..p + |jobs|] == jobs
  }

  /** A single task contributes its expansion when included and nothing otherwise. */
  lemma BuildFromSingle(settings: Settings, argv: seq<string>, cliTasks: Option<seq<string>>, e: TaskEntry)
    ensures var r := BuildFrom(settings, argv, cliTasks, [e]);
            if ShouldTaskBeIncluded(e.def, e.id, cliTasks)
            then r == Expand(settings, argv, e)
            else r == Ok([])
  {
    assert [e][1..] == [];
    var ex := Expand(settings, argv, e);
    if ex.Ok? {
      assert ex.value + [] == ex.value;
    }
  }

  /** Without a `tasks=` selection, a manual-only task puts no job on the
      queue, and every other task puts all of its jobs there as one
      contiguous block (task ids are the keys of an object, so they are
      distinct). */
  lemma ManualOnlyRule(settings: Settings, argv: seq<string>, entries: seq<TaskEntry>, i: nat)
    requires i < |entries|
    requires forall a, b :: 0 <= a < b < |entries| ==> entries[a].id != entries[b].id
    requires BuildFrom(settings, argv, None, entries).Ok?
    ensures var q := BuildFrom(settings, argv, None, entries).value;
            && (entries[i].def.manualOnly ==> forall k :: 0 <= k < |q| ==> q[k].task != entries[i].id)
            && (!entries[i].def.manualOnly ==>
                  var jobs := Expand(settings, argv, entries[i]).value;
                  exists p: nat :: BlockAt(q, jobs, p))
  {
    var q := BuildFrom(settings, argv, None, entries).value;
    if entries[i].def.manualOnly {
      forall k | 0 <= k < |q|
        ensures q[k].task != entries[i].id
      {
        QueueTaskIds(settings, argv, None, entries);
        assert IncludedId(entries, None, q[k].task);
        var j :| 0 <= j < |entries| && entries[j].id == q[k].task && ShouldTaskBeIncluded(entries[j].def, entries[j].id, None);
        assert j != i;
      }
    } else {
      Contiguous(settings, argv, None, entries, i);
    }
  }

  /** With a `tasks=` selection, a task puts jobs on the queue only if it is
      named there, whether or not it is manual-only, and a named task puts all
      of its jobs there as one contiguous block. */
  lemma SelectionRule(settings: Settings, argv: seq<string>, ids: seq<string>, entries: seq<TaskEntry>, i: nat)
    requires i < |entries|
    requires forall a, b :: 0 <= a < b < |entries| ==> entries[a].id != entries[b].id
    requires BuildFrom(settings, argv, Some(ids), entries).Ok?
    ensures var q := BuildFrom(settings, argv, Some(ids), entries).value;
            && (entries[i].id !in ids ==> forall k :: 0 <= k < |q| ==> q[k].task != entries[i].id)
            && (entries[i].id in ids ==>
                  var jobs := Expand(settings, argv, entries[i]).value;
                  exists p: nat :: BlockAt(q, jobs, p))
  {
    var q := BuildFrom(settings, argv, Some(ids), entries).value;
    if entries[i].id !in ids {
      forall k | 0 <= k < |q|
        ensures q[k].task != entries[i].id
      {
        QueueTaskIds(settings, argv, Some(ids), entries);
        assert IncludedId(entries, Some(ids), q[k].task);
        var j :| 0 <= j < |entries| && entries[j].id == q[k].task && ShouldTaskBeIncluded(entries[j].def, entries[j].id, Some(ids));
      }
    } else {
      Contiguous(settings, argv, Some(ids), entries, i);
    }
  }

  lemma Contiguous(settings: Settings, argv: seq<string>, cliTasks: Option<seq<string>>, entries: seq<TaskEntry>, i: nat)
    requires i < |entries|
    requires ShouldTaskBeIncluded(entries[i].def, entries[i].id, cliTasks)
    requires BuildFrom(settings, argv, cliTasks, entries).Ok?
    ensures Expand(settings, argv, entries[i]).Ok?
    ensures var q := BuildFrom(settings, argv, cliTasks, entries).value;
            var jobs := Expand(settings, argv, entries[i]).value;
            exists p: nat :: BlockAt(q, jobs, p)
  {
    var before := entries[..i];
    var after := entries[i + 1..];
    assert entries == before + ([entries[i]] + after);
    BuildFromAppend(settings, argv, cliTasks, before, [entries[i]] + after);
    BuildFromAppend(settings, argv, cliTasks, [entries[i]], after);
    BuildFromSingle(settings, argv, cliTasks, entries[i]);
    var qa := BuildFrom(settings, argv, cliTasks, before).value;
    var jobs := Expand(settings, argv, entries[i]).value;
    var qc := BuildFrom(settings, argv, cliTasks, after).value;
    var q := BuildFrom(settings, argv, cliTasks, entries).value;
    assert q == qa + (jobs + qc);
    BlockInMiddle(qa, jobs, qc);
  }

  /** The middle part of a three-part concatenation is a block of it. */
  lemma BlockInMiddle(qa: seq<Job>, jobs: seq<Job>, qc: seq<Job>)
    ensures BlockAt(qa + (jobs + qc), jobs, |qa|)
  {
    assert (qa + (jobs + qc))[|qa|..|qa| + |jobs|] == jobs;
  }
}
