/** Expansion of one task definition into jobs (class `Task`).

  A task names, in its `run` list, the value sets it is run over.  Each name
  is resolved against the task's own `sets`, then the configuration's global
  `sets`, and may be narrowed by a `sets.<name>=a,b` command-line filter.
  The cartesian product of the resolved sets gives the combinations; each
  combination yields one job whose title, arguments and directories have
  every `@name@` token replaced by the combination's value for `name`.

  Configured set values are kept as their string form: `getSetValues` compares
  filter literals against `'' + v` and substitution stringifies the value,
  so the jobs it builds only ever see that form.
 */
module Tasks {
  import opened Results
  import opened Strings
  import Cli
  import Product

  /** One task of the configuration's `tasks` object.  A missing `sets`
      property is the empty map and a missing `manualOnly` is `false`. */
  datatype TaskDef = TaskDef(
    run: seq<string>,
    sets: map<string, seq<string>>,
    command: Option<string>,
    title: string,
    commandArgs: seq<string>,
    createDirs: Option<seq<string>>,
    manualOnly: bool)

  /** One coordinate of a combination: set `key` takes `value`. */
  datatype KeyValue = KeyValue(key: string, value: string)

  /** One element of the cartesian product, one entry per name in `run`. */
  type Combination = seq<KeyValue>

  /** A fully materialised job, as pushed onto the queue. */
  datatype Job = Job(task: string, command: string, title: string, createDirs: seq<string>, args: seq<string>)

  // ---- Set resolution (getSetValues) ----------------------------------------

  /** The error for a set defined neither by the task nor globally. */
  function NotFound(setName: string, taskId: string): (r: string)
    ensures StartsWith(r, "Set \"" + setName + "\" not found for task ID \"" + taskId)
    ensures EndsWith(r, "\"." + Cli.ConfigHint + Cli.NothingDone)
    ensures |r| == |"Set \"" + setName + "\" not found for task ID \"" + taskId| + |"\"." + Cli.ConfigHint + Cli.NothingDone|
  {
    var head := "Set \"" + setName + "\" not found for task ID \"";
    var tail := "\".";
    Cli.ConfigErrorFrame(head, taskId, tail);
    Cli.ErrorText(head + taskId + tail, false, true)
  }

  /** "Value" or "Values", by the number of unconfigured literals. */
  function ValueWord(invalid: seq<string>): string {
    if |invalid| > 1 then "Values" else "Value"
  }

  /** The error for filter literals the set does not configure: the literals
      are listed comma-separated, with singular or plural grammar. */
  function NotConfigured(invalid: seq<string>, setName: string, taskId: string): (r: string)
    ensures StartsWith(r, ValueWord(invalid) + " \"" + Join(invalid, ", ") + "\" for set \""
                          + setName + "\" for task ID \"" + taskId)
    ensures EndsWith(r, (if |invalid| > 1 then "\" are" else "\" is") + " not configured in Metcalf.json." + Cli.ConfigHint + Cli.NothingDone)
    ensures |r| == |ValueWord(invalid) + " \"" + Join(invalid, ", ") + "\" for set \"" + setName + "\" for task ID \"" + taskId|
                   + |(if |invalid| > 1 then "\" are" else "\" is") + " not configured in Metcalf.json." + Cli.ConfigHint + Cli.NothingDone|
  {
    var head := ValueWord(invalid) + " \"" + Join(invalid, ", ") + "\" for set \"" + setName + "\" for task ID \"";
    var tail := (if |invalid| > 1 then "\" are" else "\" is") + " not configured in Metcalf.json.";
    Cli.ConfigErrorFrame(head, taskId, tail);
    Cli.ErrorText(head + taskId + tail, false, true)
  }

  /** `xs.filter(x => allowed.includes(x) == present)` */
  function Keep(xs: seq<string>, allowed: seq<string>, present: bool): (r: seq<string>)
    ensures forall x :: x in r <==> x in xs && (x in allowed) == present
    ensures |r| <= |xs|
  {
    if |xs| == 0 then []
    else (if (xs[0] in allowed) == present then [xs[0]] else []) + Keep(xs[1..], allowed, present)
  }

  /** Filtering keeps order and repetitions: the filter of a concatenation
      is the concatenation of the filters. */
  lemma {:induction false} KeepConcat(a: seq<string>, b: seq<string>, allowed: seq<string>, present: bool)
    ensures Keep(a + b, allowed, present) == Keep(a, allowed, present) + Keep(b, allowed, present)
    decreases |a|
  {
    if |a| == 0 {
      assert a + b == b;
    } else {
      assert (a + b)[0] == a[0];
      assert (a + b)[1..] == a[1..] + b;
      KeepConcat(a[1..], b, allowed, present);
    }
  }

  /** One element is kept exactly when its presence in `allowed` is as asked. */
  lemma KeepSingle(x: string, allowed: seq<string>, present: bool)
    ensures Keep([x], allowed, present) == if (x in allowed) == present then [x] else []
  {
    assert [x][1..] == [];
  }

  lemma {:induction false} KeepEverything(xs: seq<string>, allowed: seq<string>, present: bool)
    requires forall x :: x in xs ==> (x in allowed) == present
    ensures Keep(xs, allowed, present) == xs
    decreases |xs|
  {
    if |xs| > 0 {
      var rest := xs[1..];
      assert xs[0] in xs;
      forall x | x in rest
        ensures (x in allowed) == present
      {
        assert x in xs;
      }
      KeepEverything(rest, allowed, present);
      assert Keep(xs, allowed, present) == [xs[0]] + Keep(rest, allowed, present);
      assert xs == [xs[0]] + rest;
    }
  }

  /** The values configured for a set: the task's own definition wins over
      the global one. */
  function Candidates(setName: string, taskSets: map<string, seq<string>>, globalSets: map<string, seq<string>>): (r: Option<seq<string>>)
    ensures r.None? <==> setName !in taskSets && setName !in globalSets
    ensures setName in taskSets ==> r == Some(taskSets[setName])
    ensures setName !in taskSets && setName in globalSets ==> r == Some(globalSets[setName])
  {
    if setName in taskSets then Some(taskSets[setName])
    else if setName in globalSets then Some(globalSets[setName])
    else None
  }

  /** Resolves one set name of a task to its ordered values, given the
      command-line filter for that set (if any). */
  function ResolveSet(setName: string, taskId: string, taskSets: map<string, seq<string>>,
                      globalSets: map<string, seq<string>>, filter: Option<seq<string>>): (r: Result<seq<string>>)
    ensures setName !in taskSets && setName !in globalSets ==> r == Err(NotFound(setName, taskId))
    ensures r.Ok? <==> Candidates(setName, taskSets, globalSets).Some?
                       && (filter.Some? ==> forall x :: x in filter.value ==> x in Candidates(setName, taskSets, globalSets).value)
    ensures r.Ok? && filter.None? ==> r.value == Candidates(setName, taskSets, globalSets).value
    ensures r.Ok? && filter.Some? ==> r.value == filter.value
  {
    match Candidates(setName, taskSets, globalSets)
    case None => Err(NotFound(setName, taskId))
    case Some(values) =>
      match filter
      case None => Ok(values)
      case Some(wanted) =>
        var invalid := Keep(wanted, values, false);
        if |invalid| > 0 then
          assert invalid[0] in invalid;
          Err(NotConfigured(invalid, setName, taskId))
        else
          assert forall x :: x in wanted ==> x in values;
          KeepEverything(wanted, values, true);
          Ok(Keep(wanted, values, true))
  }

  /** A filter literal the set does not configure makes resolution fail with
      an error listing exactly the unconfigured literals, in filter order. */
  lemma ResolveSetRejects(setName: string, taskId: string, taskSets: map<string, seq<string>>,
                          globalSets: map<string, seq<string>>, wanted: seq<string>)
    requires Candidates(setName, taskSets, globalSets).Some?
    requires exists x :: x in wanted && x !in Candidates(setName, taskSets, globalSets).value
    ensures var values := Candidates(setName, taskSets, globalSets).value;
            var r := ResolveSet(setName, taskId, taskSets, globalSets, Some(wanted));
            && r.Err?
            && r.msg == NotConfigured(Keep(wanted, values, false), setName, taskId)
            && (forall x :: x in Keep(wanted, values, false) <==> x in wanted && x !in values)
  {
    var values := Candidates(setName, taskSets, globalSets).value;
    var x :| x in wanted && x !in values;
    assert x in Keep(wanted, values, false);
  }

  /** The command-line filter `sets.<name>=a,b,...` for a set. */
  function SetFilter(argv: seq<string>, setName: string): Option<seq<string>>
  {
    Cli.GetCliArgSplitBy(argv, "sets." + setName, ',')
  }

  /** Every value of a set paired with the set's name. */
  function Tag(setName: string, values: seq<string>): (r: seq<KeyValue>)
    ensures |r| == |values|
    ensures forall i :: 0 <= i < |r| ==> r[i].key == setName && r[i].value == values[i]
  {
    seq(|values|, i requires 0 <= i < |values| => KeyValue(setName, values[i]))
  }

  /** `getSetValues(set)`: the set's resolved values as key/value pairs. */
  function GetSetValues(taskId: string, task: TaskDef, globalSets: map<string, seq<string>>,
                        argv: seq<string>, setName: string): Result<seq<KeyValue>>
  {
    var values :- ResolveSet(setName, taskId, task.sets, globalSets, SetFilter(argv, setName));
    Ok(Tag(setName, values))
  }

  /** The axes of the product, one per name of `names`, resolved in order;
      the first name that fails to resolve decides the error. */
  function ResolveAll(taskId: string, task: TaskDef, globalSets: map<string, seq<string>>,
                      argv: seq<string>, names: seq<string>): (r: Result<seq<seq<KeyValue>>>)
    ensures r.Ok? <==> forall i :: 0 <= i < |names| ==> GetSetValues(taskId, task, globalSets, argv, names[i]).Ok?
    ensures r.Ok? ==> |r.value| == |names|
                      && forall i :: 0 <= i < |names| ==> r.value[i] == GetSetValues(taskId, task, globalSets, argv, names[i]).value
    ensures r.Err? ==> exists i :: 0 <= i < |names| && GetSetValues(taskId, task, globalSets, argv, names[i]) == Err(r.msg)
                                   && forall j :: 0 <= j < i ==> GetSetValues(taskId, task, globalSets, argv, names[j]).Ok?
    decreases |names|
  {
    if |names| == 0 then Ok([])
    else
      var head := GetSetValues(taskId, task, globalSets, argv, names[0]);
      if head.Err? then Err(head.msg)
      else
        var tail := ResolveAll(taskId, task, globalSets, argv, names[1..]);
        if tail.Err? then
          ResolveAllLater(n => GetSetValues(taskId, task, globalSets, argv, n), names, tail.msg);
          Err(tail.msg)
        else
          ResolveAllCons(taskId, task, globalSets, argv, names, tail.value);
          Ok([head.value] + tail.value)
  }

  /** The first name's values followed by those of the later names are the values of all names. */
  lemma ResolveAllCons(taskId: string, task: TaskDef, globalSets: map<string, seq<string>>,
                       argv: seq<string>, names: seq<string>, tail: seq<seq<KeyValue>>)
    requires |names| > 0 && GetSetValues(taskId, task, globalSets, argv, names[0]).Ok?
    requires |tail| == |names| - 1
    requires forall i :: 0 <= i < |tail| ==> GetSetValues(taskId, task, globalSets, argv, names[1..][i]).Ok?
                                             && tail[i] == GetSetValues(taskId, task, globalSets, argv, names[1..][i]).value
    ensures var all := [GetSetValues(taskId, task, globalSets, argv, names[0]).value] + tail;
            forall i :: 0 <= i < |names| ==> GetSetValues(taskId, task, globalSets, argv, names[i]).Ok?
                                             && all[i] == GetSetValues(taskId, task, globalSets, argv, names[i]).value
  {
    forall i | 1 <= i < |names|
      ensures names[i] == names[1..][i - 1]
    {
    }
  }

  /** An error of the later names, all earlier ones resolving, is an error of the whole list. */
  lemma ResolveAllLater<T>(resolve: string -> Result<T>, names: seq<string>, msg: string)
    requires |names| > 0 && resolve(names[0]).Ok?
    requires exists i :: 0 <= i < |names[1..]| && resolve(names[1..][i]) == Err(msg)
                         && forall j :: 0 <= j < i ==> resolve(names[1..][j]).Ok?
    ensures exists i :: 0 <= i < |names| && resolve(names[i]) == Err(msg)
                        && forall j :: 0 <= j < i ==> resolve(names[j]).Ok?
  {
    var i :| 0 <= i < |names[1..]| && resolve(names[1..][i]) == Err(msg)
             && forall j :: 0 <= j < i ==> resolve(names[1..][j]).Ok?;
    assert forall j :: 1 <= j < |names| ==> names[j] == names[1..][j - 1];
    assert 0 <= i + 1 < |names| && resolve(names[i + 1]) == Err(msg);
  }

  /** `getSetCombinations()`: the cartesian product of the task's resolved sets. */
  function SetCombinations(taskId: string, task: TaskDef, globalSets: map<string, seq<string>>,
                           argv: seq<string>): Result<seq<Combination>>
  {
    var axes :- ResolveAll(taskId, task, globalSets, argv, task.run);
    Ok(Product.Cartesian(axes))
  }

  /** Every combination has one entry per name of `run`, in order, whose
      value is one of that set's resolved values; the combinations number
      the product of the resolved set sizes and come in lexicographic order. */
  lemma CombinationsShape(taskId: string, task: TaskDef, globalSets: map<string, seq<string>>, argv: seq<string>)
    requires SetCombinations(taskId, task, globalSets, argv).Ok?
    ensures var axes := ResolveAll(taskId, task, globalSets, argv, task.run).value;
            var combos := SetCombinations(taskId, task, globalSets, argv).value;
            && combos == Product.Lex(axes)
            && |combos| == Product.Count(axes)
            && forall k, i :: 0 <= k < |combos| && 0 <= i < |task.run| ==>
                 |combos[k]| == |task.run| && combos[k][i].key == task.run[i] && combos[k][i] in axes[i]
  {
    var axes := ResolveAll(taskId, task, globalSets, argv, task.run).value;
    var combos: seq<Combination> := Product.Cartesian(axes);
    Product.CartesianIsLex(axes);
    Product.CartesianCount(axes);
    forall k, i | 0 <= k < |combos| && 0 <= i < |task.run|
      ensures |combos[k]| == |task.run| && combos[k][i].key == task.run[i] && combos[k][i] in axes[i]
    {
      Product.CartesianMembers(axes, combos[k]);
      var kv := combos[k][i];
      var k' :| 0 <= k' < |axes[i]| && axes[i][k'] == kv;
    }
  }

  // ---- Substitution (replaceSetValues) --------------------------------------

  /** The token `@name@` that stands for set `name` in a template. */
  function Token(key: string): (r: string)
    ensures |r| == |key| + 2 && r[0] == '@' && r[|r| - 1] == '@'
    ensures r[1..|r| - 1] == key
  {
    "@" + key + "@"
  }

  /** `replaceSetValues(value, combination)`: `replaceAll` of each key's token
      by its value, one key after the other in combination order. */
  function ReplaceSetValues(template: string, combo: Combination): string
    decreases |combo|
  {
    if |combo| == 0 then template
    else ReplaceSetValues(ReplaceAll(template, Token(combo[0].key), combo[0].value), combo[1..])
  }

  /** Substituting a combination is substituting its first part, then the rest. */
  lemma {:induction false} ReplaceSetValuesSequential(template: string, first: Combination, second: Combination)
    ensures ReplaceSetValues(template, first + second) == ReplaceSetValues(ReplaceSetValues(template, first), second)
    decreases |first|
  {
    if |first| == 0 {
      assert first + second == second;
    } else {
      assert (first + second)[0] == first[0];
      assert (first + second)[1..] == first[1..] + second;
      ReplaceSetValuesSequential(ReplaceAll(template, Token(first[0].key), first[0].value), first[1..], second);
    }
  }

  /** `setCombination.reduce(...)` as written: a left fold whose last step
      substitutes the combination's last key. */
  function ReduceReplace(template: string, combo: Combination): string
    decreases |combo|
  {
    if |combo| == 0 then template
    else
      var last := combo[|combo| - 1];
      ReplaceAll(ReduceReplace(template, combo[..|combo| - 1]), Token(last.key), last.value)
  }

  /** The key-after-key substitution is the `reduce` of `replaceSetValues`. */
  lemma {:induction false} ReplaceSetValuesIsReduce(template: string, combo: Combination)
    ensures ReplaceSetValues(template, combo) == ReduceReplace(template, combo)
    decreases |combo|
  {
    if |combo| > 0 {
      var init, last := combo[..|combo| - 1], combo[|combo| - 1];
      assert combo == init + [last];
      ReplaceSetValuesSequential(template, init, [last]);
      ReplaceSetValuesIsReduce(template, init);
      assert [last][1..] == [];
    }
  }

  /** For one key, the template is cut at the leftmost non-overlapping
      occurrences of its token and glued back with the value in between:
      every occurrence found is replaced and no other text changes. */
  lemma ReplaceOneKey(template: string, kv: KeyValue)
    requires '$' !in kv.value
    ensures ReplaceSetValues(template, [kv]) == Join(Pieces(template, Token(kv.key)), kv.value)
    ensures Join(Pieces(template, Token(kv.key)), Token(kv.key)) == template
    ensures Leftmost(Pieces(template, Token(kv.key)), Token(kv.key))
  {
    assert [kv][1..] == [];
    ReplaceAllIsJoin(template, Token(kv.key), kv.value);
    JoinPieces(template, Token(kv.key));
    PiecesLeftmost(template, Token(kv.key));
  }

  /** A template mentioning none of the combination's tokens comes back unchanged. */
  lemma {:induction false} ReplaceSetValuesUntouched(template: string, combo: Combination)
    requires forall i :: 0 <= i < |combo| ==> NoMatch(template, Token(combo[i].key))
    ensures ReplaceSetValues(template, combo) == template
    decreases |combo|
  {
    if |combo| > 0 {
      ReplaceAllNoMatch(template, Token(combo[0].key), combo[0].value);
      assert forall i :: 1 <= i < |combo| ==> combo[i] == combo[1..][i - 1];
      ReplaceSetValuesUntouched(template, combo[1..]);
    }
  }

  // ---- Jobs (enqueueJob, getCreateDirs, enqueueJobs) ------------------------

  /** Every template substituted with the same combination, in order. */
  function ReplaceEach(templates: seq<string>, combo: Combination): (r: seq<string>)
    ensures |r| == |templates|
    ensures forall i :: 0 <= i < |r| ==> r[i] == ReplaceSetValues(templates[i], combo)
  {
    seq(|templates|, i requires 0 <= i < |templates| => ReplaceSetValues(templates[i], combo))
  }

  /** `getCreateDirs(combination)`: the declared directories substituted, or none. */
  function GetCreateDirs(task: TaskDef, combo: Combination): (r: seq<string>)
    ensures task.createDirs.None? ==> r == []
    ensures task.createDirs.Some? ==> |r| == |task.createDirs.value|
    ensures task.createDirs.Some? ==> forall i :: 0 <= i < |r| ==> r[i] == ReplaceSetValues(task.createDirs.value[i], combo)
  {
    match task.createDirs
    case None => []
    case Some(dirs) => ReplaceEach(dirs, combo)
  }

  /** `enqueueJob(queue, combination)`: the job one combination yields. */
  function MakeJob(taskId: string, task: TaskDef, defaultCommand: string, combo: Combination): (r: Job)
    ensures r.task == taskId
    ensures r.command == (if task.command.Some? then task.command.value else defaultCommand)
    ensures |r.args| == |task.commandArgs|
    ensures task.createDirs.None? ==> r.createDirs == []
    ensures task.createDirs.Some? ==> |r.createDirs| == |task.createDirs.value|
    ensures r.title == ReplaceSetValues(task.title, combo)
    ensures forall i :: 0 <= i < |r.args| ==> r.args[i] == ReplaceSetValues(task.commandArgs[i], combo)
    ensures task.createDirs.Some? ==> forall i :: 0 <= i < |r.createDirs| ==> r.createDirs[i] == ReplaceSetValues(task.createDirs.value[i], combo)
  {
    Job(
      taskId,
      if task.command.Some? then task.command.value else defaultCommand,
      ReplaceSetValues(task.title, combo),
      GetCreateDirs(task, combo),
      ReplaceEach(task.commandArgs, combo))
  }

  /** Templates that mention no token of the combination pass into the job verbatim. */
  lemma MakeJobVerbatim(taskId: string, task: TaskDef, defaultCommand: string, combo: Combination)
    requires forall i :: 0 <= i < |combo| ==> NoMatch(task.title, Token(combo[i].key))
    requires forall a, i :: 0 <= a < |task.commandArgs| && 0 <= i < |combo| ==> NoMatch(task.commandArgs[a], Token(combo[i].key))
    ensures MakeJob(taskId, task, defaultCommand, combo).title == task.title
    ensures MakeJob(taskId, task, defaultCommand, combo).args == task.commandArgs
  {
    ReplaceSetValuesUntouched(task.title, combo);
    forall a | 0 <= a < |task.commandArgs|
      ensures ReplaceSetValues(task.commandArgs[a], combo) == task.commandArgs[a]
    {
      ReplaceSetValuesUntouched(task.commandArgs[a], combo);
    }
  }

  /** One job per combination, in combination order. */
  function MakeJobs(taskId: string, task: TaskDef, defaultCommand: string, combos: seq<Combination>): (r: seq<Job>)
    ensures |r| == |combos|
    ensures forall k :: 0 <= k < |r| ==> r[k] == MakeJob(taskId, task, defaultCommand, combos[k])
  {
    seq(|combos|, k requires 0 <= k < |combos| => MakeJob(taskId, task, defaultCommand, combos[k]))
  }

  /** `enqueueJobs(queue)`: the jobs of one task, or the first configuration
      error met while resolving its sets. */
  function ExpandTask(taskId: string, task: TaskDef, globalSets: map<string, seq<string>>,
                      defaultCommand: string, argv: seq<string>): (r: Result<seq<Job>>)
    ensures r.Ok? <==> forall i :: 0 <= i < |task.run| ==> GetSetValues(taskId, task, globalSets, argv, task.run[i]).Ok?
    ensures r.Ok? ==> forall k :: 0 <= k < |r.value| ==> r.value[k].task == taskId
    ensures r.Err? ==> exists i :: 0 <= i < |task.run| && GetSetValues(taskId, task, globalSets, argv, task.run[i]) == Err(r.msg)
                                   && forall j :: 0 <= j < i ==> GetSetValues(taskId, task, globalSets, argv, task.run[j]).Ok?
  {
    var combos :- SetCombinations(taskId, task, globalSets, argv);
    Ok(MakeJobs(taskId, task, defaultCommand, combos))
  }

  /** The jobs of a task are its combinations in lexicographic order, one job
      each, so they number the product of the resolved set sizes; with no
      sets in `run` there is exactly one job, and a set with no values
      leaves none. */
  lemma ExpandTaskJobs(taskId: string, task: TaskDef, globalSets: map<string, seq<string>>,
                       defaultCommand: string, argv: seq<string>)
    requires ExpandTask(taskId, task, globalSets, defaultCommand, argv).Ok?
    ensures var axes := ResolveAll(taskId, task, globalSets, argv, task.run).value;
            var jobs := ExpandTask(taskId, task, globalSets, defaultCommand, argv).value;
            && |jobs| == Product.Count(axes)
            && |Product.Lex(axes)| == |jobs|
            && (forall k :: 0 <= k < |jobs| ==> jobs[k] == MakeJob(taskId, task, defaultCommand, Product.Lex(axes)[k]))
            && (|task.run| == 0 ==> |jobs| == 1)
            && (|jobs| == 0 <==> exists i :: 0 <= i < |axes| && |axes[i]| == 0)
  {
    var axes := ResolveAll(taskId, task, globalSets, argv, task.run).value;
    CombinationsShape(taskId, task, globalSets, argv);
    Product.CartesianEmpty(axes);
    Product.CartesianCount(axes);
  }
}
