/** Task selection and state-file locations, as `parse_options` in
    tac08/main.py computes them once the options have been read. */
module Tasks {
  import opened Wrappers

  /** The five evaluation tasks the driver knows (the constants of `globals`). */
  datatype TaskKind =
    | Tac2008Update
    | Duc2007Update
    | Duc2007Main
    | Duc2006Main
    | Duc2005Main

  /** The value of `--task` that selects each task. */
  function TaskCode(k: TaskKind): string
  {
    match k
    case Tac2008Update => "u08"
    case Duc2007Update => "u07"
    case Duc2007Main => "m07"
    case Duc2006Main => "m06"
    case Duc2005Main => "m05"
  }

  /** `parser.error(...)`: the `--task` code was missing or unknown. */
  datatype OptionError = UnrecognizedTask(code: Option<string>)

  /** The `if ... elif ... else parser.error` chain on `options.task`; `None`
      is an absent `--task` option. */
  function Dispatch(code: Option<string>): (r: Result<TaskKind, OptionError>)
    ensures r.Success? <==> code.Some? && code.value in {"u08", "u07", "m07", "m06", "m05"}
    ensures r.Success? ==> code == Some(TaskCode(r.value))
    ensures r.Failure? ==> r.error == UnrecognizedTask(code)
  {
    if code == Some("u08") then Success(Tac2008Update)
    else if code == Some("u07") then Success(Duc2007Update)
    else if code == Some("m07") then Success(Duc2007Main)
    else if code == Some("m06") then Success(Duc2006Main)
    else if code == Some("m05") then Success(Duc2005Main)
    else Failure(UnrecognizedTask(code))
  }

  /** Every task is selected by its own code and by no other. */
  lemma DispatchRoundTrip(k: TaskKind, code: Option<string>)
    ensures Dispatch(Some(TaskCode(k))) == Success(k)
    ensures Dispatch(code) == Success(k) ==> code == Some(TaskCode(k))
  {
    match k
    case Tac2008Update =>
    case Duc2007Update =>
    case Duc2007Main =>
    case Duc2006Main =>
    case Duc2005Main =>
  }

  /** The five codes are pairwise distinct, so the five tasks are too. */
  lemma TaskCodeInjective(j: TaskKind, k: TaskKind)
    ensures TaskCode(j) == TaskCode(k) ==> j == k
  {
  }

  /** A task object: its name and where its partial state is cached. */
  datatype Task = Task(name: string, dataPickle: string, punktPickle: string)

  /** `'%s/%s_data.pickle' % (dataroot, name)` */
  function DataPicklePath(dataroot: string, name: string): string
  {
    dataroot + "/" + name + "_data.pickle"
  }

  /** `'%s/%s_punkt.pickle' % (dataroot, name)` */
  function PunktPicklePath(dataroot: string, name: string): string
  {
    dataroot + "/" + name + "_punkt.pickle"
  }

  /** The two state paths share the prefix `dataroot/name_` and differ only in
      what follows it; in particular they never coincide. */
  lemma StatePathsDifferInSuffixOnly(dataroot: string, name: string)
    ensures var prefix := dataroot + "/" + name + "_";
      && DataPicklePath(dataroot, name) == prefix + "data.pickle"
      && PunktPicklePath(dataroot, name) == prefix + "punkt.pickle"
      && DataPicklePath(dataroot, name) != PunktPicklePath(dataroot, name)
  {
    var prefix := dataroot + "/" + name + "_";
    assert DataPicklePath(dataroot, name) == prefix + "data.pickle";
    assert PunktPicklePath(dataroot, name) == prefix + "punkt.pickle";
    assert DataPicklePath(dataroot, name)[|prefix|] == 'd';
    assert PunktPicklePath(dataroot, name)[|prefix|] == 'p';
  }

  /** The state paths are determined by, and determine, the directory and the
      task name joined by a slash. */
  lemma DataPicklePathInjective(d1: string, n1: string, d2: string, n2: string)
    ensures DataPicklePath(d1, n1) == DataPicklePath(d2, n2) <==> d1 + "/" + n1 == d2 + "/" + n2
  {
    var s1, s2 := d1 + "/" + n1, d2 + "/" + n2;
    assert DataPicklePath(d1, n1) == s1 + "_data.pickle";
    assert DataPicklePath(d2, n2) == s2 + "_data.pickle";
    if DataPicklePath(d1, n1) == DataPicklePath(d2, n2) {
      assert |s1| == |s2|;
      assert s1 == DataPicklePath(d1, n1)[..|s1|];
      assert s2 == DataPicklePath(d2, n2)[..|s2|];
    }
  }

  lemma PunktPicklePathInjective(d1: string, n1: string, d2: string, n2: string)
    ensures PunktPicklePath(d1, n1) == PunktPicklePath(d2, n2) <==> d1 + "/" + n1 == d2 + "/" + n2
  {
    var s1, s2 := d1 + "/" + n1, d2 + "/" + n2;
    assert PunktPicklePath(d1, n1) == s1 + "_punkt.pickle";
    assert PunktPicklePath(d2, n2) == s2 + "_punkt.pickle";
    if PunktPicklePath(d1, n1) == PunktPicklePath(d2, n2) {
      assert |s1| == |s2|;
      assert s1 == PunktPicklePath(d1, n1)[..|s1|];
      assert s2 == PunktPicklePath(d2, n2)[..|s2|];
    }
  }

  /** `if options.dataroot:` -- an absent or empty dataroot leaves a task's
      predefined state paths alone. */
  function WithStatePaths(task: Task, dataroot: Option<string>): (t: Task)
    ensures t.name == task.name
    ensures dataroot.Some? && dataroot.value != "" ==>
      t.dataPickle == DataPicklePath(dataroot.value, task.name) &&
      t.punktPickle == PunktPicklePath(dataroot.value, task.name)
    ensures dataroot.None? || dataroot.value == "" ==> t == task
  {
    if dataroot.Some? && dataroot.value != "" then
      task.(dataPickle := DataPicklePath(dataroot.value, task.name),
            punktPickle := PunktPicklePath(dataroot.value, task.name))
    else
      task
  }

  /** What `parse_options` returns as its task, given the `--task` and
      `--dataroot` values and the predefined task objects. */
  function ParseOptions(code: Option<string>, dataroot: Option<string>,
                        predefined: TaskKind -> Task): (r: Result<Task, OptionError>)
    ensures r.Failure? <==> Dispatch(code).Failure?
    ensures r.Success? ==> r.value == WithStatePaths(predefined(Dispatch(code).value), dataroot)
  {
    match Dispatch(code)
    case Failure(e) => Failure(e)
    case Success(k) => Success(WithStatePaths(predefined(k), dataroot))
  }

  /** End to end: the selected code picks the predefined task whose state now
      lives under the dataroot, when one is given. */
  lemma ParseOptionsSelects(k: TaskKind, root: string, predefined: TaskKind -> Task)
    requires root != ""
    ensures var r := ParseOptions(Some(TaskCode(k)), Some(root), predefined);
      && r.Success?
      && r.value.name == predefined(k).name
      && r.value.dataPickle == root + "/" + predefined(k).name + "_data.pickle"
      && r.value.punktPickle == root + "/" + predefined(k).name + "_punkt.pickle"
  {
    DispatchRoundTrip(k, None);
  }
}
