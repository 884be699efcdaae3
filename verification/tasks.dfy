/**
 * The `Task` record of maxpar.py: a name, the variables it reads (`readVars`,
 * Python `reads`) and writes (`writeVars`, Python `writes`), and an optional body.
 */
module Tasks {
  import opened Wrappers

  /** Stands for the zero-argument callable a task runs; its body is not modelled. */
  datatype Runnable = Runnable(id: string)

  datatype Task = Task(name: string, readVars: seq<string>, writeVars: seq<string>, run: Option<Runnable>)

  /**
   * `Task(name="", reads=None, writes=None, run=None)`: an omitted name is the
   * empty string, omitted read and write lists become empty lists, and every
   * argument that is given is stored unchanged.
   */
  function NewTask(name: Option<string>, readVars: Option<seq<string>>,
                   writeVars: Option<seq<string>>, run: Option<Runnable>): (t: Task)
    ensures name.Some? ==> t.name == name.value
    ensures name.None? ==> t.name == ""
    ensures readVars.Some? ==> t.readVars == readVars.value
    ensures readVars.None? ==> t.readVars == []
    ensures writeVars.Some? ==> t.writeVars == writeVars.value
    ensures writeVars.None? ==> t.writeVars == []
    ensures t.run == run
  {
    Task(
      match name case Some(n) => n case None => "",
      match readVars case Some(r) => r case None => [],
      match writeVars case Some(w) => w case None => [],
      run)
  }

  /** Passing a task's own attributes back to the constructor rebuilds it. */
  lemma NewTaskRoundTrip(t: Task)
    ensures NewTask(Some(t.name), Some(t.readVars), Some(t.writeVars), t.run) == t
  {
  }

  /** Omitting the read and write lists is the same as passing empty ones. */
  lemma NewTaskDefaultsAreEmpty(name: Option<string>, run: Option<Runnable>)
    ensures NewTask(name, None, None, run) == NewTask(name, Some([]), Some([]), run)
    ensures NewTask(name, None, None, run).readVars == []
  {
  }

  /** `[task.name for task in tasks]`. */
  function Names(tasks: seq<Task>): (names: seq<string>)
    ensures |names| == |tasks|
    ensures forall i | 0 <= i < |tasks| :: names[i] == tasks[i].name
  {
    seq(|tasks|, i requires 0 <= i < |tasks| => tasks[i].name)
  }
}
