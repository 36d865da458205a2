/**
 * The task dispatcher of the crew: tasks are looked up by name, and the
 * first tool of the matching task's agent is called with the dataset.
 * The crewAI Agent, Task and Crew classes appear here as plain records
 * holding only the fields the dispatcher reads.
 */
module Crew {
  import opened Wrappers
  import opened DataFrame
  import opened CustomTool

  /** The two callables the configured tools wrap. */
  datatype ToolFunc = ValidateDatasetFunc | CleanDatasetFunc

  /** A tool; func is None when the object stored there is not callable. */
  datatype Tool = Tool(name: string, func: Option<ToolFunc>, description: string)

  /** An agent; an entry of tools is None when it holds a falsy object. */
  datatype Agent = Agent(name: string, tools: seq<Option<Tool>>)

  datatype Task = Task(name: string, description: string, agent: Agent)

  /** What a tool call returns: the validator's text or the cleaning result. */
  datatype ToolOutput = Validation(report: string) | Cleaning(result: CleanResult)

  /** The Python exception classes run_task can raise. */
  datatype Exception = ValueError | IndexError

  datatype CrewError =
    | TaskNotFound(taskName: string)
    | NoTools(taskName: string)
    | ToolNotCallable(taskName: string)
  {
    /** The class of the exception raised for this error. */
    function Class(): (c: Exception)
      ensures c == IndexError <==> NoTools?
    {
      if NoTools? then IndexError else ValueError
    }

    /** The exception's message; an empty tool list fails on the list index. */
    function Message(): (m: string)
      ensures Class() == ValueError ==> Contains(m, Quote(taskName))
      ensures Class() == IndexError ==> m == "list index out of range"
    {
      match this
      case TaskNotFound(n) => "Task " + Quote(n) + " not found."
      case ToolNotCallable(n) => "Tool for task " + Quote(n) + " is not callable."
      case NoTools(_) => "list index out of range"
    }
  }

  /** A name between single quotes, as the messages print it. */
  function Quote(name: string): string
  {
    "'" + name + "'"
  }

  ghost predicate Contains(s: string, part: string)
  {
    exists before, after :: s == before + part + after
  }

  /** Position i holds the first task named name. */
  predicate FirstMatch(tasks: seq<Task>, name: string, i: int)
  {
    0 <= i < |tasks| && tasks[i].name == name &&
    forall j :: 0 <= j < i ==> tasks[j].name != name
  }

  /** The position of the first task named name, if any. */
  function FindTask(tasks: seq<Task>, name: string): (r: Option<nat>)
    ensures r.None? <==> forall i :: 0 <= i < |tasks| ==> tasks[i].name != name
    ensures r.Some? ==> FirstMatch(tasks, name, r.value)
  {
    if |tasks| == 0 then None
    else if tasks[0].name == name then Some(0)
    else match FindTask(tasks[1..], name)
      case None => None
      case Some(i) => Some(i + 1)
  }

  /** The first match is unique. */
  lemma FirstMatchUnique(tasks: seq<Task>, name: string, i: int, k: int)
    requires FirstMatch(tasks, name, i) && FirstMatch(tasks, name, k)
    ensures i == k
  {
  }

  /**
   * Calls a tool function with the dataset; validate stands for the
   * remote validation request, which is outside the model.
   */
  function Call(f: ToolFunc, dataset: Dataset, validate: Dataset -> string): (out: ToolOutput)
    requires WellFormed(dataset)
    ensures f.ValidateDatasetFunc? ==> out == Validation(validate(dataset))
    ensures f.CleanDatasetFunc? ==> out == Cleaning(Clean(dataset))
  {
    match f
    case ValidateDatasetFunc => Validation(validate(dataset))
    case CleanDatasetFunc => Cleaning(Clean(dataset))
  }

  /** The tool step of run_task, once the task is found. */
  function Dispatch(agent: Agent, taskName: string, dataset: Dataset, validate: Dataset -> string): (r: Result<ToolOutput, CrewError>)
    requires WellFormed(dataset)
    ensures r.Ok? <==> |agent.tools| > 0 && agent.tools[0].Some? && agent.tools[0].value.func.Some?
    ensures r.Ok? ==> r.value == Call(agent.tools[0].value.func.value, dataset, validate)
    ensures r.Err? ==> r.error.taskName == taskName && !r.error.TaskNotFound?
    ensures r.Err? ==> (r.error.Class() == IndexError <==> |agent.tools| == 0)
  {
    if |agent.tools| == 0 then Err(NoTools(taskName))
    else
      var tool := agent.tools[0];
      if tool.Some? && tool.value.func.Some? then Ok(Call(tool.value.func.value, dataset, validate))
      else Err(ToolNotCallable(taskName))
  }

  datatype ExtendedCrew = ExtendedCrew(agents: seq<Agent>, tasks: seq<Task>)
  {
    /** Runs the first task named taskName on the dataset. */
    function RunTask(taskName: string, dataset: Dataset, validate: Dataset -> string): (r: Result<ToolOutput, CrewError>)
      requires WellFormed(dataset)
      ensures r == Err(TaskNotFound(taskName)) <==> forall i :: 0 <= i < |tasks| ==> tasks[i].name != taskName
      ensures r.Err? && r.error.TaskNotFound? ==> r.error.taskName == taskName
      ensures forall i :: FirstMatch(tasks, taskName, i) ==> r == Dispatch(tasks[i].agent, taskName, dataset, validate)
    {
      match FindTask(tasks, taskName)
      case None => Err(TaskNotFound(taskName))
      case Some(i) =>
        FirstMatchUniqueAll(tasks, taskName, i);
        Dispatch(tasks[i].agent, taskName, dataset, validate)
    }
  }

  lemma FirstMatchUniqueAll(tasks: seq<Task>, name: string, i: int)
    requires FirstMatch(tasks, name, i)
    ensures forall k :: FirstMatch(tasks, name, k) ==> k == i
  {
    forall k | FirstMatch(tasks, name, k) ensures k == i {
      FirstMatchUnique(tasks, name, i, k);
    }
  }

  const ValidateDatasetTool := Tool(
    "Validate Dataset Tool", Some(ValidateDatasetFunc),
    "Validates a dataset using an LLM to identify anomalies, trends, and insights.")

  const CleanDatasetTool := Tool(
    "Clean Dataset Tool", Some(CleanDatasetFunc),
    "Cleans a dataset by removing duplicates and handling missing values.")

  const DatasetValidationAgent := Agent("DatasetValidationAgent", [Some(ValidateDatasetTool)])

  const DataCleaningAgent := Agent("DataCleaningAgent", [Some(CleanDatasetTool)])

  const ValidateTask := Task(
    "Validate Dataset",
    "Validates a dataset to identify anomalies, trends, and insights using an LLM.",
    DatasetValidationAgent)

  const CleanTask := Task(
    "Clean Dataset",
    "Cleans a dataset by removing duplicates and handling missing values.",
    DataCleaningAgent)

  /** The crew the application runs. */
  const TheCrew := ExtendedCrew([DatasetValidationAgent, DataCleaningAgent], [ValidateTask, CleanTask])

  /**
   * The configuration: two tasks with different names, "Validate Dataset" and "Clean
   * Dataset", whose agents each hold exactly one tool, a callable one wrapping the
   * validation and the cleaning function respectively.
   */
  lemma CrewConfiguration()
    ensures |TheCrew.tasks| == 2
    ensures TheCrew.tasks[0].name == "Validate Dataset" && TheCrew.tasks[1].name == "Clean Dataset"
    ensures TheCrew.tasks[0].name != TheCrew.tasks[1].name
    ensures forall i :: 0 <= i < 2 ==> |TheCrew.tasks[i].agent.tools| == 1 && TheCrew.tasks[i].agent.tools[0].Some?
    ensures TheCrew.tasks[0].agent.tools[0].value.func == Some(ValidateDatasetFunc)
    ensures TheCrew.tasks[1].agent.tools[0].value.func == Some(CleanDatasetFunc)
    ensures TheCrew.agents == [TheCrew.tasks[0].agent, TheCrew.tasks[1].agent]
  {
  }

  /** "Validate Dataset" reaches the validation tool. */
  lemma ValidateDatasetDispatch(dataset: Dataset, validate: Dataset -> string)
    requires WellFormed(dataset)
    ensures TheCrew.RunTask("Validate Dataset", dataset, validate) == Ok(Validation(validate(dataset)))
  {
    assert FirstMatch(TheCrew.tasks, "Validate Dataset", 0);
  }

  /** "Clean Dataset" reaches the cleaning tool. */
  lemma CleanDatasetDispatch(dataset: Dataset, validate: Dataset -> string)
    requires WellFormed(dataset)
    ensures TheCrew.RunTask("Clean Dataset", dataset, validate) == Ok(Cleaning(Clean(dataset)))
  {
    assert TheCrew.tasks[0].name != "Clean Dataset";
    assert FirstMatch(TheCrew.tasks, "Clean Dataset", 1);
  }

  /** Any other name is rejected with an error naming it. */
  lemma UnknownTaskRejected(taskName: string, dataset: Dataset, validate: Dataset -> string)
    requires WellFormed(dataset)
    requires taskName != "Validate Dataset" && taskName != "Clean Dataset"
    ensures TheCrew.RunTask(taskName, dataset, validate) == Err(TaskNotFound(taskName))
  {
  }

  /** The unknown name "Frobnicate" is rejected, and the error message quotes it. */
  lemma FrobnicateRejected(dataset: Dataset, validate: Dataset -> string)
    requires WellFormed(dataset)
    ensures TheCrew.RunTask("Frobnicate", dataset, validate) == Err(TaskNotFound("Frobnicate"))
    ensures Contains(TaskNotFound("Frobnicate").Message(), Quote("Frobnicate"))
  {
    UnknownTaskRejected("Frobnicate", dataset, validate);
  }
}
