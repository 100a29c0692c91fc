// The commands the parser produces and what executing each one does to the
// task list. What would be shown to the user is returned as a Report.

module Commands {
  import opened Errors
  import opened JavaStrings
  import opened Dates
  import opened Tasks
  import opened TaskLists

  datatype Command =
    | Exit
    | ListAll
    | Find(keyword: string)
    | Mark(taskNumber: int, isDone: bool)
    | AddTodo(description: string)
    | AddDeadline(description: string, dueDate: string)
    | AddEvent(description: string, from: string, to: string)
    | Delete(taskNumber: int)
  {
    /** Only the exit command ends the session. */
    predicate IsExit()
      ensures IsExit() ==> !Mutates(this)
    {
      this.Exit?
    }
  }

  /** What a successful command hands to the user interface. */
  datatype Report =
    | Added(task: Task, count: nat)
    | Marked(task: Task, isDone: bool)
    | Deleted(task: Task, count: nat)
    | Found(matches: seq<Task>, keyword: string)
    | Listed(all: seq<Task>)
    | Exited

  /** Creates a task of the given kind and appends it, reporting the new size. */
  method AddNew(list: TaskList, kind: Kind, description: string) returns (r: Result<Report>)
    modifies list
    ensures old(|list.tasks|) >= MAX_TASKS ==> r == Failure(ListFull) && list.tasks == old(list.tasks)
    ensures old(|list.tasks|) < MAX_TASKS ==>
      && r.Success? && r.value.Added? && fresh(r.value.task)
      && r.value.task.Data() == TaskData(kind, description, false)
      && list.tasks == old(list.tasks) + [r.value.task]
      && r.value.count == |list.tasks|
  {
    var task := new Task(kind, description);
    var added := list.AddTask(task);
    if added.Fail? {
      return Failure(added.error);
    }
    return Success(Added(task, list.TaskCount()));
  }

  /** TodoCommand.execute */
  method ExecuteTodo(list: TaskList, description: string) returns (r: Result<Report>)
    modifies list
    ensures old(|list.tasks|) >= MAX_TASKS ==> r == Failure(ListFull) && list.tasks == old(list.tasks)
    ensures old(|list.tasks|) < MAX_TASKS ==>
      && r.Success? && r.value.Added? && fresh(r.value.task)
      && r.value.task.Data() == TaskData(ToDo, description, false)
      && list.tasks == old(list.tasks) + [r.value.task]
      && r.value.count == |list.tasks|
  {
    r := AddNew(list, ToDo, description);
  }

  /** DeadlineCommand.execute: the date is checked before the capacity. */
  method ExecuteDeadline(list: TaskList, description: string, dueDate: string) returns (r: Result<Report>)
    modifies list
    ensures DeadlineKind(dueDate).Failure? ==> r == Failure(InvalidDate) && list.tasks == old(list.tasks)
    ensures DeadlineKind(dueDate).Success? && old(|list.tasks|) >= MAX_TASKS ==>
      r == Failure(ListFull) && list.tasks == old(list.tasks)
    ensures DeadlineKind(dueDate).Success? && old(|list.tasks|) < MAX_TASKS ==>
      && r.Success? && r.value.Added? && fresh(r.value.task)
      && r.value.task.Data() == TaskData(DeadlineKind(dueDate).value, description, false)
      && list.tasks == old(list.tasks) + [r.value.task]
      && r.value.count == |list.tasks|
  {
    var kind := DeadlineKind(dueDate);
    if kind.Failure? {
      return Failure(kind.error);
    }
    r := AddNew(list, kind.value, description);
  }

  /**
   * EventCommand.validateDates: both dates must parse and the start may not
   * be after the end; a one-day event (equal dates) is accepted.
   */
  function ValidateDates(from: string, to: string): (r: Outcome)
    ensures r == Fail(InvalidDate) <==> EventKind(from, to).Failure?
    ensures r == Fail(InvalidEventDates) <==>
      EventKind(from, to).Success? && IsAfter(EventKind(from, to).value.from, EventKind(from, to).value.to)
    ensures r.Pass? || r == Fail(InvalidDate) || r == Fail(InvalidEventDates)
  {
    match ParseDate(from)
    case None => Fail(InvalidDate)
    case Some(f) =>
      match ParseDate(to)
      case None => Fail(InvalidDate)
      case Some(t) => if IsAfter(f, t) then Fail(InvalidEventDates) else Pass
  }

  /** EventCommand.execute: dates first, then their order, then the capacity. */
  method ExecuteEvent(list: TaskList, description: string, from: string, to: string) returns (r: Result<Report>)
    modifies list
    ensures ValidateDates(from, to).Fail? ==>
      r == Failure(ValidateDates(from, to).error) && list.tasks == old(list.tasks)
    ensures ValidateDates(from, to).Pass? && old(|list.tasks|) >= MAX_TASKS ==>
      r == Failure(ListFull) && list.tasks == old(list.tasks)
    ensures ValidateDates(from, to).Pass? && old(|list.tasks|) < MAX_TASKS ==>
      && r.Success? && r.value.Added? && fresh(r.value.task)
      && r.value.task.Data() == TaskData(EventKind(from, to).value, description, false)
      && !IsAfter(r.value.task.kind.from, r.value.task.kind.to)
      && list.tasks == old(list.tasks) + [r.value.task]
      && r.value.count == |list.tasks|
  {
    var valid := ValidateDates(from, to);
    if valid.Fail? {
      return Failure(valid.error);
    }
    var kind := EventKind(from, to);
    r := AddNew(list, kind.value, description);
  }

  /** MarkCommand.execute: updates task n, then reports it as it now stands. */
  method ExecuteMark(list: TaskList, taskNumber: int, isDone: bool) returns (r: Result<Report>)
    modifies list.tasks
    ensures r.Failure? <==> !(1 <= taskNumber <= |list.tasks|)
    ensures r.Failure? ==> r.error == InvalidTaskNumber
    ensures r.Success? ==> r == Success(Marked(list.tasks[taskNumber - 1], isDone))
    ensures r.Success? ==> list.tasks[taskNumber - 1].isDone == isDone
    ensures forall t :: t in list.tasks && (r.Failure? || t != list.tasks[taskNumber - 1]) ==>
      t.isDone == old(t.isDone)
  {
    var marked := list.MarkTask(taskNumber, isDone);
    if marked.Fail? {
      return Failure(marked.error);
    }
    var task := list.GetTask(taskNumber);
    return Success(Marked(task.value, isDone));
  }

  /** DeleteCommand.execute: reports the removed task and the size left. */
  method ExecuteDelete(list: TaskList, taskNumber: int) returns (r: Result<Report>)
    modifies list
    ensures !(1 <= taskNumber <= old(|list.tasks|)) ==> r == Failure(ListFull) && list.tasks == old(list.tasks)
    ensures 1 <= taskNumber <= old(|list.tasks|) ==>
      && r == Success(Deleted(old(list.tasks)[taskNumber - 1], |list.tasks|))
      && list.tasks == old(list.tasks)[..taskNumber - 1] + old(list.tasks)[taskNumber..]
  {
    var removed := list.DeleteTask(taskNumber);
    if removed.Failure? {
      return Failure(removed.error);
    }
    return Success(Deleted(removed.value, list.TaskCount()));
  }

  /** FindCommand.execute: an empty keyword is refused; the list is only read. */
  method ExecuteFind(list: TaskList, keyword: string) returns (r: Result<Report>)
    ensures r.Failure? <==> keyword == []
    ensures r.Failure? ==> r.error == NoKeyword
    ensures r.Success? ==> r == Success(Found(Matching(list.tasks, keyword), keyword))
  {
    if keyword == [] {
      return Failure(NoKeyword);
    }
    var matches := list.FindTasks(keyword);
    return Success(Found(matches, keyword));
  }

  /** Which commands may change the list or its tasks. */
  predicate Mutates(c: Command)
  {
    c.Mark? || c.AddTodo? || c.AddDeadline? || c.AddEvent? || c.Delete?
  }

  /**
   * Command.execute, dispatched on the command. A failing command leaves the
   * list as it was, and list, find and exit never change anything; each
   * adding, marking or deleting command succeeds exactly when its execute
   * does and then changes the list as that execute says.
   */
  method Execute(c: Command, list: TaskList) returns (r: Result<Report>)
    modifies list, list.tasks
    ensures r.Failure? || !Mutates(c) ==> list.tasks == old(list.tasks)
    ensures r.Failure? || !Mutates(c) ==> forall t :: t in list.tasks ==> t.isDone == old(t.isDone)
    ensures c.Exit? ==> r == Success(Exited)
    ensures c.IsExit() <==> r == Success(Exited)
    ensures c.ListAll? ==> r == Success(Listed(list.tasks))
    ensures c.Find? ==> r == (if c.keyword == [] then Failure(NoKeyword)
                              else Success(Found(Matching(list.tasks, c.keyword), c.keyword)))
    ensures c.AddTodo? ==> (r.Success? <==> old(|list.tasks|) < MAX_TASKS)
    ensures c.AddTodo? && r.Success? ==>
      && r.value.Added? && fresh(r.value.task)
      && r.value.task.Data() == TaskData(ToDo, c.description, false)
      && list.tasks == old(list.tasks) + [r.value.task] && r.value.count == |list.tasks|
    ensures c.AddDeadline? ==>
      (r.Success? <==> DeadlineKind(c.dueDate).Success? && old(|list.tasks|) < MAX_TASKS)
    ensures c.AddDeadline? && r.Success? ==>
      && r.value.Added? && fresh(r.value.task)
      && r.value.task.Data() == TaskData(DeadlineKind(c.dueDate).value, c.description, false)
      && list.tasks == old(list.tasks) + [r.value.task] && r.value.count == |list.tasks|
    ensures c.AddEvent? ==>
      (r.Success? <==> ValidateDates(c.from, c.to).Pass? && old(|list.tasks|) < MAX_TASKS)
    ensures c.AddEvent? && r.Success? ==>
      && r.value.Added? && fresh(r.value.task)
      && r.value.task.Data() == TaskData(EventKind(c.from, c.to).value, c.description, false)
      && list.tasks == old(list.tasks) + [r.value.task] && r.value.count == |list.tasks|
    ensures c.Mark? ==> list.tasks == old(list.tasks)
    ensures c.Mark? ==> (r.Success? <==> 1 <= c.taskNumber <= |list.tasks|)
    ensures c.Mark? && r.Success? ==>
      && r == Success(Marked(list.tasks[c.taskNumber - 1], c.isDone))
      && list.tasks[c.taskNumber - 1].isDone == c.isDone
      && forall t :: t in list.tasks && t != list.tasks[c.taskNumber - 1] ==> t.isDone == old(t.isDone)
    ensures c.Delete? ==> (r.Success? <==> 1 <= c.taskNumber <= old(|list.tasks|))
    ensures c.Delete? && r.Success? ==>
      && r == Success(Deleted(old(list.tasks)[c.taskNumber - 1], |list.tasks|))
      && list.tasks == old(list.tasks)[..c.taskNumber - 1] + old(list.tasks)[c.taskNumber..]
  {
    match c
    case Exit =>
      r := Success(Exited);
    case ListAll =>
      r := Success(Listed(list.tasks));
    case Find(keyword) =>
      r := ExecuteFind(list, keyword);
    case Mark(n, isDone) =>
      r := ExecuteMark(list, n, isDone);
    case AddTodo(description) =>
      r := ExecuteTodo(list, description);
    case AddDeadline(description, dueDate) =>
      r := ExecuteDeadline(list, description, dueDate);
    case AddEvent(description, from, to) =>
      r := ExecuteEvent(list, description, from, to);
    case Delete(n) =>
      r := ExecuteDelete(list, n);
  }
}
