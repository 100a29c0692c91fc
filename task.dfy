// The three kinds of task (to-do, deadline, event), their on-screen and
// save-file renderings, and the task object whose done flag is changed in
// place by mark and unmark.

module Tasks {
  import opened Errors
  import opened JavaStrings
  import opened Dates

  /** What distinguishes a to-do, a deadline and an event. */
  datatype Kind = ToDo | Deadline(due: Date) | Event(from: Date, to: Date)

  /** The observable state of one task at one moment. */
  datatype TaskData = TaskData(kind: Kind, description: string, isDone: bool)
  {
    /** "X" when done, " " otherwise. */
    function StatusIcon(): (r: string)
      ensures |r| == 1 && (r[0] == 'X' <==> isDone)
    {
      if isDone then "X" else " "
    }

    /** "[T]", "[D]" or "[E]". */
    function TypeTag(): string
    {
      match kind
      case ToDo => "[T]"
      case Deadline(_) => "[D]"
      case Event(_, _) => "[E]"
    }

    function DisplaySuffix(): string
    {
      match kind
      case ToDo => ""
      case Deadline(due) => " (by: " + Display(due) + ")"
      case Event(from, to) => " (from: " + Display(from) + " to: " + Display(to) + ")"
    }

    /** The line shown to the user: type tag, status box, description, dates. */
    function ToString(): (r: string)
      ensures |r| >= 7 + |description|
      ensures r[4] == (if isDone then 'X' else ' ')
    {
      TypeTag() + "[" + StatusIcon() + "] " + description + DisplaySuffix()
    }

    function TypeLetter(): string
    {
      match kind
      case ToDo => "T"
      case Deadline(_) => "D"
      case Event(_, _) => "E"
    }

    function DateFields(): string
    {
      match kind
      case ToDo => ""
      case Deadline(due) => " | " + Iso(due)
      case Event(from, to) => " | " + Iso(from) + " | " + Iso(to)
    }

    /** The save-file line: "T | 0 | description", dates appended in ISO form. */
    function ToFileFormat(): (r: string)
      ensures |r| >= 8 + |description|
      ensures r[4] == (if isDone then '1' else '0')
    {
      TypeLetter() + " | " + (if isDone then "1" else "0") + " | " + description + DateFields()
    }
  }

  /** The Deadline constructor's date check: the due date must parse. */
  function DeadlineKind(dueDate: string): (r: Result<Kind>)
    ensures r.Failure? <==> ParseDate(dueDate).None?
    ensures r.Failure? ==> r.error == InvalidDate
    ensures r.Success? ==> r.value.Deadline? && Iso(r.value.due) == Trim(dueDate)
  {
    match ParseDate(dueDate)
    case None => Failure(InvalidDate)
    case Some(d) => Success(Deadline(d))
  }

  /** The Event constructor's date checks: both dates must parse; their order is not checked here. */
  function EventKind(from: string, to: string): (r: Result<Kind>)
    ensures r.Failure? <==> ParseDate(from).None? || ParseDate(to).None?
    ensures r.Failure? ==> r.error == InvalidDate
    ensures r.Success? ==> r.value.Event? && Iso(r.value.from) == Trim(from) && Iso(r.value.to) == Trim(to)
  {
    match ParseDate(from)
    case None => Failure(InvalidDate)
    case Some(f) =>
      match ParseDate(to)
      case None => Failure(InvalidDate)
      case Some(t) => Success(Event(f, t))
  }

  /** A task object: the description and dates are fixed, the done flag is not. */
  class Task {
    const kind: Kind
    const description: string
    var isDone: bool

    /** Every new task starts not done. */
    constructor (kind: Kind, description: string)
      ensures this.kind == kind && this.description == description
      ensures !isDone
    {
      this.kind := kind;
      this.description := description;
      isDone := false;
    }

    method MarkAsDone()
      modifies this
      ensures isDone
    {
      isDone := true;
    }

    method MarkAsNotDone()
      modifies this
      ensures !isDone
    {
      isDone := false;
    }

    function Data(): TaskData
      reads this
    {
      TaskData(kind, description, isDone)
    }
  }

  // ---------------------------------------------------------------- properties

  /** The first seven characters of the displayed line: type tag and status box. */
  function DisplayHead(t: TaskData): string
  {
    t.TypeTag() + "[" + t.StatusIcon() + "] "
  }

  lemma DisplayHeadShape(t: TaskData)
    ensures var h := DisplayHead(t);
      |h| == 7 && h[..3] == t.TypeTag() && h[3] == '[' && h[5..7] == "] "
      && h[4] == (if t.isDone then 'X' else ' ')
  {
    var tag := t.TypeTag();
    assert |tag| == 3;
    var h := DisplayHead(t);
    assert h == tag + ("[" + t.StatusIcon() + "] ");
  }

  /** The displayed line starts with the type tag and the status box, then the description. */
  lemma ToStringLayout(t: TaskData)
    ensures var r := t.ToString();
      && |r| >= 7 + |t.description|
      && r[..3] == t.TypeTag() && r[3] == '[' && r[5..7] == "] "
      && r[4] == (if t.isDone then 'X' else ' ')
      && r[7..7 + |t.description|] == t.description
      && (t.kind.ToDo? ==> |r| == 7 + |t.description|)
  {
    var h := DisplayHead(t);
    DisplayHeadShape(t);
    var r := t.ToString();
    assert r == h + t.description + t.DisplaySuffix();
    assert r[..7] == h;
    assert r[7..7 + |t.description|] == t.description;
  }

  /** The saved line starts with the type letter and the status digit, then the description. */
  lemma ToFileFormatLayout(t: TaskData)
    ensures var r := t.ToFileFormat();
      && |r| >= 8 + |t.description|
      && r[..1] == t.TypeLetter() && r[1..4] == " | " && r[5..8] == " | "
      && r[4] == (if t.isDone then '1' else '0')
      && r[8..8 + |t.description|] == t.description
  {
  }

  /** Marking or unmarking changes exactly one character of the displayed line. */
  lemma ToStringDoneFlag(t: TaskData, b: bool)
    ensures |t.(isDone := b).ToString()| == |t.ToString()|
    ensures forall i :: 0 <= i < |t.ToString()| && i != 4 ==> t.(isDone := b).ToString()[i] == t.ToString()[i]
    ensures t.(isDone := b).ToString()[4] == (if b then 'X' else ' ')
  {
    var u := t.(isDone := b);
    DisplayParts(t);
    DisplayParts(u);
    DisplayHeadFlag(t, b);
    assert u.DisplaySuffix() == t.DisplaySuffix();
    ReplaceAt(DisplayHead(t), DisplayHead(u), t.description, t.DisplaySuffix(), 4);
  }

  lemma DisplayHeadFlag(t: TaskData, b: bool)
    ensures |DisplayHead(t.(isDone := b))| == 7 == |DisplayHead(t)|
    ensures forall i :: 0 <= i < 7 && i != 4 ==> DisplayHead(t.(isDone := b))[i] == DisplayHead(t)[i]
    ensures DisplayHead(t.(isDone := b))[4] == (if b then 'X' else ' ')
  {
    var tag := t.TypeTag();
    assert |tag| == 3 && t.(isDone := b).TypeTag() == tag;
  }

  /** Strings that differ only at k, extended by the same two strings, still differ only at k. */
  lemma ReplaceAt(a: string, a2: string, x: string, y: string, k: nat)
    requires |a| == |a2| && k < |a|
    requires forall i :: 0 <= i < |a| && i != k ==> a2[i] == a[i]
    ensures |a2 + x + y| == |a + x + y| && (a2 + x + y)[k] == a2[k]
    ensures forall i :: 0 <= i < |a + x + y| && i != k ==> (a2 + x + y)[i] == (a + x + y)[i]
  {
  }

  /** The first five characters of the saved line: type letter and status digit. */
  function FileHead(t: TaskData): string
  {
    t.TypeLetter() + " | " + (if t.isDone then "1" else "0")
  }

  /** Marking or unmarking changes exactly one character of the saved line. */
  lemma ToFileFormatDoneFlag(t: TaskData, b: bool)
    ensures |t.(isDone := b).ToFileFormat()| == |t.ToFileFormat()|
    ensures forall i :: 0 <= i < |t.ToFileFormat()| && i != 4 ==> t.(isDone := b).ToFileFormat()[i] == t.ToFileFormat()[i]
    ensures t.(isDone := b).ToFileFormat()[4] == (if b then '1' else '0')
  {
    var u := t.(isDone := b);
    FileParts(t);
    FileParts(u);
    FileHeadFlag(t, b);
    assert u.DateFields() == t.DateFields();
    ReplaceAt(FileHead(t), FileHead(u), " | " + t.description, t.DateFields(), 4);
  }

  lemma FileHeadFlag(t: TaskData, b: bool)
    ensures |FileHead(t.(isDone := b))| == 5 == |FileHead(t)|
    ensures forall i :: 0 <= i < 5 && i != 4 ==> FileHead(t.(isDone := b))[i] == FileHead(t)[i]
    ensures FileHead(t.(isDone := b))[4] == (if b then '1' else '0')
  {
    var letter := t.TypeLetter();
    assert |letter| == 1 && t.(isDone := b).TypeLetter() == letter;
  }

  /** The to-do display example of the unit tests, not done. */
  lemma ToDoDisplayExample()
    ensures TaskData(ToDo, "Buy groceries", false).ToString() == "[T][ ] Buy groceries"
  {
    var t := TaskData(ToDo, "Buy groceries", false);
    assert t.ToString() == "[T][ ] " + "Buy groceries";
  }

  /** The to-do display example of the unit tests, done. */
  lemma ToDoDoneDisplayExample()
    ensures TaskData(ToDo, "Buy groceries", true).ToString() == "[T][X] Buy groceries"
  {
    var t := TaskData(ToDo, "Buy groceries", true);
    assert t.ToString() == "[T][X] " + "Buy groceries";
  }

  /** The to-do save-file example of the unit tests. */
  lemma ToDoFileExample()
    ensures TaskData(ToDo, "Complete assignment", true).ToFileFormat() == "T | 1 | Complete assignment"
  {
    var t := TaskData(ToDo, "Complete assignment", true);
    assert t.ToFileFormat() == "T | 1 | " + "Complete assignment";
  }

  /** A pipe in the description is written to the file as is. */
  lemma ToDoPipeFileExample()
    ensures TaskData(ToDo, "Task with | pipe", false).ToFileFormat() == "T | 0 | Task with | pipe"
  {
    var t := TaskData(ToDo, "Task with | pipe", false);
    assert t.ToFileFormat() == "T | 0 | " + "Task with | pipe";
  }

  /** The deadline display example of the unit tests. */
  lemma DeadlineDisplayExample()
    ensures TaskData(Deadline(CalendarDate(2024, 3, 15)), "Submit report", false).ToString()
            == "[D][ ] Submit report (by: Mar 15 2024)"
  {
    var t := TaskData(Deadline(CalendarDate(2024, 3, 15)), "Submit report", false);
    DisplayExample();
    DeadlineShownSuffix(t);
    DeadlineHead(t);
    DisplayParts(t);
    DeadlineShownText();
  }

  lemma DeadlineShownSuffix(t: TaskData)
    requires t.kind.Deadline? && Display(t.kind.due) == "Mar 15 2024"
    ensures t.DisplaySuffix() == " (by: Mar 15 2024)"
  {
    var shown := Display(t.kind.due);
    assert t.DisplaySuffix() == " (by: " + shown + ")";
  }

  lemma DeadlineHead(t: TaskData)
    requires t.kind.Deadline? && !t.isDone
    ensures DisplayHead(t) == "[D][ ] "
  {
  }

  lemma DisplayParts(t: TaskData)
    ensures t.ToString() == DisplayHead(t) + t.description + t.DisplaySuffix()
  {
  }

  lemma DeadlineShownText()
    ensures "[D][ ] " + "Submit report" + " (by: Mar 15 2024)" == "[D][ ] Submit report (by: Mar 15 2024)"
  {
  }

  /** The deadline save-file example of the unit tests: the date is written in ISO form. */
  lemma DeadlineFileExample()
    ensures TaskData(Deadline(CalendarDate(2024, 5, 10)), "Return book", true).ToFileFormat()
            == "D | 1 | Return book | 2024-05-10"
  {
    var t := TaskData(Deadline(CalendarDate(2024, 5, 10)), "Return book", true);
    IsoExample();
    DeadlineSavedFields(t);
    DeadlineFileHead(t);
    FileParts(t);
    DeadlineSavedText();
  }

  lemma DeadlineSavedFields(t: TaskData)
    requires t.kind.Deadline? && Iso(t.kind.due) == "2024-05-10"
    ensures t.DateFields() == " | 2024-05-10"
  {
    var iso := Iso(t.kind.due);
    assert t.DateFields() == " | " + iso;
  }

  lemma DeadlineFileHead(t: TaskData)
    requires t.kind.Deadline? && t.isDone
    ensures FileHead(t) == "D | 1"
  {
  }

  lemma FileParts(t: TaskData)
    ensures t.ToFileFormat() == FileHead(t) + (" | " + t.description) + t.DateFields()
  {
  }

  lemma DeadlineSavedText()
    ensures "D | 1" + (" | " + "Return book") + " | 2024-05-10" == "D | 1 | Return book | 2024-05-10"
  {
  }

  /** The due dates of the unit tests: ISO accepted, day-first rejected. */
  lemma DeadlineDateExamples()
    ensures DeadlineKind("2024-03-15") == Success(Deadline(CalendarDate(2024, 3, 15)))
    ensures DeadlineKind("15-03-2024") == Failure(InvalidDate)
  {
    var d := CalendarDate(2024, 3, 15);
    ParseDateIso(d);
    assert Iso(d) == "2024-03-15";
    var bad := "15-03-2024";
    TrimOfTrimmed(bad);
  }
}
