// The earlier, unpackaged storage. It writes a task's line exactly as the
// packaged storage does, but reads the type, status and description fields
// back as split gives them, without trimming them first.

module LegacyStorage {
  import opened Wrappers
  import opened JavaStrings
  import opened Tasks
  import S = Storage

  /** parseLine of the legacy storage: only the date fields are trimmed. */
  function ParseLine(line: string): (r: Option<TaskData>)
    ensures |SplitChar(line, '|')| < 3 ==> r.None?
  {
    var parts := SplitChar(line, '|');
    if |parts| < 3 then None
    else
      match S.KindOf(parts[0], parts)
      case None => None
      case Some(k) => Some(TaskData(k, parts[2], parts[1] == "1"))
  }

  /** What an accepted line holds: the type letter alone, and a status of exactly "1" for a done task. */
  lemma LineFields(line: string)
    requires ParseLine(line).Some?
    ensures var parts := SplitChar(line, '|'); var t := ParseLine(line).value;
      && |parts| == S.FieldCount(t.kind)
      && parts[0] == t.TypeLetter()
      && (t.isDone <==> parts[1] == "1")
      && t.description == parts[2]
  {
    var t := ParseLine(line).value;
    assert TaskData(t.kind, [], false).TypeLetter() == t.TypeLetter();
  }

  /**
   * Whatever the legacy parse accepts, the packaged parse accepts too, with
   * the same kind, the description trimmed, and a done task still done.
   */
  lemma AcceptedByPackaged(line: string)
    requires ParseLine(line).Some?
    ensures S.ParseLine(line).Some?
    ensures S.ParseLine(line).value.kind == ParseLine(line).value.kind
    ensures S.ParseLine(line).value.description == Trim(ParseLine(line).value.description)
    ensures ParseLine(line).value.isDone ==> S.ParseLine(line).value.isDone
  {
    var parts := SplitChar(line, '|');
    var t := ParseLine(line).value;
    LineFields(line);
    var letter := t.TypeLetter();
    TrimOfTrimmed(letter);
    if t.isDone {
      TrimOfTrimmed("1");
    }
    LineHasLetter(line, parts);
    TrimNonEmpty(line);
  }

  /** A line whose first field is one letter does not start with a blank. */
  lemma LineHasLetter(line: string, parts: seq<string>)
    requires parts == SplitChar(line, '|') && |parts| >= 1 && |parts[0]| == 1 && !IsTrimChar(parts[0][0])
    ensures line != [] && !IsTrimChar(line[0])
  {
    SplitCharPrefix(line, '|');
    assert line[0] == parts[0][0];
  }

  /** Every line the save writes is rejected on load: its type field is the letter followed by a space. */
  lemma SavedLineRejected(t: TaskData)
    ensures ParseLine(t.ToFileFormat()) == None
  {
    SavedHead(t);
    SplitCharHead(t.TypeLetter() + " ", '|', SavedTail(t));
  }

  /** What follows the first '|' of a saved line. */
  function SavedTail(t: TaskData): string
  {
    " " + (if t.isDone then "1" else "0") + " | " + t.description + t.DateFields()
  }

  /** A saved line is the type letter and a space, then a '|', then the rest. */
  lemma SavedHead(t: TaskData)
    ensures t.ToFileFormat() == (t.TypeLetter() + " ") + ['|'] + SavedTail(t)
  {
    var flag := if t.isDone then "1" else "0";
    S.Spaced(t.TypeLetter(), flag + " | " + t.description + t.DateFields());
  }

  /** So a file the program saved loads back empty, whatever it held. */
  lemma SavedFileLoadsEmpty(ts: seq<TaskData>)
    ensures Load(S.SaveLines(ts)) == []
  {
    var rs := S.Results(ParseLine, S.SaveLines(ts));
    forall i | 0 <= i < |rs|
      ensures rs[i] == None
    {
      SavedLineRejected(ts[i]);
    }
    NoneKept(rs);
  }

  lemma {:induction false} NoneKept(rs: seq<Option<TaskData>>)
    requires forall i :: 0 <= i < |rs| ==> rs[i] == None
    ensures S.Kept(rs) == []
  {
    if rs != [] {
      NoneKept(rs[..|rs| - 1]);
    }
  }

  // ---------------------------------------------------------------- load

  /** The tasks the legacy load produces: the lines that decode, in file order. */
  function Load(lines: seq<string>): (r: seq<TaskData>)
    ensures |r| <= |lines|
  {
    S.Kept(S.Results(ParseLine, lines))
  }

  lemma LoadStep(lines: seq<string>, i: nat)
    requires i < |lines|
    ensures Load(lines[..i + 1]) == Load(lines[..i]) + S.Held(ParseLine(lines[i]))
  {
    S.DecodeStep(ParseLine, lines, i);
  }

  /** parseLine: a new task object, marked done when the status field is exactly "1". */
  method ParseLineTask(line: string) returns (task: Option<Task>)
    ensures task.None? <==> ParseLine(line).None?
    ensures task.Some? ==> fresh(task.value) && task.value.Data() == ParseLine(line).value
  {
    var parts := SplitChar(line, '|');
    if |parts| < 3 {
      return None;
    }
    var kind := S.KindOf(parts[0], parts);
    if kind.None? {
      return None;
    }
    var created := new Task(kind.value, parts[2]);
    if parts[1] == "1" {
      created.MarkAsDone();
    }
    return Some(created);
  }

  /** One pass of the loop in loadTasks: parse the line, add the task unless it is null. */
  method AddParsed(line: string, tasks: seq<Task>) returns (result: seq<Task>)
    ensures S.DataOf(result) == S.DataOf(tasks) + S.Held(ParseLine(line))
    ensures S.Appended(tasks, result) && forall k :: |tasks| <= k < |result| ==> fresh(result[k])
  {
    var task := ParseLineTask(line);
    var held := S.Held(ParseLine(line));
    if task.Some? {
      result := tasks + [task.value];
      assert result[..|tasks|] == tasks;
      S.DataOfConcat(tasks, [task.value]);
      assert held == [task.value.Data()];
    } else {
      result := tasks;
      assert held == [];
      assert S.DataOf(tasks) + [] == S.DataOf(tasks);
    }
  }

  /** loadTasks: a missing file is an empty list; otherwise every line is tried in turn. */
  method LoadTasks(fileExists: bool, lines: seq<string>) returns (tasks: seq<Task>)
    ensures !fileExists ==> tasks == []
    ensures fileExists ==> S.DataOf(tasks) == Load(lines)
    ensures S.Distinct(tasks) && forall i :: 0 <= i < |tasks| ==> fresh(tasks[i])
  {
    tasks := [];
    if !fileExists {
      return;
    }
    var i := 0;
    while i < |lines|
      invariant 0 <= i <= |lines|
      invariant S.DataOf(tasks) == Load(lines[..i])
      invariant S.Distinct(tasks) && forall k :: 0 <= k < |tasks| ==> fresh(tasks[k])
    {
      var before := tasks;
      tasks := AddParsed(lines[i], tasks);
      S.AppendedDistinct(before, tasks);
      LoadStep(lines, i);
      i := i + 1;
    }
    assert lines[..i] == lines;
  }
}
