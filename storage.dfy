// The save file: one line per task, fields separated by '|'. A line is
// decoded on its own; a line that does not decode is skipped and the load
// goes on with the next one. Saving writes each task's file format in list
// order. File access is not modelled: a load starts from the lines the file
// holds (and whether it exists), a save ends with the lines to be written.

module Storage {
  import opened Wrappers
  import opened JavaStrings
  import opened Dates
  import opened Tasks

  // ---------------------------------------------------------------- one line

  /** How many '|'-fields a task of this kind is saved with. */
  function FieldCount(k: Kind): nat
  {
    match k
    case ToDo => 3
    case Deadline(_) => 4
    case Event(_, _) => 5
  }

  /**
   * parseTaskByType with parseTodoLine, parseDeadlineLine and parseEventLine:
   * the type code picks the kind, the field count must be exact for it, and
   * the date fields are trimmed and must parse.
   */
  function KindOf(typeCode: string, parts: seq<string>): (r: Option<Kind>)
    ensures r.Some? ==> |parts| == FieldCount(r.value)
    ensures r.Some? ==> typeCode == TaskData(r.value, [], false).TypeLetter()
  {
    if typeCode == "T" then
      if |parts| == 3 then Some(ToDo) else None
    else if typeCode == "D" then
      if |parts| == 4 then
        match DeadlineKind(Trim(parts[3]))
        case Failure(_) => None
        case Success(k) => Some(k)
      else None
    else if typeCode == "E" then
      if |parts| == 5 then
        match EventKind(Trim(parts[3]), Trim(parts[4]))
        case Failure(_) => None
        case Success(k) => Some(k)
      else None
    else None
  }

  /**
   * hasMinimumRequiredParts and createTaskFromParts: at least three fields;
   * type, status and description are trimmed; the task is done exactly when
   * the status is "1".
   */
  function CreateTask(parts: seq<string>): (r: Option<TaskData>)
    ensures |parts| < 3 ==> r == None
  {
    if |parts| < 3 then None
    else
      match KindOf(Trim(parts[0]), parts)
      case None => None
      case Some(k) => Some(TaskData(k, Trim(parts[2]), Trim(parts[1]) == "1"))
  }

  /** Storage.parseLine: None for a line the load skips. */
  function ParseLine(line: string): (r: Option<TaskData>)
    ensures Trim(line) == [] ==> r == None
  {
    if Trim(line) == [] then None else CreateTask(SplitChar(line, '|'))
  }

  /** What parseLine reads out of a line it accepts, field by field. */
  lemma LineFields(line: string)
    requires ParseLine(line).Some?
    ensures var parts := SplitChar(line, '|'); var t := ParseLine(line).value;
      && Trim(line) != []
      && |parts| == FieldCount(t.kind)
      && Trim(parts[0]) == t.TypeLetter()
      && (t.isDone <==> Trim(parts[1]) == "1")
      && t.description == Trim(parts[2])
      && (t.kind.Deadline? ==> Iso(t.kind.due) == Trim(parts[3]))
      && (t.kind.Event? ==> Iso(t.kind.from) == Trim(parts[3]) && Iso(t.kind.to) == Trim(parts[4]))
  {
    var parts := SplitChar(line, '|');
    var t := ParseLine(line).value;
    assert TaskData(t.kind, [], false).TypeLetter() == t.TypeLetter();
    if t.kind.Deadline? {
      TrimIdempotent(parts[3]);
    } else if t.kind.Event? {
      TrimIdempotent(parts[3]);
      TrimIdempotent(parts[4]);
    }
  }

  /** A line whose trimmed type code is not T, D or E is skipped. */
  lemma UnknownTypeSkipped(line: string)
    requires var parts := SplitChar(line, '|');
      |parts| >= 3 && Trim(parts[0]) != "T" && Trim(parts[0]) != "D" && Trim(parts[0]) != "E"
    ensures ParseLine(line) == None
  {
  }

  /** A deadline line with the right field count is skipped exactly when its date does not parse. */
  lemma DeadlineDateChecked(line: string)
    requires var parts := SplitChar(line, '|');
      Trim(line) != [] && |parts| == 4 && Trim(parts[0]) == "D"
    ensures ParseLine(line).None? <==> ParseDate(Trim(SplitChar(line, '|')[3])).None?
  {
  }

  /** An event line with the right field count is skipped exactly when a date does not parse; the order is not checked. */
  lemma EventDatesChecked(line: string)
    requires var parts := SplitChar(line, '|');
      Trim(line) != [] && |parts| == 5 && Trim(parts[0]) == "E"
    ensures var parts := SplitChar(line, '|');
      ParseLine(line).None? <==> ParseDate(Trim(parts[3])).None? || ParseDate(Trim(parts[4])).None?
  {
  }

  // ---------------------------------------------------------------- restorable tasks

  /** A task the line codec reproduces: its description is trimmed and holds no '|'. */
  predicate Restorable(t: TaskData)
  {
    IsTrimmed(t.description) && '|' !in t.description
  }

  /** Every task parseLine produces is restorable. */
  lemma ParsedIsRestorable(line: string)
    requires ParseLine(line).Some?
    ensures Restorable(ParseLine(line).value)
  {
    var parts := SplitChar(line, '|');
    LineFields(line);
    TrimKeepsOut(parts[2], '|');
  }

  /** Trimming never brings in a character. */
  lemma TrimKeepsOut(s: string, c: char)
    requires c !in s
    ensures c !in Trim(s)
  {
    TrimSlice(s);
    var i, j :| 0 <= i <= j <= |s| && Trim(s) == s[i..j];
  }

  /** The fields of t's save-file line, untrimmed, as split("\\|") gives them back. */
  function Fields(t: TaskData): (r: seq<string>)
    ensures |r| == FieldCount(t.kind)
  {
    var head := t.TypeLetter() + " ";
    var status := " " + (if t.isDone then "1" else "0") + " ";
    match t.kind
    case ToDo => [head, status, " " + t.description]
    case Deadline(due) => [head, status, " " + t.description + " ", " " + Iso(due)]
    case Event(from, to) => [head, status, " " + t.description + " ", " " + Iso(from) + " ", " " + Iso(to)]
  }

  /** The fields joined by '|'. */
  function JoinBar(fields: seq<string>): string
    requires |fields| >= 1
  {
    if |fields| == 1 then fields[0] else fields[0] + "|" + JoinBar(fields[1..])
  }

  lemma Join3(a: string, b: string, c: string)
    ensures JoinBar([a, b, c]) == a + "|" + (b + "|" + c)
  {
    assert [a, b, c][1..] == [b, c];
    assert [b, c][1..] == [c];
    assert JoinBar([c]) == c;
    assert JoinBar([b, c]) == b + "|" + c;
  }

  lemma Join4(a: string, b: string, c: string, d: string)
    ensures JoinBar([a, b, c, d]) == a + "|" + JoinBar([b, c, d])
  {
    assert [a, b, c, d][1..] == [b, c, d];
  }

  lemma Join5(a: string, b: string, c: string, d: string, e: string)
    ensures JoinBar([a, b, c, d, e]) == a + "|" + JoinBar([b, c, d, e])
  {
    assert [a, b, c, d, e][1..] == [b, c, d, e];
  }

  /** " | " is a '|' with a space on either side. */
  lemma Spaced(x: string, y: string)
    ensures x + " | " + y == (x + " ") + "|" + (" " + y)
  {
  }

  lemma Spaced3(x: string, y: string, z: string)
    ensures x + " | " + y + " | " + z + "" == (x + " ") + "|" + ((" " + y + " ") + "|" + (" " + z))
  {
    Spaced(x, y);
    Spaced(x + " | " + y, z);
  }

  lemma Spaced4(x: string, y: string, z: string, w: string)
    ensures x + " | " + y + " | " + z + (" | " + w)
         == (x + " ") + "|" + ((" " + y + " ") + "|" + ((" " + z + " ") + "|" + (" " + w)))
  {
    Spaced(x, y);
    Spaced(x + " | " + y, z);
    Spaced(x + " | " + y + " | " + z, w);
  }

  lemma Spaced5(x: string, y: string, z: string, v: string, w: string)
    ensures x + " | " + y + " | " + z + (" | " + v + " | " + w)
         == (x + " ") + "|" + ((" " + y + " ") + "|" + ((" " + z + " ") + "|" + ((" " + v + " ") + "|" + (" " + w))))
  {
    Spaced(x, y);
    Spaced(x + " | " + y, z);
    Spaced(x + " | " + y + " | " + z, v);
    Spaced(x + " | " + y + " | " + z + " | " + v, w);
  }

  /** toFileFormat is the join of the fields, since " | " is a '|' between two spaces. */
  lemma FileFormatFields(t: TaskData)
    ensures t.ToFileFormat() == JoinBar(Fields(t))
  {
    var letter := t.TypeLetter();
    var flag := if t.isDone then "1" else "0";
    var d := t.description;
    match t.kind
    case ToDo =>
      Spaced3(letter, flag, d);
      Join3(letter + " ", " " + flag + " ", " " + d);
    case Deadline(due) =>
      Spaced4(letter, flag, d, Iso(due));
      Join4(letter + " ", " " + flag + " ", " " + d + " ", " " + Iso(due));
      Join3(" " + flag + " ", " " + d + " ", " " + Iso(due));
    case Event(from, to) =>
      Spaced5(letter, flag, d, Iso(from), Iso(to));
      Join5(letter + " ", " " + flag + " ", " " + d + " ", " " + Iso(from) + " ", " " + Iso(to));
      Join4(" " + flag + " ", " " + d + " ", " " + Iso(from) + " ", " " + Iso(to));
      Join3(" " + d + " ", " " + Iso(from) + " ", " " + Iso(to));
  }

  /** Cutting a join of '|'-free fields at every '|' gives the fields back. */
  lemma {:induction false} PiecesJoin(fields: seq<string>)
    requires |fields| >= 1
    requires forall i :: 0 <= i < |fields| ==> '|' !in fields[i]
    ensures Pieces(JoinBar(fields), '|') == fields
  {
    if |fields| == 1 {
      PiecesNone(fields[0], '|');
    } else {
      var rest := fields[1..];
      PiecesJoin(rest);
      assert fields[0] + "|" + JoinBar(rest) == fields[0] + ['|'] + JoinBar(rest);
      PiecesCons(fields[0], '|', JoinBar(rest));
      assert [fields[0]] + rest == fields;
    }
  }

  /** split("\\|") of such a join is the fields, when there are two or more and the last is not empty. */
  lemma SplitJoin(fields: seq<string>)
    requires |fields| >= 2 && fields[|fields| - 1] != []
    requires forall i :: 0 <= i < |fields| ==> '|' !in fields[i]
    ensures SplitChar(JoinBar(fields), '|') == fields
  {
    var s := JoinBar(fields);
    assert s == fields[0] + "|" + JoinBar(fields[1..]);
    assert s[|fields[0]|] == '|';
    PiecesJoin(fields);
  }

  /** Trimming a padded trimmed string gives it back. */
  lemma TrimPadded(w1: string, m: string, w2: string)
    requires IsTrimmed(m) && (w1 == [] || w1 == " ") && (w2 == [] || w2 == " ")
    ensures Trim(w1 + m + w2) == m
  {
    TrimSurrounded(w1, m, w2);
  }

  /** The saved fields of a task whose description holds no '|' split back exactly. */
  lemma SplitSaved(t: TaskData)
    requires '|' !in t.description
    ensures SplitChar(t.ToFileFormat(), '|') == Fields(t)
  {
    FileFormatFields(t);
    FieldsBarFree(t);
    SplitJoin(Fields(t));
  }

  /** No field of a saved line holds a '|' when the description holds none, and the last is not empty. */
  lemma FieldsBarFree(t: TaskData)
    requires '|' !in t.description
    ensures var f := Fields(t); |f| >= 2 && f[|f| - 1] != []
    ensures forall i :: 0 <= i < |Fields(t)| ==> '|' !in Fields(t)[i]
  {
    var letter := t.TypeLetter();
    assert '|' !in letter;
    match t.kind
    case ToDo =>
    case Deadline(due) =>
      IsoBarFree(due);
    case Event(from, to) =>
      IsoBarFree(from);
      IsoBarFree(to);
  }

  /** A date in ISO form is digits and dashes only. */
  lemma IsoBarFree(d: Date)
    ensures '|' !in Iso(d)
  {
    var y, m, n := Pad4(d.year), Pad2(d.month), Pad2(d.day);
    assert Iso(d) == y + "-" + m + "-" + n;
    assert '|' !in y && '|' !in m && '|' !in n;
  }

  /** createTaskFromParts on fields whose kind decodes and whose trimmed status and description are known. */
  lemma CreateOf(parts: seq<string>, k: Kind, d: string, b: bool)
    requires |parts| >= 3 && KindOf(Trim(parts[0]), parts) == Some(k)
    requires Trim(parts[2]) == d && (Trim(parts[1]) == "1" <==> b)
    ensures CreateTask(parts) == Some(TaskData(k, d, b))
  {
  }

  lemma KindOfToDo(parts: seq<string>)
    requires |parts| == 3
    ensures KindOf("T", parts) == Some(ToDo)
  {
  }

  lemma KindOfDeadline(parts: seq<string>, due: Date)
    requires |parts| == 4 && Trim(parts[3]) == Iso(due)
    ensures KindOf("D", parts) == Some(Deadline(due))
  {
    ParseDateIso(due);
  }

  lemma KindOfEvent(parts: seq<string>, from: Date, to: Date)
    requires |parts| == 5 && Trim(parts[3]) == Iso(from) && Trim(parts[4]) == Iso(to)
    ensures KindOf("E", parts) == Some(Event(from, to))
  {
    ParseDateIso(from);
    ParseDateIso(to);
  }

  lemma IsoTrimmed(d: Date)
    ensures IsTrimmed(Iso(d))
  {
  }

  /** The type and status fields of a saved line trim to the type letter and the flag. */
  lemma HeadFieldsTrim(t: TaskData)
    ensures Trim(Fields(t)[0]) == t.TypeLetter()
    ensures Trim(Fields(t)[1]) == "1" <==> t.isDone
  {
    var f := Fields(t);
    var flag := if t.isDone then "1" else "0";
    TrimPadded([], t.TypeLetter(), " ");
    assert f[0] == [] + t.TypeLetter() + " ";
    TrimPadded(" ", flag, " ");
  }

  /** The kind fields of a saved line decode to the task's kind. */
  lemma KindFieldsDecode(t: TaskData)
    ensures KindOf(t.TypeLetter(), Fields(t)) == Some(t.kind)
  {
    var f := Fields(t);
    match t.kind
    case ToDo =>
      KindOfToDo(f);
    case Deadline(due) =>
      IsoTrimmed(due);
      TrimPadded(" ", Iso(due), []);
      assert f[3] == " " + Iso(due) + [];
      KindOfDeadline(f, due);
    case Event(from, to) =>
      IsoTrimmed(from);
      IsoTrimmed(to);
      TrimPadded(" ", Iso(from), " ");
      TrimPadded(" ", Iso(to), []);
      assert f[4] == " " + Iso(to) + [];
      KindOfEvent(f, from, to);
  }

  /** The description field of a saved line trims to a trimmed description. */
  lemma DescriptionFieldTrims(t: TaskData)
    requires IsTrimmed(t.description)
    ensures Trim(Fields(t)[2]) == t.description
  {
    var f := Fields(t);
    if t.kind.ToDo? {
      TrimPadded(" ", t.description, []);
      assert f[2] == " " + t.description + [];
    } else {
      TrimPadded(" ", t.description, " ");
    }
  }

  /** Decoding the fields of a restorable task gives the task. */
  lemma CreateSaved(t: TaskData)
    requires Restorable(t)
    ensures CreateTask(Fields(t)) == Some(t)
  {
    HeadFieldsTrim(t);
    KindFieldsDecode(t);
    DescriptionFieldTrims(t);
    CreateOf(Fields(t), t.kind, t.description, t.isDone);
  }

  /** Decoding the saved line of a restorable task gives the task back. */
  lemma DecodeSaved(t: TaskData)
    requires Restorable(t)
    ensures ParseLine(t.ToFileFormat()) == Some(t)
  {
    var line := t.ToFileFormat();
    SplitSaved(t);
    CreateSaved(t);
    LineStartsWithLetter(t);
    TrimNonEmpty(line);
  }

  lemma LineStartsWithLetter(t: TaskData)
    ensures |t.ToFileFormat()| > 0 && !IsTrimChar(t.ToFileFormat()[0])
  {
    ToFileFormatLayout(t);
  }

  /**
   * The line codec round-trips exactly the restorable tasks: a description
   * with surrounding blanks comes back trimmed, and one holding '|' comes
   * back changed or not at all.
   */
  lemma LineRoundTrip(t: TaskData)
    ensures ParseLine(t.ToFileFormat()) == Some(t) <==> Restorable(t)
  {
    if Restorable(t) {
      DecodeSaved(t);
    } else if ParseLine(t.ToFileFormat()) == Some(t) {
      ParsedIsRestorable(t.ToFileFormat());
    }
  }

  /** A to-do whose description holds a '|' splits into four fields and is dropped on reload. */
  lemma PipeToDoDropped(a: string, b: string, done: bool)
    requires '|' !in a && '|' !in b && b != []
    ensures ParseLine(TaskData(ToDo, a + "|" + b, done).ToFileFormat()) == None
  {
    var flag := if done then "1" else "0";
    var f := ["T ", " " + flag + " ", " " + a, b];
    PipeToDoFields(a, b, done);
    assert forall i :: 0 <= i < |f| ==> '|' !in f[i];
    SplitJoin(f);
    ToDoInFourFields(f);
  }

  /**
   * A '|' at the very end of a to-do's description leaves an empty last field,
   * which split drops: the to-do comes back, its description the trimmed text before the '|'.
   */
  lemma PipeAtEndKept(a: string, done: bool)
    requires '|' !in a
    ensures ParseLine(TaskData(ToDo, a + "|", done).ToFileFormat()) == Some(TaskData(ToDo, Trim(a), done))
  {
    var t := TaskData(ToDo, a, done);
    var line := TaskData(ToDo, a + "|", done).ToFileFormat();
    PipeAtEndSplit(a, done);
    HeadFieldsTrim(t);
    KindOfToDo(Fields(t));
    TrimLeadingBlank(a);
    CreateOf(Fields(t), ToDo, Trim(a), done);
    LineStartsWithLetter(TaskData(ToDo, a + "|", done));
    TrimNonEmpty(line);
  }

  /** The saved line of a to-do ending in '|' splits into the fields of the to-do without it. */
  lemma PipeAtEndSplit(a: string, done: bool)
    requires '|' !in a
    ensures SplitChar(TaskData(ToDo, a + "|", done).ToFileFormat(), '|') == Fields(TaskData(ToDo, a, done))
  {
    var flag := if done then "1" else "0";
    var f := ["T ", " " + flag + " ", " " + a, ""];
    var line := TaskData(ToDo, a + "|", done).ToFileFormat();
    assert a + "|" + "" == a + "|";
    PipeToDoFields(a, "", done);
    assert forall i :: 0 <= i < |f| ==> '|' !in f[i];
    PiecesJoin(f);
    assert line[|f[0]|] == '|';
    assert '|' in line;
    assert Pieces(line, '|') == f;
    assert f[..3][2] != [] && f[..4] == f;
    assert DropTrailingEmpty(f) == f[..3];
    assert TaskData(ToDo, a, done).TypeLetter() == "T";
    var g := Fields(TaskData(ToDo, a, done));
    assert g == [TaskData(ToDo, a, done).TypeLetter() + " ", " " + flag + " ", " " + a];
    assert g[0] == "T ";
    assert f[..3] == g;
  }

  /** The saved line of such a to-do is a join of four fields. */
  lemma PipeToDoFields(a: string, b: string, done: bool)
    ensures var flag := if done then "1" else "0";
      TaskData(ToDo, a + "|" + b, done).ToFileFormat() == JoinBar(["T ", " " + flag + " ", " " + a, b])
  {
    var flag := if done then "1" else "0";
    var f := ["T ", " " + flag + " ", " " + a, b];
    Spaced3("T", flag, a + "|" + b);
    Join4(f[0], f[1], f[2], f[3]);
    Join3(f[1], f[2], f[3]);
  }

  /** Four fields under the to-do letter do not make a task. */
  lemma ToDoInFourFields(f: seq<string>)
    requires |f| == 4 && f[0] == "T "
    ensures CreateTask(f) == None
  {
    TrimPadded([], "T", " ");
    assert f[0] == [] + "T" + " ";
  }

  // ---------------------------------------------------------------- load

  /** What a line decoder makes of each line, in file order. */
  function Results(decode: string -> Option<TaskData>, lines: seq<string>): (r: seq<Option<TaskData>>)
    ensures |r| == |lines|
  {
    seq(|lines|, i requires 0 <= i < |lines| => decode(lines[i]))
  }

  /** The task a result holds, if any. */
  function Held(o: Option<TaskData>): (r: seq<TaskData>)
    ensures |r| <= 1
  {
    match o
    case None => []
    case Some(t) => [t]
  }

  /** The tasks among the results, in order: addTaskIfValid keeps exactly the non-null ones. */
  function Kept(rs: seq<Option<TaskData>>): (r: seq<TaskData>)
    ensures |r| <= |rs|
  {
    if rs == [] then [] else Kept(rs[..|rs| - 1]) + Held(rs[|rs| - 1])
  }

  /** The tasks a load produces: the lines that decode, in file order. */
  function Load(lines: seq<string>): (r: seq<TaskData>)
    ensures |r| <= |lines|
  {
    Kept(Results(ParseLine, lines))
  }

  lemma {:induction false} KeptConcat(x: seq<Option<TaskData>>, y: seq<Option<TaskData>>)
    ensures Kept(x + y) == Kept(x) + Kept(y)
  {
    if y == [] {
      assert x + y == x;
    } else {
      var y' := y[..|y| - 1];
      assert (x + y)[..|x + y| - 1] == x + y';
      assert (x + y)[|x + y| - 1] == y[|y| - 1];
      KeptConcat(x, y');
    }
  }

  lemma ResultsConcat(decode: string -> Option<TaskData>, a: seq<string>, b: seq<string>)
    ensures Results(decode, a + b) == Results(decode, a) + Results(decode, b)
  {
    var x := Results(decode, a + b);
    var y := Results(decode, a) + Results(decode, b);
    forall i | 0 <= i < |x|
      ensures x[i] == y[i]
    {
      if i < |a| {
        assert (a + b)[i] == a[i];
      } else {
        assert (a + b)[i] == b[i - |a|];
      }
    }
  }

  /** The results of one line. */
  lemma ResultsOne(decode: string -> Option<TaskData>, line: string)
    ensures Results(decode, [line]) == [decode(line)]
  {
    assert Results(decode, [line])[0] == decode(line);
  }

  /** Loading two stretches of lines is loading each in turn. */
  lemma LoadConcat(a: seq<string>, b: seq<string>)
    ensures Load(a + b) == Load(a) + Load(b)
  {
    ResultsConcat(ParseLine, a, b);
    KeptConcat(Results(ParseLine, a), Results(ParseLine, b));
  }

  /** A single line loads as what it decodes to. */
  lemma LoadOne(line: string)
    ensures Load([line]) == Held(ParseLine(line))
  {
    var rs := Results(ParseLine, [line]);
    ResultsOne(ParseLine, line);
    assert rs[..0] == [];
  }

  /** One more line adds what that line decodes to, if anything. */
  lemma LoadStep(lines: seq<string>, i: nat)
    requires i < |lines|
    ensures Load(lines[..i + 1]) == Load(lines[..i]) + Held(ParseLine(lines[i]))
  {
    DecodeStep(ParseLine, lines, i);
  }

  /** The same step for any line decoder. */
  lemma DecodeStep(decode: string -> Option<TaskData>, lines: seq<string>, i: nat)
    requires i < |lines|
    ensures Kept(Results(decode, lines[..i + 1])) == Kept(Results(decode, lines[..i])) + Held(decode(lines[i]))
  {
    assert lines[..i + 1] == lines[..i] + [lines[i]];
    ResultsConcat(decode, lines[..i], [lines[i]]);
    ResultsOne(decode, lines[i]);
    KeptConcat(Results(decode, lines[..i]), [decode(lines[i])]);
    assert [decode(lines[i])][..0] == [];
  }

  /** A bad line is dropped and nothing else is lost: the load does not stop there. */
  lemma BadLineSkipped(a: seq<string>, bad: string, b: seq<string>)
    requires ParseLine(bad) == None
    ensures Load(a + [bad] + b) == Load(a) + Load(b)
  {
    LoadOne(bad);
    LoadAround(a, bad, b);
  }

  lemma LoadAround(a: seq<string>, line: string, b: seq<string>)
    ensures Load(a + [line] + b) == Load(a) + Load([line]) + Load(b)
  {
    LoadConcat(a + [line], b);
    LoadConcat(a, [line]);
  }

  lemma {:induction false} KeptRestorable(rs: seq<Option<TaskData>>)
    requires forall i :: 0 <= i < |rs| && rs[i].Some? ==> Restorable(rs[i].value)
    ensures forall i :: 0 <= i < |Kept(rs)| ==> Restorable(Kept(rs)[i])
  {
    if rs != [] {
      KeptRestorable(rs[..|rs| - 1]);
    }
  }

  /** Every loaded task is restorable. */
  lemma LoadedRestorable(lines: seq<string>)
    ensures forall i :: 0 <= i < |Load(lines)| ==> Restorable(Load(lines)[i])
  {
    var rs := Results(ParseLine, lines);
    forall i | 0 <= i < |rs| && rs[i].Some?
      ensures Restorable(rs[i].value)
    {
      ParsedIsRestorable(lines[i]);
    }
    KeptRestorable(rs);
  }

  lemma {:induction false} KeptAll(rs: seq<Option<TaskData>>, ts: seq<TaskData>)
    requires |rs| == |ts| && forall i :: 0 <= i < |rs| ==> rs[i] == Some(ts[i])
    ensures Kept(rs) == ts
  {
    if rs != [] {
      KeptAll(rs[..|rs| - 1], ts[..|ts| - 1]);
      assert ts[..|ts| - 1] + [ts[|ts| - 1]] == ts;
    }
  }

  // ---------------------------------------------------------------- save

  /** An encoder applied to each task, in list order. */
  function Encoded(encode: TaskData -> string, ts: seq<TaskData>): (r: seq<string>)
    ensures |r| == |ts|
    ensures forall i :: 0 <= i < |ts| ==> r[i] == encode(ts[i])
  {
    if ts == [] then [] else Encoded(encode, ts[..|ts| - 1]) + [encode(ts[|ts| - 1])]
  }

  /** The lines a save writes: each task's file format, in list order. */
  function SaveLines(ts: seq<TaskData>): (r: seq<string>)
    ensures |r| == |ts|
    ensures forall i :: 0 <= i < |ts| ==> r[i] == ts[i].ToFileFormat()
  {
    Encoded((t: TaskData) => t.ToFileFormat(), ts)
  }

  lemma SaveLoadRestorable(ts: seq<TaskData>)
    requires forall i :: 0 <= i < |ts| ==> Restorable(ts[i])
    ensures Load(SaveLines(ts)) == ts
  {
    var lines := SaveLines(ts);
    var rs := Results(ParseLine, lines);
    forall i | 0 <= i < |rs|
      ensures rs[i] == Some(ts[i])
    {
      DecodeSaved(ts[i]);
    }
    KeptAll(rs, ts);
  }

  /**
   * Saving and loading again gives back the same tasks, in the same order,
   * exactly when every task is restorable.
   */
  lemma SaveLoad(ts: seq<TaskData>)
    ensures Load(SaveLines(ts)) == ts <==> forall i :: 0 <= i < |ts| ==> Restorable(ts[i])
  {
    if forall i :: 0 <= i < |ts| ==> Restorable(ts[i]) {
      SaveLoadRestorable(ts);
    } else if Load(SaveLines(ts)) == ts {
      LoadedRestorable(SaveLines(ts));
    }
  }

  /** A file once loaded and saved loads the same again. */
  lemma LoadSaveStable(lines: seq<string>)
    ensures Load(SaveLines(Load(lines))) == Load(lines)
  {
    LoadedRestorable(lines);
    SaveLoadRestorable(Load(lines));
  }

  // ---------------------------------------------------------------- task objects

  /** No task object occurs twice in the list. */
  predicate Distinct(ts: seq<Task>)
  {
    forall i, j :: 0 <= i < j < |ts| ==> ts[i] != ts[j]
  }

  /** result is tasks with at most one task added at the end, and that one is not already in tasks. */
  predicate Appended(tasks: seq<Task>, result: seq<Task>)
  {
    && |tasks| <= |result| <= |tasks| + 1
    && result[..|tasks|] == tasks
    && (|result| == |tasks| + 1 ==> result[|tasks|] !in tasks)
  }

  /** Adding a task not already present keeps the list free of repeats. */
  lemma AppendedDistinct(tasks: seq<Task>, result: seq<Task>)
    requires Distinct(tasks) && Appended(tasks, result)
    ensures Distinct(result)
  {
    forall i, j | 0 <= i < j < |result|
      ensures result[i] != result[j]
    {
      assert result[i] == tasks[i];
      if j < |tasks| {
        assert result[j] == tasks[j];
      }
    }
  }

  /** The state of each task object in a list, in order. */
  function DataOf(ts: seq<Task>): (r: seq<TaskData>)
    reads ts
    ensures |r| == |ts|
    ensures forall i :: 0 <= i < |ts| ==> r[i] == ts[i].Data()
  {
    if ts == [] then [] else DataOf(ts[..|ts| - 1]) + [ts[|ts| - 1].Data()]
  }

  lemma DataOfConcat(ts: seq<Task>, us: seq<Task>)
    ensures DataOf(ts + us) == DataOf(ts) + DataOf(us)
  {
    var x := DataOf(ts + us);
    var y := DataOf(ts) + DataOf(us);
    forall i | 0 <= i < |x|
      ensures x[i] == y[i]
    {
      if i < |ts| {
        assert (ts + us)[i] == ts[i];
      } else {
        assert (ts + us)[i] == us[i - |ts|];
      }
    }
  }

  /** parseLine: builds a new task object and marks it done when the status says so. */
  method ParseLineTask(line: string) returns (task: Option<Task>)
    ensures task.None? <==> ParseLine(line).None?
    ensures task.Some? ==> fresh(task.value) && task.value.Data() == ParseLine(line).value
  {
    match ParseLine(line)
    case None =>
      return None;
    case Some(t) =>
      var created := new Task(t.kind, t.description);
      if t.isDone {
        created.MarkAsDone();
      }
      return Some(created);
  }

  /** addTaskIfValid: appends the task a line decodes to, and nothing for a skipped line. */
  method AddTaskIfValid(line: string, tasks: seq<Task>) returns (result: seq<Task>)
    ensures DataOf(result) == DataOf(tasks) + Held(ParseLine(line))
    ensures Appended(tasks, result) && forall k :: |tasks| <= k < |result| ==> fresh(result[k])
  {
    var task := ParseLineTask(line);
    if task.Some? {
      result := tasks + [task.value];
      DataOfConcat(tasks, [task.value]);
    } else {
      result := tasks;
      assert DataOf(tasks) + [] == DataOf(tasks);
    }
  }

  /** readTasksFromFile: one pass over the lines in file order; a bad line never stops it. */
  method ReadTasks(lines: seq<string>) returns (tasks: seq<Task>)
    ensures DataOf(tasks) == Load(lines)
    ensures Distinct(tasks) && forall i :: 0 <= i < |tasks| ==> fresh(tasks[i])
  {
    tasks := [];
    var i := 0;
    while i < |lines|
      invariant 0 <= i <= |lines|
      invariant DataOf(tasks) == Load(lines[..i])
      invariant Distinct(tasks) && forall k :: 0 <= k < |tasks| ==> fresh(tasks[k])
    {
      var before := tasks;
      tasks := AddTaskIfValid(lines[i], tasks);
      AppendedDistinct(before, tasks);
      LoadStep(lines, i);
      i := i + 1;
    }
    assert lines[..i] == lines;
  }

  /** loadTasks: a missing file is an empty list, not an error. */
  method LoadTasks(fileExists: bool, lines: seq<string>) returns (tasks: seq<Task>)
    ensures !fileExists ==> tasks == []
    ensures fileExists ==> DataOf(tasks) == Load(lines)
    ensures Distinct(tasks) && forall i :: 0 <= i < |tasks| ==> fresh(tasks[i])
  {
    if !fileExists {
      return [];
    }
    tasks := ReadTasks(lines);
  }

  /** writeTasksToFile: one line per task, in list order. */
  method WriteTasks(tasks: seq<Task>) returns (lines: seq<string>)
    ensures lines == SaveLines(DataOf(tasks))
  {
    lines := [];
    var i := 0;
    while i < |tasks|
      invariant 0 <= i <= |tasks|
      invariant lines == SaveLines(DataOf(tasks[..i]))
    {
      assert DataOf(tasks[..i + 1])[..i] == DataOf(tasks[..i]);
      lines := lines + [tasks[i].Data().ToFileFormat()];
      i := i + 1;
    }
    assert tasks[..i] == tasks;
  }

  /** saveTasks: nothing is written when the data directory cannot be made. */
  method SaveTasks(directoryReady: bool, tasks: seq<Task>) returns (written: Option<seq<string>>)
    ensures !directoryReady ==> written == None
    ensures directoryReady ==> written == Some(SaveLines(DataOf(tasks)))
  {
    if !directoryReady {
      return None;
    }
    var lines := WriteTasks(tasks);
    return Some(lines);
  }
}
