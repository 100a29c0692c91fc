# Darwin task tracker: a Dafny model of its core

Darwin is a chat-style task tracker. Each input line is parsed into a command
(`todo`, `deadline`, `event`, `mark`, `unmark`, `delete`, `find`, `list`,
`bye`). The command runs against an ordered, 1-indexed list of at most 100
tasks, and the list is kept in a text file with one pipe-separated line per
task. This project models that core in Dafny and proves what it promises:

- the task renderings
- the list operations
- the parser's grammar and error cases
- the effect of each command on the list
- the storage line codec, with its load and save folds

The older, unpackaged parser and storage are modelled next to the packaged
ones, and the model proves how they differ.

Files, one module each:

| file | module | what it holds |
|---|---|---|
| `wrappers.dfy` | `Wrappers` | `Option` |
| `errors.dfy` | `Errors` | error kinds (one per distinct `DarwinException` cause), `Result`, `Outcome` |
| `java_strings.dfy` | `JavaStrings` | the Java string primitives the code relies on |
| `dates.dfy` | `Dates` | calendar dates: ISO parse/print, display form, `isAfter` |
| `task.dfy` | `Tasks` | task kinds, the `TaskData` value with its two renderings, the `Task` class |
| `task_list.dfy` | `TaskLists` | the `TaskList` class over `seq<Task>`, and keyword search |
| `commands.dfy` | `Commands` | the command datatype and each command's `execute` |
| `parser.dfy` | `Parser` | `Parser.parse` of the `darwin` package |
| `legacy_parser.dfy` | `LegacyParser` | the unpackaged `Parser.parse` |
| `storage.dfy` | `Storage` | the `darwin` storage: line codec, load and save |
| `legacy_storage.dfy` | `LegacyStorage` | the unpackaged storage's decoder and load loop |

The Java string primitives in `JavaStrings` are:

- `trim`
- `startsWith`
- `substring`
- `equalsIgnoreCase` and `toLowerCase`, both over ASCII
- `indexOf`/`contains`
- `split(lit, 2)`
- `split("\\|")`, which drops trailing empty fields
- `split("\\s+")`
- `Integer.parseInt`, which gives 32-bit range

What changes state in the source is imperative here:

- A `Task` is a class whose `isDone` field `MarkAsDone`/`MarkAsNotDone` overwrite.
- `TaskList` is a class whose `tasks` sequence its methods reassign.
- Each command's `execute` is a method on a `TaskList`.
- The storage load and save loops are methods with loop invariants. They are
  proved against the pure folds `Storage.Load` and `Storage.SaveLines`.

The parser and the per-line decoders are pure functions.

One might expect a description holding the field separator `|` to survive
a save and reload. The code splits the whole line on every `|`, so it does
not. `Storage.LineRoundTrip` proves exactly which tasks survive a save and
reload. `Storage.PipeToDoDropped` proves that a to-do holding a `|` that is
not at the end of its description is dropped. `Storage.PipeAtEndKept`
proves that a `|` at the very end is lost instead: split drops the empty last
field, and the to-do comes back as the trimmed text before the `|`.

## Model

| member | source | states |
|---|---|---|
| Tasks.Task.constructor | src/main/java/darwin/task/Task.java:19-26 | a new task has the given kind and description and is not done |
| Tasks.Task.MarkAsDone | src/main/java/darwin/task/Task.java:50-57 | the task is done afterwards, whatever it was; kind and description do not change |
| Tasks.Task.MarkAsNotDone | src/main/java/darwin/task/Task.java:62-69 | the task is not done afterwards, whatever it was; kind and description do not change |
| Tasks.TaskData.StatusIcon | src/main/java/darwin/task/Task.java:43-45 | the icon is one character, and it is 'X' exactly when the task is done |
| Tasks.TaskData.ToString | src/main/java/darwin/task/Deadline.java:37-41 | the display line of every kind (Task.toString wrapped by the ToDo, Deadline and Event overrides) is at least as long as the tag, the status box and the description together, and its character 4 is 'X' exactly when the task is done; ToStringLayout gives the full layout |
| Tasks.TaskData.ToFileFormat | src/main/java/darwin/task/Event.java:52-55 | the saved line of every kind (the ToDo, Deadline and Event toFileFormat) is at least as long as the letter, the two separators and the description together, and its character 4 is '1' exactly when the task is done; ToFileFormatLayout gives the full layout |
| Tasks.DisplayHeadShape | src/main/java/darwin/task/Task.java:87-89 | the display line opens with the three-character type tag, then "[", the status icon, "] " |
| Tasks.ToStringLayout | src/main/java/darwin/task/ToDo.java:25-27 | the display line is tag, status box, then the description; for a to-do nothing follows |
| Tasks.ToStringDoneFlag | src/main/java/darwin/task/Task.java:50-69 | setting the done flag changes only character 4 of the display line, to 'X' or ' ' |
| Tasks.ToDoDisplayExample | src/test/java/darwin/task/ToDoTest.java:10-11 | a new to-do "Buy groceries" shows as "[T][ ] Buy groceries" |
| Tasks.ToDoDoneDisplayExample | src/test/java/darwin/task/ToDoTest.java:14-15 | once done it shows as "[T][X] Buy groceries" |
| Tasks.ToFileFormatLayout | src/main/java/darwin/task/ToDo.java:36-38 | the saved line is the type letter, " \| ", the 1/0 flag, " \| ", then the description verbatim |
| Tasks.ToFileFormatDoneFlag | src/main/java/darwin/task/Deadline.java:50-53 | setting the done flag changes only character 4 of the saved line, to '1' or '0' |
| Tasks.ToDoFileExample | src/test/java/darwin/task/ToDoTest.java:28-30 | a done to-do "Complete assignment" saves as "T \| 1 \| Complete assignment" |
| Tasks.ToDoPipeFileExample | src/test/java/darwin/task/ToDoTest.java:33-34 | a '\|' in a description is written to the saved line as is |
| Tasks.DeadlineDisplayExample | src/test/java/darwin/task/DeadlineTest.java:14-15 | a deadline due 2024-03-15 shows as "[D][ ] Submit report (by: Mar 15 2024)" |
| Tasks.DeadlineFileExample | src/test/java/darwin/task/DeadlineTest.java:29-34 | a done deadline due 2024-05-10 saves as "D \| 1 \| Return book \| 2024-05-10" |
| Tasks.DeadlineKind | src/main/java/darwin/task/Deadline.java:24-28 | the Deadline constructor fails with the invalid-date error exactly when the due date does not parse; otherwise the date's ISO form is the trimmed input |
| Tasks.DeadlineDateExamples | src/test/java/darwin/task/DeadlineTest.java:37-40 | "2024-03-15" is accepted as that date; "15-03-2024" is rejected as an invalid date |
| Tasks.EventKind | src/main/java/darwin/task/Event.java:26-30 | the Event constructor fails exactly when either date does not parse; their order is not checked |
| Dates.ParseDate | src/main/java/darwin/DateParser.java:27-39 | whatever parseDate accepts is a valid date whose ISO form is the trimmed input |
| Dates.IsoRoundTrip | src/main/java/darwin/DateParser.java:27-39 | the strict ISO parse reads back every date's ISO form |
| Dates.ParseIsoIff | src/main/java/darwin/DateParser.java:27-39 | the ISO parse succeeds exactly on the ISO forms of valid dates |
| Dates.ParseDatePadded | src/main/java/darwin/DateParser.java:27-39 | surrounding blanks do not stop a date from parsing |
| Dates.Display | src/main/java/darwin/DateParser.java:48-61 | the display form is "MMM dd yyyy": a capitalised three-letter month, a space, two digits, a space, the year |
| Dates.DisplayInjective | src/main/java/darwin/DateParser.java:48-61 | two valid dates with the same display form in years 1..9999 are equal |
| Dates.IsAfterStrictTotal | src/main/java/darwin/command/EventCommand.java:38-45 | isAfter is irreflexive, asymmetric, transitive and total on distinct dates |
| TaskLists.TaskList.constructor | src/main/java/darwin/task/TaskList.java:19-21 | a new list is empty |
| TaskLists.TaskList.FromTasks | src/main/java/darwin/task/TaskList.java:28-30 | the list is exactly the given tasks, with no capacity check |
| TaskLists.TaskList.TaskCount | src/main/java/darwin/task/TaskList.java:151-153 | the count is zero exactly for an empty list, and the valid task numbers are exactly 1 to the count |
| TaskLists.TaskList.IsValidTaskNumber | src/main/java/darwin/task/TaskList.java:176-178 | a task number is valid exactly when n - 1 is an index of the list |
| TaskLists.TaskList.GetTask | src/main/java/darwin/task/TaskList.java:162-167 | succeeds exactly for 1 <= n <= size, with element n-1; otherwise the invalid-number error |
| TaskLists.TaskList.AddTask | src/main/java/darwin/task/TaskList.java:38-49 | at 100 or more tasks it fails with the list-full error and changes nothing; otherwise it appends the task at the end |
| TaskLists.TaskList.DeleteTask | src/main/java/darwin/task/TaskList.java:59-75 | an invalid number fails with the reused list-full error and changes nothing; otherwise element n-1 is returned and removed, the rest keeping their order |
| TaskLists.TaskList.MarkTask | src/main/java/darwin/task/TaskList.java:112-134 | an invalid number fails; otherwise task n ends with the given flag, and no other task's flag changes |
| TaskLists.TaskList.FindTasks | src/main/java/darwin/task/TaskList.java:83-103 | the result is `Matching(tasks, keyword)`, built by the same loop over the list |
| TaskLists.MatchesKeyword | src/main/java/darwin/task/TaskList.java:99-103 | a task matches exactly when the lower-cased keyword occurs at some position of the lower-cased description |
| TaskLists.Matching | src/main/java/darwin/task/TaskList.java:99-103 | every task found matches the keyword and comes from the list, and every matching task of the list is found |
| TaskLists.MatchingConcat | src/main/java/darwin/task/TaskList.java:89-94 | searching two lists in turn gives the two results in order, so the search keeps list order |
| TaskLists.MatchingEmptyKeyword | src/main/java/darwin/task/TaskList.java:83-97 | an empty keyword finds every task |
| TaskLists.MatchingIgnoresCase | src/main/java/darwin/task/TaskList.java:87-101 | keywords that are equal ignoring case find the same tasks |
| Commands.ExecuteTodo | src/main/java/darwin/command/TodoCommand.java:38-42 | at capacity it fails with no change; otherwise a fresh, not-done to-do is appended, the old tasks are unchanged, and the count reported is the new size |
| Commands.ExecuteDeadline | src/main/java/darwin/command/DeadlineCommand.java:20-24 | an unparseable date fails before anything changes; then it fails at capacity with no change, or appends a fresh deadline and reports the new size |
| Commands.ValidateDates | src/main/java/darwin/command/EventCommand.java:34-46 | an unparseable date gives the invalid-date error; a start strictly after the end gives the event-dates error; equal dates pass |
| Commands.ExecuteEvent | src/main/java/darwin/command/EventCommand.java:26-32 | date and order checks fail before anything changes; then capacity is checked; on success a fresh event is appended and the new size reported |
| Commands.ExecuteMark | src/main/java/darwin/command/MarkCommand.java:19-22 | fails exactly for an out-of-range number, changing nothing; otherwise task n ends with the flag, is the one reported, and no other task's flag changes, so running it twice ends as running it once |
| Commands.ExecuteDelete | src/main/java/darwin/command/DeleteCommand.java:17-20 | an out-of-range number fails with no change; otherwise it reports the task formerly at n and the new size, and the tasks before and after n keep their order |
| Commands.ExecuteFind | src/main/java/darwin/command/FindCommand.java:38-45 | fails exactly for an empty keyword; otherwise it reports `Matching` over the list, and changes nothing |
| Commands.Execute | src/main/java/darwin/command/Command.java:25-36 | a failing command, and list, find and exit, leave the list and every flag as they were; exit and list report their fixed results; an add succeeds exactly when its dates and the capacity allow and then appends one new task, a mark succeeds exactly for a valid number and sets only that task's flag, a delete succeeds exactly for a valid number and removes that task |
| Commands.Command.IsExit | src/main/java/darwin/command/Command.java:34-36 | only the exit command ends the session, and it never changes the list; Commands.Execute reports Exited exactly for it |
| Parser.Parse | src/main/java/darwin/parser/Parser.java:30-53 | unknown command exactly when no keyword test matches; exit exactly for "bye" and list exactly for "list", ignoring case; every command produced is well formed |
| Parser.ParseFind | src/main/java/darwin/parser/Parser.java:55-70 | length <= 5 is a format error; a blank rest is an empty-keyword error; otherwise the keyword is the trimmed rest after five characters |
| Parser.ParseTaskNumber | src/main/java/darwin/parser/Parser.java:72-91 | the number is in 32-bit range; the only errors are a missing token and an unreadable number quoting the keyword |
| Parser.ParseMark | src/main/java/darwin/parser/Parser.java:93-112 | mark and unmark give a mark command with their flag; both error messages quote 'mark' |
| Parser.ParseTodo | src/main/java/darwin/parser/Parser.java:114-129 | length <= 5 is a format error; a blank rest is an empty-description error; otherwise the description is the trimmed rest |
| Parser.ParseDeadline | src/main/java/darwin/parser/Parser.java:131-159 | length <= 9, or no " /by " in the trimmed rest, is a format error; the only other error is an empty field |
| Parser.DeadlineShape | src/main/java/darwin/parser/Parser.java:140-158 | a deadline comes out exactly when the trimmed rest splits at its first " /by " into two parts that are not blank, which become its fields trimmed |
| Parser.ParseEvent | src/main/java/darwin/parser/Parser.java:161-196 | length <= 6, or no " /from ", is a format error; the only other errors are a missing " /to " and an empty field |
| Parser.EventShape | src/main/java/darwin/parser/Parser.java:171-195 | an event comes out exactly when the rest splits at its first " /from " and then at the first " /to " into three non-blank parts, trimmed |
| Parser.ParseDelete | src/main/java/darwin/parser/Parser.java:198-219 | length <= 7 is a format error; the other errors are a missing token and an unreadable number |
| Parser.TodoRoundTrip | src/main/java/darwin/parser/Parser.java:114-129 | typing "todo " and a trimmed, non-empty description gives that description back |
| Parser.TodoAfterFifth | src/main/java/darwin/parser/Parser.java:41-42 | after "todo" any single character is skipped, space or not |
| Parser.TodoWithoutSpace | src/main/java/darwin/parser/Parser.java:41-42 | "todoread" is a to-do "ead": no space is needed and the fifth character is lost |
| Parser.FindRoundTrip | src/main/java/darwin/parser/Parser.java:55-70 | typing "find " and a trimmed, non-empty keyword gives that keyword back |
| Parser.DeadlineRoundTrip | src/main/java/darwin/parser/Parser.java:131-159 | "deadline d /by b" gives back d and b when both are trimmed and non-empty and d holds no " /by " |
| Parser.EventRoundTrip | src/main/java/darwin/parser/Parser.java:161-196 | "event d /from f /to t" gives back all three when trimmed and non-empty, d holds no " /from " and f no " /to " |
| Parser.MarkRoundTrip | src/main/java/darwin/parser/Parser.java:72-91 | "mark n" gives back n, flagged done, for any n up to the int maximum |
| Parser.UnmarkRoundTrip | src/main/java/darwin/parser/Parser.java:93-112 | "unmark n" gives back n, flagged not done |
| Parser.DeleteRoundTrip | src/main/java/darwin/parser/Parser.java:198-219 | "delete n" gives back n |
| Parser.MarkWord | src/main/java/darwin/parser/Parser.java:75-87 | "mark w" gives the number parseInt reads from w; a sign or zero is not rejected |
| Parser.WordsIgnoreCase | src/main/java/darwin/parser/Parser.java:31-34 | "BYE" exits and "List" lists |
| Parser.PrefixesKeepCase | src/main/java/darwin/parser/Parser.java:35-52 | the prefixes are case-sensitive: "Find x" is unknown |
| Parser.BareTodo | src/main/java/darwin/parser/Parser.java:117-119 | "todo" alone is a format error, not an unknown command |
| Parser.BareDelete | src/main/java/darwin/parser/Parser.java:201-203 | "delete" alone is a format error |
| Parser.BareMark | src/main/java/darwin/parser/Parser.java:79-81 | "mark" alone is a missing task number |
| LegacyParser.Parse | src/main/java/Parser.java:2-23 | unknown exactly when no keyword-and-space prefix matches; bye and list ignore case; no find command is ever produced |
| LegacyParser.ParseDelete | src/main/java/Parser.java:121-134 | delete goes straight to the task number, with no length check |
| LegacyParser.LegacyAgrees | src/main/java/Parser.java:2-23 | whatever the legacy parser accepts, the packaged parser turns into the same command |
| LegacyParser.FindUnknown | src/main/java/Parser.java:19-22 | "find book" is unknown here but a find command in the packaged parser |
| LegacyParser.BareTodoUnknown | src/main/java/Parser.java:11-12 | "todo" alone is unknown here but a format error in the packaged parser |
| LegacyParser.DeleteAlone | src/main/java/Parser.java:121-126 | "delete " is a missing task number here but a format error in the packaged parser |
| Storage.KindOf | src/main/java/darwin/storage/Storage.java:239-300 | a kind is found only for the letters T, D and E with exactly 3, 4 or 5 fields |
| Storage.CreateTask | src/main/java/darwin/storage/Storage.java:196-209 | fewer than three fields never make a task |
| Storage.ParseLine | src/main/java/darwin/storage/Storage.java:156-177 | a blank or whitespace-only line is skipped |
| Storage.LineFields | src/main/java/darwin/storage/Storage.java:196-227 | an accepted line has the field count of its kind, its trimmed type field is the letter, it is done exactly when the trimmed status is "1", and description and dates are the trimmed fields |
| Storage.UnknownTypeSkipped | src/main/java/darwin/storage/Storage.java:239-249 | a line whose trimmed type is not T, D or E is skipped |
| Storage.DeadlineDateChecked | src/main/java/darwin/storage/Storage.java:275-282 | a deadline line whose date does not parse is skipped |
| Storage.EventDatesChecked | src/main/java/darwin/storage/Storage.java:292-300 | an event line with a date that does not parse is skipped |
| Storage.ParsedIsRestorable | src/main/java/darwin/storage/Storage.java:196-221 | every task read from a line has a trimmed description with no '\|' |
| Storage.SplitSaved | src/main/java/darwin/storage/Storage.java:184-186 | splitting the saved line of a task with no '\|' in its description gives back its fields, padded |
| Storage.LineRoundTrip | src/main/java/darwin/storage/Storage.java:156-177 | decoding a task's saved line gives the task back exactly when its description is trimmed and holds no '\|' |
| Storage.PipeToDoDropped | src/test/java/darwin/task/ToDoTest.java:33-34 | a to-do whose description holds one '\|', not at its end, saves as four fields and is dropped when read back |
| Storage.PipeAtEndKept | src/main/java/darwin/storage/Storage.java:184-186 | a to-do whose description ends in its only '\|' reads back as a to-do with the same flag whose description is the trimmed text before the '\|' |
| Storage.Load | src/main/java/darwin/storage/Storage.java:83-96 | a load of n lines yields at most n tasks |
| Storage.LoadConcat | src/main/java/darwin/storage/Storage.java:85-93 | loading two stretches of lines gives their tasks one after the other, so lines are decoded independently and in order |
| Storage.BadLineSkipped | src/main/java/darwin/storage/Storage.java:98-103 | a line that does not decode is dropped and the load goes on: the result is the load of the lines around it |
| Storage.LoadedRestorable | src/main/java/darwin/storage/Storage.java:83-96 | every loaded task has a trimmed, '\|'-free description |
| Storage.SaveLines | src/main/java/darwin/storage/Storage.java:133-146 | the save writes one line per task, each its toFileFormat, in list order |
| Storage.SaveLoad | src/main/java/darwin/storage/Storage.java:116-177 | loading what was saved gives the list back exactly when every description is trimmed and holds no '\|' |
| Storage.LoadSaveStable | src/main/java/darwin/storage/Storage.java:116-177 | saving what was loaded and loading it again gives the same tasks |
| Storage.ParseLineTask | src/main/java/darwin/storage/Storage.java:156-177 | parseLine builds a newly allocated task object exactly when the line decodes, carrying the decoded kind, description and flag, with the flag set after construction |
| Storage.AddTaskIfValid | src/main/java/darwin/storage/Storage.java:98-107 | the list grows by the decoded task, a newly allocated object not already in the list, or not at all for a skipped line |
| Storage.ReadTasks | src/main/java/darwin/storage/Storage.java:83-96 | the loop's tasks hold exactly `Load(lines)`, each a newly allocated object occurring once |
| Storage.LoadTasks | src/main/java/darwin/storage/Storage.java:69-75 | a missing file gives an empty list; otherwise the tasks `Load` gives, as newly allocated, pairwise distinct objects |
| Storage.WriteTasks | src/main/java/darwin/storage/Storage.java:133-141 | the loop writes exactly `SaveLines` of the tasks' data |
| Storage.SaveTasks | src/main/java/darwin/storage/Storage.java:116-131 | nothing is written when the data directory cannot be made; otherwise `SaveLines` |
| LegacyStorage.ParseLine | src/main/java/Storage.java:61-89 | fewer than three fields never make a task |
| LegacyStorage.LineFields | src/main/java/Storage.java:70-72 | an accepted line's type field is the bare letter, it is done exactly when the status field is exactly "1", and the description is the field untrimmed |
| LegacyStorage.AcceptedByPackaged | src/main/java/Storage.java:61-128 | every line the legacy decoder accepts the packaged one accepts too, with the same kind, the description trimmed, and a done task still done |
| LegacyStorage.SavedLineRejected | src/main/java/Storage.java:70-101 | every line the save writes is rejected, because its type field is the letter followed by a space |
| LegacyStorage.SavedFileLoadsEmpty | src/main/java/Storage.java:15-58 | a file written by the save loads back as an empty list, whatever it held |
| LegacyStorage.Load | src/main/java/Storage.java:24-32 | a load of n lines yields at most n tasks |
| LegacyStorage.ParseLineTask | src/main/java/Storage.java:61-89 | a newly allocated task object exactly when the line decodes, marked done when the status field is exactly "1" |
| LegacyStorage.AddParsed | src/main/java/Storage.java:27-31 | one pass of the loop adds the decoded task, a newly allocated object not already in the list, or nothing for a skipped line |
| LegacyStorage.LoadTasks | src/main/java/Storage.java:15-40 | a missing file gives an empty list; otherwise the loop's tasks hold exactly the legacy `Load(lines)`, as newly allocated, pairwise distinct objects |
| JavaStrings.Trim | src/main/java/darwin/parser/Parser.java:123 | the trimmed string has no character up to ' ' at either end and is no longer than the input |
| JavaStrings.TrimSurrounded | src/main/java/darwin/parser/Parser.java:123 | trimming a trimmed string padded with blanks on both sides gives that string back |
| JavaStrings.SplitOnceIff | src/main/java/darwin/parser/Parser.java:141 | split(sep, 2) gives [a, b] exactly when a holds no sep and s is a + sep + b |
| JavaStrings.SplitChar | src/main/java/darwin/storage/Storage.java:184-186 | no field of a split on '\|' holds the separator |
| JavaStrings.ParseIntDecimal | src/main/java/darwin/parser/Parser.java:84 | parseInt reads back the decimal form of every int-sized natural number |

The unpackaged `TaskList` (src/main/java/TaskList.java) is modelled by the
same `TaskLists.TaskList` class. Its methods match the packaged ones line for
line, minus `findTasks` and the asserts. The unpackaged storage writes its
lines as `Storage.WriteTasks` does.

## Left out

- File system calls: existence checks, reading lines and writing lines. Load takes the file's lines as a sequence plus a file-exists flag. Save returns the lines it would write. The directory creation's result is a parameter.
- The line terminators: splitting the file into lines and appending "\n" to each line both happen outside the model.
- The `IOException` branches of both storages only print a message. The storage constructors only store a path.
- Console and GUI output, the message texts of `DarwinException`, and the warning prints. Errors are an error-kind datatype.
- The session loop, including the save after each command. The `list`, `bye` and `exit` commands are folded into `Commands.Execute`.
- Java `assert` statements, because they are off by default.
- The base `Task.toFileFormat`, which returns an empty string, because no task of the base type is ever made.
- The raw `by` string of a deadline, because it is stored but never read.
- Dates: years outside 0000..9999 and the locale of the month names. `LocalDate` accepts wider, signed years.
- Unicode case mapping and Unicode whitespace. Case is ASCII, and trim strips characters up to ' '.
- JavaStrings.ParseInt: reads ASCII digits only. `Integer.parseInt` also accepts other Unicode decimal digits, so "mark ٣" is a mark of task 3 in Java and a number error here.
- Parser.Parse, Parser.ParseFind, Parser.ParseTodo, Parser.ParseDeadline, Parser.ParseEvent, Parser.ParseDelete and LegacyParser.Parse: a `string` is a sequence of code points, while Java's `length()` and `substring` count UTF-16 units. The length guards and offsets therefore differ from Java's for input holding characters outside the Basic Multilingual Plane. For example, "find😀" is a find of a lone low surrogate in Java and a format error here.
- The unpackaged `Task`, `ToDo`, `DateParser` and `MarkCommand` files are not part of this model. The unpackaged storage uses the packaged task kinds and date checks instead.
- The unpackaged command classes and the console monolith, which duplicate the packaged logic.
- TaskLists.TaskList.FromTasks: the list takes a copy of the given sequence. Java's constructor shares the caller's `ArrayList`, but no caller changes either reference afterwards, so the sharing is not modelled.
- Parser.ParseTaskNumber: its contract names only the error kinds and the 32-bit range. The values it reads are stated by the round-trip lemmas rather than in the function's own contract.

## Findings

| source | as written | input that shows it | evidently intended | confidence | as-written member | corrected member |
|---|---|---|---|---|---|---|
| src/main/java/Storage.java:70 | the type field is compared untrimmed with "T", "D" and "E" | any saved line, e.g. "T \| 0 \| read", whose type field is "T " | trim the fields before comparing, as the packaged storage does | not executed | LegacyStorage.SavedFileLoadsEmpty | Storage.SaveLoad |
