// Parser.parse: one line of user input to a command. Keywords are matched
// by prefix in a fixed order; "bye" and "list" are matched whole and
// ignoring case. Every malformed input yields an error, never a command.

module Parser {
  import opened Wrappers
  import opened Errors
  import opened JavaStrings
  import opened Commands

  /** The fields a parsed command carries are trimmed and non-empty; task numbers fit in an int. */
  predicate WellFormed(c: Command)
  {
    match c
    case Exit => true
    case ListAll => true
    case Find(keyword) => keyword != [] && IsTrimmed(keyword)
    case Mark(n, _) => MIN_INT <= n <= MAX_INT
    case AddTodo(description) => description != [] && IsTrimmed(description)
    case AddDeadline(description, dueDate) =>
      description != [] && IsTrimmed(description) && dueDate != [] && IsTrimmed(dueDate)
    case AddEvent(description, from, to) =>
      description != [] && IsTrimmed(description) && from != [] && IsTrimmed(from)
      && to != [] && IsTrimmed(to)
    case Delete(n) => MIN_INT <= n <= MAX_INT
  }

  /** Whether any keyword test of parse accepts the input. */
  predicate IsKnown(input: string)
  {
    EqualsIgnoreCase(input, "bye") || EqualsIgnoreCase(input, "list")
    || StartsWith(input, "find") || StartsWith(input, "mark") || StartsWith(input, "unmark")
    || StartsWith(input, "todo") || StartsWith(input, "deadline") || StartsWith(input, "event")
    || StartsWith(input, "delete")
  }

  /** parseFindCommand: the rest after "find " is the keyword. */
  function ParseFind(input: string): (r: Result<Command>)
    ensures |input| <= 5 ==> r == Failure(FindFormat)
    ensures |input| > 5 && Trim(input[5..]) == [] ==> r == Failure(EmptyKeyword)
    ensures r.Success? ==> r.value.Find? && r.value.keyword == Trim(input[5..])
    ensures r.Success? || r == Failure(FindFormat) || r == Failure(EmptyKeyword)
  {
    if |input| <= 5 then Failure(FindFormat)
    else
      var keyword := Trim(input[5..]);
      if keyword == [] then Failure(EmptyKeyword) else Success(Find(keyword))
  }

  /**
   * The task number of mark, unmark and delete: the second whitespace-separated
   * token, read as an int. The error names the keyword the message quotes.
   */
  function ParseTaskNumber(input: string, quoted: string): (r: Result<int>)
    ensures r.Success? ==> MIN_INT <= r.value <= MAX_INT
    ensures r.Failure? ==> r.error == MissingTaskNumber || r.error == NotANumber(quoted)
  {
    var parts := SplitWhitespace(input);
    if |parts| < 2 then Failure(MissingTaskNumber)
    else
      match ParseInt(parts[1])
      case None => Failure(NotANumber(quoted))
      case Some(n) => Success(n)
  }

  /** parseMarkCommand and parseUnmarkCommand; both messages quote 'mark'. */
  function ParseMark(input: string, isDone: bool): (r: Result<Command>)
    ensures r.Success? ==> r.value.Mark? && r.value.isDone == isDone
    ensures r.Failure? ==> r.error == MissingTaskNumber || r.error == NotANumber("mark")
  {
    match ParseTaskNumber(input, "mark")
    case Failure(e) => Failure(e)
    case Success(n) => Success(Mark(n, isDone))
  }

  /** parseTodoCommand: the rest after "todo " is the description. */
  function ParseTodo(input: string): (r: Result<Command>)
    ensures |input| <= 5 ==> r == Failure(TodoFormat)
    ensures |input| > 5 && Trim(input[5..]) == [] ==> r == Failure(EmptyDescription)
    ensures r.Success? ==> r.value.AddTodo? && r.value.description == Trim(input[5..])
    ensures r.Success? || r == Failure(TodoFormat) || r == Failure(EmptyDescription)
  {
    if |input| <= 5 then Failure(TodoFormat)
    else
      var description := Trim(input[5..]);
      if description == [] then Failure(EmptyDescription) else Success(AddTodo(description))
  }

  /** parseDeadlineCommand: "<description> /by <date>" after the keyword, split at the first " /by ". */
  function ParseDeadline(input: string): (r: Result<Command>)
    ensures |input| <= 9 ==> r == Failure(DeadlineFormat)
    ensures |input| > 9 && !Contains(Trim(input[9..]), " /by ") ==> r == Failure(DeadlineFormat)
    ensures r.Success? ==> r.value.AddDeadline?
    ensures r.Success? || r == Failure(DeadlineFormat) || r == Failure(DeadlineFieldsEmpty)
  {
    if |input| <= 9 then Failure(DeadlineFormat)
    else
      var remaining := Trim(input[9..]);
      var parts := SplitOnce(remaining, " /by ");
      if |parts| < 2 then Failure(DeadlineFormat)
      else
        var description := Trim(parts[0]);
        var dueDate := Trim(parts[1]);
        if description == [] || dueDate == [] then Failure(DeadlineFieldsEmpty)
        else Success(AddDeadline(description, dueDate))
  }

  /** parseEventCommand: "<description> /from <start> /to <end>", each split at its first occurrence. */
  function ParseEvent(input: string): (r: Result<Command>)
    ensures |input| <= 6 ==> r == Failure(EventFormat)
    ensures |input| > 6 && !Contains(Trim(input[6..]), " /from ") ==> r == Failure(EventFormat)
    ensures r.Success? ==> r.value.AddEvent?
    ensures r.Success? || r == Failure(EventFormat) || r == Failure(EventFieldsEmpty)
  {
    if |input| <= 6 then Failure(EventFormat)
    else
      var remaining := Trim(input[6..]);
      var parts := SplitOnce(remaining, " /from ");
      if |parts| < 2 then Failure(EventFormat)
      else
        var description := Trim(parts[0]);
        var timeParts := SplitOnce(parts[1], " /to ");
        if |timeParts| < 2 then Failure(EventFormat)
        else
          var from := Trim(timeParts[0]);
          var to := Trim(timeParts[1]);
          if description == [] || from == [] || to == [] then Failure(EventFieldsEmpty)
          else Success(AddEvent(description, from, to))
  }

  /**
   * A deadline command comes out exactly when the text after the keyword, trimmed,
   * splits at its first " /by " into two parts that are not blank.
   */
  lemma DeadlineShape(input: string, description: string, dueDate: string)
    ensures ParseDeadline(input) == Success(AddDeadline(description, dueDate)) <==>
      DeadlineSplitsInto(input, description, dueDate)
  {
    if ParseDeadline(input) == Success(AddDeadline(description, dueDate)) {
      DeadlineSplits(input);
    }
    if DeadlineSplitsInto(input, description, dueDate) {
      var d, b :| SplitsAt(Trim(input[9..]), " /by ", d, b) && description == Trim(d) && dueDate == Trim(b);
      DeadlineOfSplits(input, d, b);
    }
  }

  /** The text after "deadline ", trimmed, splits into the two given non-blank fields. */
  ghost predicate DeadlineSplitsInto(input: string, description: string, dueDate: string)
  {
    && |input| > 9
    && (exists d, b :: SplitsAt(Trim(input[9..]), " /by ", d, b) && description == Trim(d) && dueDate == Trim(b))
    && description != [] && dueDate != []
  }

  lemma DeadlineSplits(input: string)
    requires ParseDeadline(input).Success?
    ensures var c := ParseDeadline(input).value;
      DeadlineSplitsInto(input, c.description, c.dueDate)
  {
    var c := ParseDeadline(input).value;
    var remaining := Trim(input[9..]);
    var parts := SplitOnce(remaining, " /by ");
    assert c == AddDeadline(Trim(parts[0]), Trim(parts[1]));
    SplitOnceIff(remaining, " /by ", parts[0], parts[1]);
    assert SplitsAt(remaining, " /by ", parts[0], parts[1]);
  }

  lemma DeadlineOfSplits(input: string, d: string, b: string)
    requires |input| > 9 && SplitsAt(Trim(input[9..]), " /by ", d, b)
    requires Trim(d) != [] && Trim(b) != []
    ensures ParseDeadline(input) == Success(AddDeadline(Trim(d), Trim(b)))
  {
    SplitOnceIff(Trim(input[9..]), " /by ", d, b);
  }

  /**
   * An event command comes out exactly when the text after the keyword, trimmed,
   * splits at its first " /from " into a description and a rest, the rest splits
   * at its first " /to " into two dates, and none of the three is blank.
   */
  lemma EventShape(input: string, description: string, from: string, to: string)
    ensures ParseEvent(input) == Success(AddEvent(description, from, to)) <==> EventSplitsInto(input, description, from, to)
  {
    if ParseEvent(input) == Success(AddEvent(description, from, to)) {
      EventSplits(input);
    }
    if EventSplitsInto(input, description, from, to) {
      var d, times, f, t :|
        && SplitsAt(Trim(input[6..]), " /from ", d, times) && SplitsAt(times, " /to ", f, t)
        && description == Trim(d) && from == Trim(f) && to == Trim(t);
      EventOfSplits(input, d, times, f, t);
    }
  }

  /** The text after "event ", trimmed, splits into the three given non-blank fields. */
  ghost predicate EventSplitsInto(input: string, description: string, from: string, to: string)
  {
    && |input| > 6
    && (exists d, times, f, t ::
          && SplitsAt(Trim(input[6..]), " /from ", d, times) && SplitsAt(times, " /to ", f, t)
          && description == Trim(d) && from == Trim(f) && to == Trim(t))
    && description != [] && from != [] && to != []
  }

  lemma EventSplits(input: string)
    requires ParseEvent(input).Success?
    ensures var c := ParseEvent(input).value;
      EventSplitsInto(input, c.description, c.from, c.to)
  {
    var c := ParseEvent(input).value;
    var remaining := Trim(input[6..]);
    var parts := SplitOnce(remaining, " /from ");
    var timeParts := SplitOnce(parts[1], " /to ");
    assert c == AddEvent(Trim(parts[0]), Trim(timeParts[0]), Trim(timeParts[1]));
    SplitOnceIff(remaining, " /from ", parts[0], parts[1]);
    SplitOnceIff(parts[1], " /to ", timeParts[0], timeParts[1]);
    assert SplitsAt(remaining, " /from ", parts[0], parts[1]) && SplitsAt(parts[1], " /to ", timeParts[0], timeParts[1]);
  }

  lemma EventOfSplits(input: string, d: string, times: string, f: string, t: string)
    requires |input| > 6 && SplitsAt(Trim(input[6..]), " /from ", d, times) && SplitsAt(times, " /to ", f, t)
    requires Trim(d) != [] && Trim(f) != [] && Trim(t) != []
    ensures ParseEvent(input) == Success(AddEvent(Trim(d), Trim(f), Trim(t)))
  {
    SplitOnceIff(Trim(input[6..]), " /from ", d, times);
    SplitOnceIff(times, " /to ", f, t);
  }

  /** parseDeleteCommand: needs something after "delete ", then a task number. */
  function ParseDelete(input: string): (r: Result<Command>)
    ensures |input| <= 7 ==> r == Failure(DeleteFormat)
    ensures r.Success? ==> r.value.Delete?
    ensures r.Failure? ==> r.error in {DeleteFormat, MissingTaskNumber, NotANumber("delete")}
  {
    if |input| <= 7 then Failure(DeleteFormat)
    else
      match ParseTaskNumber(input, "delete")
      case Failure(e) => Failure(e)
      case Success(n) => Success(Delete(n))
  }

  /** Parser.parse */
  function Parse(input: string): (r: Result<Command>)
    ensures r == Failure(UnknownCommand) <==> !IsKnown(input)
    ensures r == Success(Exit) <==> EqualsIgnoreCase(input, "bye")
    ensures r == Success(ListAll) <==> EqualsIgnoreCase(input, "list")
    ensures r.Success? ==> WellFormed(r.value)
  {
    if EqualsIgnoreCase(input, "bye") then Success(Exit)
    else if EqualsIgnoreCase(input, "list") then Success(ListAll)
    else if StartsWith(input, "find") then ParseFind(input)
    else if StartsWith(input, "mark") then ParseMark(input, true)
    else if StartsWith(input, "unmark") then ParseMark(input, false)
    else if StartsWith(input, "todo") then ParseTodo(input)
    else if StartsWith(input, "deadline") then ParseDeadline(input)
    else if StartsWith(input, "event") then ParseEvent(input)
    else if StartsWith(input, "delete") then ParseDelete(input)
    else Failure(UnknownCommand)
  }

  // ---------------------------------------------------------------- branches

  /** Inputs longer than four characters are never "bye" or "list". */
  lemma LongIsNotWord(input: string)
    requires |input| > 4
    ensures !EqualsIgnoreCase(input, "bye") && !EqualsIgnoreCase(input, "list")
  {
  }

  /** A string that differs from p at some position of p does not start with p. */
  lemma DiffersAt(input: string, p: string, k: nat)
    requires k < |p| && k < |input| && input[k] != p[k]
    ensures !StartsWith(input, p)
  {
    if |p| <= |input| {
      assert input[..|p|][k] != p[k];
    }
  }

  lemma FindBranch(input: string)
    requires |input| > 4 && StartsWith(input, "find")
    ensures Parse(input) == ParseFind(input)
  {
    LongIsNotWord(input);
  }

  lemma MarkBranch(input: string)
    requires |input| > 4 && StartsWith(input, "mark")
    ensures Parse(input) == ParseMark(input, true)
  {
    LongIsNotWord(input);
    assert input[0] == 'm';
    DiffersAt(input, "find", 0);
  }

  lemma UnmarkBranch(input: string)
    requires |input| > 6 && StartsWith(input, "unmark")
    ensures Parse(input) == ParseMark(input, false)
  {
    LongIsNotWord(input);
    assert input[0] == 'u';
    DiffersAt(input, "find", 0);
    DiffersAt(input, "mark", 0);
  }

  lemma TodoBranch(input: string)
    requires |input| > 4 && StartsWith(input, "todo")
    ensures Parse(input) == ParseTodo(input)
  {
    LongIsNotWord(input);
    assert input[0] == 't';
    DiffersAt(input, "find", 0);
    DiffersAt(input, "mark", 0);
    DiffersAt(input, "unmark", 0);
  }

  lemma DeadlineBranch(input: string)
    requires |input| > 8 && StartsWith(input, "deadline")
    ensures Parse(input) == ParseDeadline(input)
  {
    LongIsNotWord(input);
    assert input[0] == 'd';
    DiffersAt(input, "find", 0);
    DiffersAt(input, "mark", 0);
    DiffersAt(input, "unmark", 0);
    DiffersAt(input, "todo", 0);
  }

  lemma EventBranch(input: string)
    requires |input| > 5 && StartsWith(input, "event")
    ensures Parse(input) == ParseEvent(input)
  {
    LongIsNotWord(input);
    assert input[0] == 'e';
    DiffersAt(input, "find", 0);
    DiffersAt(input, "mark", 0);
    DiffersAt(input, "unmark", 0);
    DiffersAt(input, "todo", 0);
    DiffersAt(input, "deadline", 0);
  }

  lemma DeleteBranch(input: string)
    requires StartsWith(input, "delete")
    ensures Parse(input) == ParseDelete(input)
  {
    LongIsNotWord(input);
    assert input[0] == 'd' && input[2] == 'l';
    DiffersAt(input, "find", 0);
    DiffersAt(input, "mark", 0);
    DiffersAt(input, "unmark", 0);
    DiffersAt(input, "todo", 0);
    DiffersAt(input, "deadline", 2);
    DiffersAt(input, "event", 0);
  }

  // ---------------------------------------------------------------- round trips

  /** A trimmed, non-empty string neither starts nor ends with a trim character. */
  lemma TrimmedEnds(s: string)
    requires s != [] && IsTrimmed(s)
    ensures !IsTrimChar(s[0]) && !IsTrimChar(s[|s| - 1])
  {
  }

  /**
   * After "todo" any one character is skipped, space or not, and the rest is
   * the description.
   */
  lemma TodoAfterFifth(c: char, description: string)
    requires description != [] && IsTrimmed(description)
    ensures Parse("todo" + ([c] + description)) == Success(AddTodo(description))
  {
    var s := "todo" + ([c] + description);
    assert Parse(s) == ParseTodo(s) by {
      StartsWithConcat("todo", [c] + description);
      TodoBranch(s);
    }
    assert ParseTodo(s) == Success(AddTodo(description)) by {
      assert s[5..] == description by {
        StartsWithConcat("todo" + [c], description);
        assert "todo" + [c] + description == s;
      }
      TrimOfTrimmed(description);
    }
  }

  /** Typing "todo <description>" gives back that description. */
  lemma TodoRoundTrip(description: string)
    requires description != [] && IsTrimmed(description)
    ensures Parse("todo " + description) == Success(AddTodo(description))
  {
    TodoAfterFifth(' ', description);
    assert "todo" + ([' '] + description) == "todo " + description;
  }

  /** Typing "find <keyword>" gives back that keyword. */
  lemma FindRoundTrip(keyword: string)
    requires keyword != [] && IsTrimmed(keyword)
    ensures Parse("find " + keyword) == Success(Find(keyword))
  {
    var s := "find " + keyword;
    assert Parse(s) == ParseFind(s) by {
      StartsWithConcat("find ", keyword);
      StartsWithShorter(s, "find", " ");
      FindBranch(s);
    }
    assert ParseFind(s) == Success(Find(keyword)) by {
      StartsWithConcat("find ", keyword);
      TrimOfTrimmed(keyword);
    }
  }

  /** "x /by y" splits at |x| when the first " /by " is the one after x. */
  lemma SplitAfter(x: string, sep: string, y: string)
    requires sep != [] && IndexOf(x + sep, sep) == Some(|x|)
    ensures SplitOnce(x + sep + y, sep) == [x, y]
  {
    IndexOfExtend(x + sep, y, sep);
    var parts := SplitOnce(x + sep + y, sep);
    assert parts[0] == (x + sep + y)[..|x|] == x;
    assert parts[1] == (x + sep + y)[|x| + |sep|..] == y;
  }

  /** Concatenating trimmed pieces around a trimmed, non-empty core keeps it trimmed at both ends. */
  lemma TrimmedJoin(a: string, mid: string, b: string)
    requires a != [] && IsTrimmed(a) && b != [] && IsTrimmed(b)
    ensures IsTrimmed(a + mid + b)
  {
    var s := a + mid + b;
    assert s[0] == a[0];
    assert s[|s| - 1] == b[|b| - 1];
  }

  /** parseDeadlineCommand on a line whose remainder splits into two trimmed, non-empty fields. */
  lemma ParseDeadlineOf(input: string, description: string, dueDate: string)
    requires |input| > 9 && SplitOnce(Trim(input[9..]), " /by ") == [description, dueDate]
    requires description != [] && Trim(description) == description
    requires dueDate != [] && Trim(dueDate) == dueDate
    ensures ParseDeadline(input) == Success(AddDeadline(description, dueDate))
  {
  }

  /**
   * Typing "deadline <description> /by <date>" gives back both fields, as long
   * as the description itself does not contain " /by ".
   */
  lemma DeadlineRoundTrip(description: string, dueDate: string)
    requires description != [] && IsTrimmed(description)
    requires dueDate != [] && IsTrimmed(dueDate)
    requires IndexOf(description + " /by ", " /by ") == Some(|description|)
    ensures Parse("deadline " + (description + " /by " + dueDate)) == Success(AddDeadline(description, dueDate))
  {
    var rest := description + " /by " + dueDate;
    var s := "deadline " + rest;
    assert Parse(s) == ParseDeadline(s) by {
      StartsWithConcat("deadline ", rest);
      StartsWithShorter(s, "deadline", " ");
      DeadlineBranch(s);
    }
    assert ParseDeadline(s) == Success(AddDeadline(description, dueDate)) by {
      StartsWithConcat("deadline ", rest);
      DeadlineFields(description, dueDate);
      ParseDeadlineOf(s, description, dueDate);
    }
  }

  /** The part after "deadline " splits back into the description and the date. */
  lemma DeadlineFields(description: string, dueDate: string)
    requires description != [] && IsTrimmed(description)
    requires dueDate != [] && IsTrimmed(dueDate)
    requires IndexOf(description + " /by ", " /by ") == Some(|description|)
    ensures var rest := description + " /by " + dueDate;
      && Trim(rest) == rest
      && SplitOnce(rest, " /by ") == [description, dueDate]
      && Trim(description) == description && Trim(dueDate) == dueDate
  {
    var rest := description + " /by " + dueDate;
    assert Trim(rest) == rest by {
      TrimmedJoin(description, " /by ", dueDate);
      TrimOfTrimmed(rest);
    }
    assert SplitOnce(rest, " /by ") == [description, dueDate] by {
      SplitAfter(description, " /by ", dueDate);
    }
    assert Trim(description) == description by { TrimOfTrimmed(description); }
    assert Trim(dueDate) == dueDate by { TrimOfTrimmed(dueDate); }
  }

  /** parseEventCommand on a line whose remainder splits into three trimmed, non-empty fields. */
  lemma ParseEventOf(input: string, description: string, times: string, from: string, to: string)
    requires |input| > 6 && SplitOnce(Trim(input[6..]), " /from ") == [description, times]
    requires SplitOnce(times, " /to ") == [from, to]
    requires description != [] && Trim(description) == description
    requires from != [] && Trim(from) == from && to != [] && Trim(to) == to
    ensures ParseEvent(input) == Success(AddEvent(description, from, to))
  {
  }

  /**
   * Typing "event <description> /from <start> /to <end>" gives back all three
   * fields, as long as the description holds no " /from " and the start no " /to ".
   */
  lemma EventRoundTrip(description: string, from: string, to: string)
    requires description != [] && IsTrimmed(description)
    requires from != [] && IsTrimmed(from) && to != [] && IsTrimmed(to)
    requires IndexOf(description + " /from ", " /from ") == Some(|description|)
    requires IndexOf(from + " /to ", " /to ") == Some(|from|)
    ensures Parse("event " + (description + " /from " + (from + " /to " + to)))
            == Success(AddEvent(description, from, to))
  {
    var times := from + " /to " + to;
    var rest := description + " /from " + times;
    var s := "event " + rest;
    assert Parse(s) == ParseEvent(s) by {
      StartsWithConcat("event ", rest);
      StartsWithShorter(s, "event", " ");
      EventBranch(s);
    }
    assert ParseEvent(s) == Success(AddEvent(description, from, to)) by {
      StartsWithConcat("event ", rest);
      EventFields(description, from, to);
      ParseEventOf(s, description, times, from, to);
    }
  }

  /** The part after "event " splits back into the description and the two dates. */
  lemma EventFields(description: string, from: string, to: string)
    requires description != [] && IsTrimmed(description)
    requires from != [] && IsTrimmed(from) && to != [] && IsTrimmed(to)
    requires IndexOf(description + " /from ", " /from ") == Some(|description|)
    requires IndexOf(from + " /to ", " /to ") == Some(|from|)
    ensures var times := from + " /to " + to;
      var rest := description + " /from " + times;
      && Trim(rest) == rest
      && SplitOnce(rest, " /from ") == [description, times]
      && SplitOnce(times, " /to ") == [from, to]
      && Trim(description) == description && Trim(from) == from && Trim(to) == to
  {
    var times := from + " /to " + to;
    var rest := description + " /from " + times;
    assert Trim(rest) == rest by {
      TrimmedJoin(from, " /to ", to);
      TrimmedJoin(description, " /from ", times);
      TrimOfTrimmed(rest);
    }
    assert SplitOnce(rest, " /from ") == [description, times] by {
      SplitAfter(description, " /from ", times);
    }
    assert SplitOnce(times, " /to ") == [from, to] by {
      SplitAfter(from, " /to ", to);
    }
    assert Trim(description) == description by { TrimOfTrimmed(description); }
    assert Trim(from) == from by { TrimOfTrimmed(from); }
    assert Trim(to) == to by { TrimOfTrimmed(to); }
  }

  lemma DecimalWord(n: nat)
    ensures Decimal(n) != [] && NoRegexSpace(Decimal(n))
  {
    var d := Decimal(n);
    assert forall i :: 0 <= i < |d| ==> IsDigit(d[i]);
  }

  /** "<keyword> <word>" has the value of word as its task number. */
  lemma TaskNumberOf(keyword: string, word: string, n: int, quoted: string)
    requires keyword != [] && NoRegexSpace(keyword)
    requires word != [] && NoRegexSpace(word) && ParseInt(word) == Some(n)
    ensures ParseTaskNumber(keyword + " " + word, quoted) == Success(n)
  {
    SplitTwoWords(keyword, word);
  }

  /** The same, with the keyword and its space written as one string. */
  lemma TaskNumberAfter(spaced: string, keyword: string, word: string, n: int, quoted: string)
    requires spaced == keyword + " " && keyword != [] && NoRegexSpace(keyword)
    requires word != [] && NoRegexSpace(word) && ParseInt(word) == Some(n)
    ensures ParseTaskNumber(spaced + word, quoted) == Success(n)
  {
    TaskNumberOf(keyword, word, n, quoted);
  }

  /** Typing "mark" and a word Integer.parseInt reads as n gives back n, flagged done. */
  lemma MarkWord(word: string, n: int)
    requires word != [] && NoRegexSpace(word) && ParseInt(word) == Some(n)
    ensures Parse("mark " + word) == Success(Mark(n, true))
  {
    MarkPrefixed(word);
    MarkNumber(word, n);
  }

  lemma MarkNumber(word: string, n: int)
    requires word != [] && NoRegexSpace(word) && ParseInt(word) == Some(n)
    ensures ParseMark("mark " + word, true) == Success(Mark(n, true))
  {
    var s := "mark " + word;
    TaskNumberAfter("mark ", "mark", word, n, "mark");
  }

  lemma MarkPrefixed(word: string)
    ensures Parse("mark " + word) == ParseMark("mark " + word, true)
  {
    var s := "mark " + word;
    StartsWithConcat("mark ", word);
    StartsWithShorter(s, "mark", " ");
    MarkBranch(s);
  }

  /** Typing "unmark" and a word Integer.parseInt reads as n gives back n, flagged not done. */
  lemma UnmarkWord(word: string, n: int)
    requires word != [] && NoRegexSpace(word) && ParseInt(word) == Some(n)
    ensures Parse("unmark " + word) == Success(Mark(n, false))
  {
    UnmarkPrefixed(word);
    UnmarkNumber(word, n);
  }

  lemma UnmarkNumber(word: string, n: int)
    requires word != [] && NoRegexSpace(word) && ParseInt(word) == Some(n)
    ensures ParseMark("unmark " + word, false) == Success(Mark(n, false))
  {
    var s := "unmark " + word;
    TaskNumberAfter("unmark ", "unmark", word, n, "mark");
  }

  lemma UnmarkPrefixed(word: string)
    ensures Parse("unmark " + word) == ParseMark("unmark " + word, false)
  {
    var s := "unmark " + word;
    StartsWithConcat("unmark ", word);
    StartsWithShorter(s, "unmark", " ");
    UnmarkBranch(s);
  }

  /** Typing "delete" and a word Integer.parseInt reads as n gives back n. */
  lemma DeleteWord(word: string, n: int)
    requires word != [] && NoRegexSpace(word) && ParseInt(word) == Some(n)
    ensures Parse("delete " + word) == Success(Delete(n))
  {
    DeletePrefixed(word);
    DeleteNumber(word, n);
  }

  lemma DeleteNumber(word: string, n: int)
    requires word != [] && NoRegexSpace(word) && ParseInt(word) == Some(n)
    ensures ParseDelete("delete " + word) == Success(Delete(n))
  {
    var s := "delete " + word;
    TaskNumberAfter("delete ", "delete", word, n, "delete");
    assert |s| > 7;
  }

  lemma DeletePrefixed(word: string)
    ensures Parse("delete " + word) == ParseDelete("delete " + word)
  {
    var s := "delete " + word;
    StartsWithConcat("delete ", word);
    StartsWithShorter(s, "delete", " ");
    DeleteBranch(s);
  }

  /** Typing "mark <n>" gives back n, flagged done. */
  lemma MarkRoundTrip(n: nat)
    requires n <= MAX_INT
    ensures Parse("mark " + Decimal(n)) == Success(Mark(n, true))
  {
    DecimalWord(n);
    ParseIntDecimal(n);
    MarkWord(Decimal(n), n);
  }

  /** Typing "unmark <n>" gives back n, flagged not done. */
  lemma UnmarkRoundTrip(n: nat)
    requires n <= MAX_INT
    ensures Parse("unmark " + Decimal(n)) == Success(Mark(n, false))
  {
    DecimalWord(n);
    ParseIntDecimal(n);
    UnmarkWord(Decimal(n), n);
  }

  /** Typing "delete <n>" gives back n. */
  lemma DeleteRoundTrip(n: nat)
    requires n <= MAX_INT
    ensures Parse("delete " + Decimal(n)) == Success(Delete(n))
  {
    DecimalWord(n);
    ParseIntDecimal(n);
    DeleteWord(Decimal(n), n);
  }

  // ---------------------------------------------------------------- quirks

  /** Keywords are prefixes: no space is needed after "todo", and the fifth character is lost. */
  lemma TodoWithoutSpace()
    ensures Parse("todoread") == Success(AddTodo("ead"))
  {
    assert IsTrimmed("ead");
    TodoAfterFifth('r', "ead");
    assert "todo" + (['r'] + "ead") == "todoread";
  }

  /** "bye" and "list" ignore case. */
  lemma WordsIgnoreCase()
    ensures Parse("BYE") == Success(Exit)
    ensures Parse("List") == Success(ListAll)
  {
    assert EqualsIgnoreCase("BYE", "bye");
    assert !EqualsIgnoreCase("List", "bye");
    assert EqualsIgnoreCase("List", "list");
  }

  /** The other keywords are matched with their case. */
  lemma PrefixesKeepCase()
    ensures Parse("Find x") == Failure(UnknownCommand)
  {
    var s := "Find x";
    LongIsNotWord(s);
    DiffersAt(s, "find", 0);
    DiffersAt(s, "mark", 0);
    DiffersAt(s, "unmark", 0);
    DiffersAt(s, "todo", 0);
    DiffersAt(s, "deadline", 0);
    DiffersAt(s, "event", 0);
    DiffersAt(s, "delete", 0);
  }

  /** A keyword alone reports its own format error rather than an unknown command. */
  lemma BareTodo()
    ensures Parse("todo") == Failure(TodoFormat)
  {
    var s := "todo";
    assert !EqualsIgnoreCase(s, "list") by {
      assert LowerChar(s[0]) != LowerChar("list"[0]);
    }
    DiffersAt(s, "find", 0);
    DiffersAt(s, "mark", 0);
    assert StartsWith(s, "todo") by {
      assert s[..4] == s;
    }
  }

  lemma BareFind()
    ensures Parse("find") == Failure(FindFormat)
  {
    var s := "find";
    assert !EqualsIgnoreCase(s, "list") by {
      assert LowerChar(s[0]) != LowerChar("list"[0]);
    }
    assert StartsWith(s, "find") by {
      assert s[..4] == s;
    }
  }

  lemma BareDelete()
    ensures Parse("delete") == Failure(DeleteFormat)
  {
    var s := "delete";
    assert StartsWith(s, "delete") by {
      assert s[..6] == s;
    }
    DeleteBranch(s);
  }

  lemma BareMark()
    ensures Parse("mark") == Failure(MissingTaskNumber)
  {
    var s := "mark";
    assert !EqualsIgnoreCase(s, "list") by {
      assert LowerChar(s[0]) != LowerChar("list"[0]);
    }
    DiffersAt(s, "find", 0);
    assert StartsWith(s, "mark") by {
      assert s[..4] == s;
    }
    assert NoRegexSpace(s);
    assert SplitWhitespace(s) == [s];
  }
}
