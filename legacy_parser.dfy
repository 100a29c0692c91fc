// The earlier, unpackaged parser. Its keywords must be followed by a space,
// it has no find command, and delete has no length check of its own; the
// argument parsing of each keyword is the same as the packaged parser's.

module LegacyParser {
  import opened Errors
  import opened JavaStrings
  import opened Commands
  import P = Parser

  /** parseDeleteCommand of the legacy parser: straight to the task number. */
  function ParseDelete(input: string): (r: Result<Command>)
    ensures r.Success? <==> P.ParseTaskNumber(input, "delete").Success?
    ensures r.Success? ==> r.value == Delete(P.ParseTaskNumber(input, "delete").value)
    ensures r.Failure? ==> r.error == P.ParseTaskNumber(input, "delete").error
  {
    match P.ParseTaskNumber(input, "delete")
    case Failure(e) => Failure(e)
    case Success(n) => Success(Delete(n))
  }

  /** Whether any keyword test of the legacy parse accepts the input. */
  predicate IsKnown(input: string)
  {
    EqualsIgnoreCase(input, "bye") || EqualsIgnoreCase(input, "list")
    || StartsWith(input, "mark ") || StartsWith(input, "unmark ") || StartsWith(input, "todo ")
    || StartsWith(input, "deadline ") || StartsWith(input, "event ") || StartsWith(input, "delete ")
  }

  /** Parser.parse of the legacy program. */
  function Parse(input: string): (r: Result<Command>)
    ensures r == Failure(UnknownCommand) <==> !IsKnown(input)
    ensures r == Success(Exit) <==> EqualsIgnoreCase(input, "bye")
    ensures r == Success(ListAll) <==> EqualsIgnoreCase(input, "list")
    ensures r.Success? ==> P.WellFormed(r.value) && !r.value.Find?
  {
    if EqualsIgnoreCase(input, "bye") then Success(Exit)
    else if EqualsIgnoreCase(input, "list") then Success(ListAll)
    else if StartsWith(input, "mark ") then P.ParseMark(input, true)
    else if StartsWith(input, "unmark ") then P.ParseMark(input, false)
    else if StartsWith(input, "todo ") then P.ParseTodo(input)
    else if StartsWith(input, "deadline ") then P.ParseDeadline(input)
    else if StartsWith(input, "event ") then P.ParseEvent(input)
    else if StartsWith(input, "delete ") then ParseDelete(input)
    else Failure(UnknownCommand)
  }

  /** A prefix followed by a space is in particular that prefix. */
  lemma PrefixOfSpaced(input: string, word: string)
    requires StartsWith(input, word + " ")
    ensures StartsWith(input, word) && |input| > |word|
  {
    assert input[..|word|] == (word + " ")[..|word|] == word;
  }

  // ---------------------------------------------------------------- branches

  lemma MarkBranch(input: string)
    requires StartsWith(input, "mark ")
    ensures Parse(input) == P.ParseMark(input, true)
  {
    P.LongIsNotWord(input);
  }

  lemma UnmarkBranch(input: string)
    requires StartsWith(input, "unmark ")
    ensures Parse(input) == P.ParseMark(input, false)
  {
    P.LongIsNotWord(input);
    assert input[0] == 'u';
    P.DiffersAt(input, "mark ", 0);
  }

  lemma TodoBranch(input: string)
    requires StartsWith(input, "todo ")
    ensures Parse(input) == P.ParseTodo(input)
  {
    P.LongIsNotWord(input);
    assert input[0] == 't';
    P.DiffersAt(input, "mark ", 0);
    P.DiffersAt(input, "unmark ", 0);
  }

  lemma DeadlineBranch(input: string)
    requires StartsWith(input, "deadline ")
    ensures Parse(input) == P.ParseDeadline(input)
  {
    P.LongIsNotWord(input);
    assert input[0] == 'd';
    P.DiffersAt(input, "mark ", 0);
    P.DiffersAt(input, "unmark ", 0);
    P.DiffersAt(input, "todo ", 0);
  }

  lemma EventBranch(input: string)
    requires StartsWith(input, "event ")
    ensures Parse(input) == P.ParseEvent(input)
  {
    P.LongIsNotWord(input);
    assert input[0] == 'e';
    P.DiffersAt(input, "mark ", 0);
    P.DiffersAt(input, "unmark ", 0);
    P.DiffersAt(input, "todo ", 0);
    P.DiffersAt(input, "deadline ", 0);
  }

  lemma DeleteBranch(input: string)
    requires StartsWith(input, "delete ")
    ensures Parse(input) == ParseDelete(input)
  {
    P.LongIsNotWord(input);
    assert input[0] == 'd' && input[2] == 'l';
    P.DiffersAt(input, "mark ", 0);
    P.DiffersAt(input, "unmark ", 0);
    P.DiffersAt(input, "todo ", 0);
    P.DiffersAt(input, "deadline ", 2);
    P.DiffersAt(input, "event ", 0);
  }

  // ---------------------------------------------------------------- against the packaged parser

  /**
   * Every command the legacy parser produces is also what the packaged parser
   * makes of the same line: the packaged parser accepts more, never differently.
   */
  lemma LegacyAgrees(input: string)
    requires Parse(input).Success?
    ensures P.Parse(input) == Parse(input)
  {
    if EqualsIgnoreCase(input, "bye") || EqualsIgnoreCase(input, "list") {
    } else if StartsWith(input, "mark ") {
      MarkAgrees(input);
    } else if StartsWith(input, "unmark ") {
      UnmarkAgrees(input);
    } else if StartsWith(input, "todo ") {
      TodoAgrees(input);
    } else if StartsWith(input, "deadline ") {
      DeadlineAgrees(input);
    } else if StartsWith(input, "event ") {
      EventAgrees(input);
    } else {
      DeleteBranch(input);
      DeleteAgrees(input);
    }
  }

  lemma MarkAgrees(input: string)
    requires StartsWith(input, "mark ")
    ensures P.Parse(input) == Parse(input)
  {
    MarkBranch(input);
    PrefixOfSpaced(input, "mark");
    P.MarkBranch(input);
  }

  lemma UnmarkAgrees(input: string)
    requires StartsWith(input, "unmark ")
    ensures P.Parse(input) == Parse(input)
  {
    UnmarkBranch(input);
    PrefixOfSpaced(input, "unmark");
    P.UnmarkBranch(input);
  }

  lemma TodoAgrees(input: string)
    requires StartsWith(input, "todo ")
    ensures P.Parse(input) == Parse(input)
  {
    TodoBranch(input);
    PrefixOfSpaced(input, "todo");
    P.TodoBranch(input);
  }

  lemma DeadlineAgrees(input: string)
    requires StartsWith(input, "deadline ")
    ensures P.Parse(input) == Parse(input)
  {
    DeadlineBranch(input);
    PrefixOfSpaced(input, "deadline");
    P.DeadlineBranch(input);
  }

  lemma EventAgrees(input: string)
    requires StartsWith(input, "event ")
    ensures P.Parse(input) == Parse(input)
  {
    EventBranch(input);
    PrefixOfSpaced(input, "event");
    P.EventBranch(input);
  }

  /** "delete " alone has no task number. */
  lemma DeleteWithoutNumber()
    ensures P.ParseTaskNumber("delete ", "delete") == Failure(MissingTaskNumber)
  {
    assert SplitWhitespace("delete ") == ["delete"] by {
      SplitWordSpace("delete");
      assert "delete" + " " == "delete ";
    }
  }

  /** The delete case: a number was found, so there is more than "delete " to the line. */
  lemma DeleteAgrees(input: string)
    requires StartsWith(input, "delete ") && ParseDelete(input).Success?
    ensures P.Parse(input) == ParseDelete(input)
  {
    PrefixOfSpaced(input, "delete");
    if |input| == 7 {
      assert input == "delete " by {
        assert input == input[..7];
      }
      DeleteWithoutNumber();
      assert false;
    }
    P.DeleteBranch(input);
  }

  /** Only the packaged parser knows find. */
  lemma FindUnknown()
    ensures Parse("find book") == Failure(UnknownCommand)
    ensures P.Parse("find book") == Success(Find("book"))
  {
    var s := "find book";
    P.LongIsNotWord(s);
    P.DiffersAt(s, "mark ", 0);
    P.DiffersAt(s, "unmark ", 0);
    P.DiffersAt(s, "todo ", 0);
    P.DiffersAt(s, "deadline ", 0);
    P.DiffersAt(s, "event ", 0);
    P.DiffersAt(s, "delete ", 0);
    P.FindRoundTrip("book");
    assert "find " + "book" == s;
  }

  /** A bare keyword is unknown here, but a format error in the packaged parser. */
  lemma BareTodoUnknown()
    ensures Parse("todo") == Failure(UnknownCommand)
    ensures P.Parse("todo") == Failure(TodoFormat)
  {
    assert !EqualsIgnoreCase("todo", "list") by {
      assert LowerChar("todo"[0]) != LowerChar("list"[0]);
    }
    P.BareTodo();
  }

  /** A bare "delete " is a missing number here and a format error in the packaged parser. */
  lemma DeleteAlone()
    ensures Parse("delete ") == Failure(MissingTaskNumber)
    ensures P.Parse("delete ") == Failure(DeleteFormat)
  {
    var s := "delete ";
    assert StartsWith(s, "delete ") by {
      assert s[..7] == "delete ";
    }
    DeleteBranch(s);
    DeleteWithoutNumber();
    assert StartsWith(s, "delete") by {
      assert s[..6] == "delete";
    }
    P.DeleteBranch(s);
  }
}
