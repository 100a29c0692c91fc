// The task list: an ordered, 1-indexed collection of task objects with a
// capacity check on insertion and a case-insensitive keyword search.

module TaskLists {
  import opened Errors
  import opened Wrappers
  import opened JavaStrings
  import opened Tasks

  /** addTask refuses to grow the list past this size. */
  const MAX_TASKS: nat := 100

  /** A task matches when its lower-cased description contains the lower-cased keyword. */
  predicate MatchesKeyword(t: Task, keyword: string)
    ensures MatchesKeyword(t, keyword) <==>
      exists k: nat :: OccursAt(ToLower(t.description), ToLower(keyword), k)
  {
    Contains(ToLower(t.description), ToLower(keyword))
  }

  /** The tasks of ts that match keyword, in their order in ts. */
  function Matching(ts: seq<Task>, keyword: string): (r: seq<Task>)
    ensures |r| <= |ts|
    ensures forall i :: 0 <= i < |r| ==> r[i] in ts && MatchesKeyword(r[i], keyword)
    ensures forall i :: 0 <= i < |ts| && MatchesKeyword(ts[i], keyword) ==> ts[i] in r
  {
    if ts == [] then []
    else
      var last := ts[|ts| - 1];
      var front := Matching(ts[..|ts| - 1], keyword);
      assert ts == ts[..|ts| - 1] + [last];
      front + (if MatchesKeyword(last, keyword) then [last] else [])
  }

  /** Searching two lists one after the other finds the same tasks in the same order. */
  lemma {:induction false} MatchingConcat(a: seq<Task>, b: seq<Task>, keyword: string)
    ensures Matching(a + b, keyword) == Matching(a, keyword) + Matching(b, keyword)
  {
    if b == [] {
      assert a + b == a;
    } else {
      var b' := b[..|b| - 1];
      assert (a + b)[..|a + b| - 1] == a + b';
      MatchingConcat(a, b', keyword);
    }
  }

  /** Every string contains the empty string, so an empty keyword finds every task. */
  lemma {:induction false} MatchingEmptyKeyword(ts: seq<Task>)
    ensures Matching(ts, "") == ts
  {
    if ts != [] {
      var d := ToLower(ts[|ts| - 1].description);
      assert OccursAt(d, ToLower(""), 0);
      MatchingEmptyKeyword(ts[..|ts| - 1]);
    }
  }

  /** The search is case-insensitive: changing the keyword's case changes nothing. */
  lemma {:induction false} MatchingIgnoresCase(ts: seq<Task>, k1: string, k2: string)
    requires EqualsIgnoreCase(k1, k2)
    ensures Matching(ts, k1) == Matching(ts, k2)
  {
    assert ToLower(k1) == ToLower(k2);
    if ts != [] {
      MatchingIgnoresCase(ts[..|ts| - 1], k1, k2);
    }
  }

  class TaskList {
    var tasks: seq<Task>

    constructor ()
      ensures tasks == []
    {
      tasks := [];
    }

    /** Wraps an existing list; the capacity is not checked here. */
    constructor FromTasks(ts: seq<Task>)
      ensures tasks == ts
    {
      tasks := ts;
    }

    /** getTaskCount: the tasks held, which bounds the valid task numbers. */
    function TaskCount(): (r: nat)
      reads this
      ensures r == 0 <==> tasks == []
      ensures forall n :: IsValidTaskNumber(n) <==> 1 <= n <= r
    {
      |tasks|
    }

    /** Task numbers run from 1 to the current size: number n names index n - 1 of the list. */
    predicate IsValidTaskNumber(n: int)
      reads this
      ensures IsValidTaskNumber(n) <==> 0 <= n - 1 < |tasks|
    {
      1 <= n <= |tasks|
    }

    function GetTask(n: int): (r: Result<Task>)
      reads this
      ensures r.Success? <==> 1 <= n <= |tasks|
      ensures r.Success? ==> r.value == tasks[n - 1]
      ensures r.Failure? ==> r.error == InvalidTaskNumber
    {
      if IsValidTaskNumber(n) then Success(tasks[n - 1]) else Failure(InvalidTaskNumber)
    }

    /** Appends t unless the list already holds MAX_TASKS tasks. */
    method AddTask(t: Task) returns (r: Outcome)
      modifies this
      ensures old(|tasks|) >= MAX_TASKS ==> r == Fail(ListFull) && tasks == old(tasks)
      ensures old(|tasks|) < MAX_TASKS ==> r == Pass && tasks == old(tasks) + [t]
    {
      if |tasks| >= MAX_TASKS {
        return Fail(ListFull);
      }
      tasks := tasks + [t];
      return Pass;
    }

    /**
     * Removes and returns task n. An invalid number reports the list-full
     * error, the message deleteTask reuses.
     */
    method DeleteTask(n: int) returns (r: Result<Task>)
      modifies this
      ensures !(1 <= n <= old(|tasks|)) ==> r == Failure(ListFull) && tasks == old(tasks)
      ensures 1 <= n <= old(|tasks|) ==>
        r == Success(old(tasks)[n - 1]) && tasks == old(tasks)[..n - 1] + old(tasks)[n..]
    {
      if !IsValidTaskNumber(n) {
        return Failure(ListFull);
      }
      r := Success(tasks[n - 1]);
      tasks := tasks[..n - 1] + tasks[n..];
    }

    /**
     * Sets the done flag of task n. Only that task object changes; the list
     * itself does not.
     */
    method MarkTask(n: int, isDone: bool) returns (r: Outcome)
      modifies tasks
      ensures r == (if 1 <= n <= |tasks| then Pass else Fail(InvalidTaskNumber))
      ensures r.Pass? ==> tasks[n - 1].isDone == isDone
      ensures forall t :: t in tasks && (r.Fail? || t != tasks[n - 1]) ==> t.isDone == old(t.isDone)
    {
      if !IsValidTaskNumber(n) {
        return Fail(InvalidTaskNumber);
      }
      var task := tasks[n - 1];
      if isDone {
        task.MarkAsDone();
      } else {
        task.MarkAsNotDone();
      }
      return Pass;
    }

    /** The tasks whose description contains keyword, ignoring ASCII case, in list order. */
    method FindTasks(keyword: string) returns (found: seq<Task>)
      ensures found == Matching(tasks, keyword)
    {
      var searchTerm := ToLower(keyword);
      found := [];
      var i := 0;
      while i < |tasks|
        invariant 0 <= i <= |tasks|
        invariant found == Matching(tasks[..i], keyword)
      {
        var task := tasks[i];
        assert tasks[..i + 1][..i] == tasks[..i];
        if Contains(ToLower(task.description), searchTerm) {
          found := found + [task];
        }
        i := i + 1;
      }
      assert tasks[..i] == tasks;
    }
  }
}
