/**
  The to-do list component: an ordered list of task strings and the text of
  the input box, changed by three handlers (typing, add, delete).
  The new lists are computed as values (`Append`, `RemoveAt`); the component's
  two state cells are the fields of `TaskList`.
 */
module TodoList {

  /** The list after `[...tasks, task]`: one element longer, every earlier
      element in place, the new text last. */
  function Append(tasks: seq<string>, task: string): (r: seq<string>)
    ensures |r| == |tasks| + 1
    ensures r[..|tasks|] == tasks
    ensures r[|tasks|] == task
  {
    tasks + [task]
  }

  /** The list after `tasks.filter((_, i) => i !== index)`: every element is kept,
      in order, except the one whose position is `index`. Defined position by
      position from the end, so that every element keeps its original index. */
  function RemoveAt(tasks: seq<string>, index: int): (r: seq<string>)
    ensures |r| == if 0 <= index < |tasks| then |tasks| - 1 else |tasks|
    decreases |tasks|
  {
    if |tasks| == 0 then []
    else
      var last := |tasks| - 1;
      RemoveAt(tasks[..last], index) + (if last != index then [tasks[last]] else [])
  }

  /** Adding adds exactly one occurrence of the text and removes nothing. */
  lemma AppendAddsOneOccurrence(tasks: seq<string>, task: string)
    ensures multiset(Append(tasks, task)) == multiset(tasks) + multiset{task}
  {
  }

  /** There is no uniqueness check: adding the same text twice gives two equal entries. */
  lemma DuplicatesAllowed(tasks: seq<string>, task: string)
    ensures var r := Append(Append(tasks, task), task);
      |r| == |tasks| + 2 && r[|tasks|] == task && r[|tasks| + 1] == task &&
      multiset(r)[task] == multiset(tasks)[task] + 2
  {
    assert Append(Append(tasks, task), task) == tasks + [task, task];
  }

  /** The filter is a splice: inside the range it cuts out exactly position
      `index`, outside the range it returns the list unchanged. */
  lemma {:induction false} RemoveAtIsSplice(tasks: seq<string>, index: int)
    ensures RemoveAt(tasks, index) ==
      if 0 <= index < |tasks| then tasks[..index] + tasks[index + 1..] else tasks
    decreases |tasks|
  {
    if |tasks| > 0 {
      var last := |tasks| - 1;
      var init := tasks[..last];
      RemoveAtIsSplice(init, index);
      if index == last {
        assert tasks[..index] + tasks[index + 1..] == init;
      } else if 0 <= index < last {
        assert init[..index] == tasks[..index];
        assert init[index + 1..] + [tasks[last]] == tasks[index + 1..];
        assert init[..index] + init[index + 1..] + [tasks[last]]
            == tasks[..index] + tasks[index + 1..];
      } else {
        assert init + [tasks[last]] == tasks;
      }
    }
  }

  /** Deleting keeps the relative order of the remaining tasks: the elements
      before `index` stay where they were and those after it move up by one. */
  lemma RemoveAtKeepsOrder(tasks: seq<string>, index: int)
    requires 0 <= index < |tasks|
    ensures |RemoveAt(tasks, index)| == |tasks| - 1
    ensures forall j :: 0 <= j < index ==> RemoveAt(tasks, index)[j] == tasks[j]
    ensures forall j :: index <= j < |tasks| - 1 ==> RemoveAt(tasks, index)[j] == tasks[j + 1]
  {
    RemoveAtIsSplice(tasks, index);
  }

  /** Cutting position `index` out of a sequence removes one occurrence of
      the element there and nothing else. */
  lemma MultisetWithout<T>(s: seq<T>, index: nat, r: seq<T>)
    requires index < |s| && r == s[..index] + s[index + 1..]
    ensures multiset(r) == multiset(s) - multiset{s[index]}
  {
    var before, x, after := s[..index], s[index], s[index + 1..];
    assert s == before + [x] + after;
    calc {
      multiset(s) - multiset{x};
      multiset(before) + multiset{x} + multiset(after) - multiset{x};
      multiset(before) + multiset(after);
    }
  }

  /** Deleting removes exactly one occurrence of the deleted text and nothing else. */
  lemma RemoveAtRemovesOne(tasks: seq<string>, index: int)
    requires 0 <= index < |tasks|
    ensures multiset(RemoveAt(tasks, index)) == multiset(tasks) - multiset{tasks[index]}
  {
    RemoveAtIsSplice(tasks, index);
    MultisetWithout(tasks, index, RemoveAt(tasks, index));
  }

  /** An index outside the list deletes nothing. */
  lemma RemoveAtOutOfRange(tasks: seq<string>, index: int)
    requires index < 0 || |tasks| <= index
    ensures RemoveAt(tasks, index) == tasks
  {
    RemoveAtIsSplice(tasks, index);
  }

  /** The component's state: `tasks` (the list) and `task` (the input text). */
  class TaskList {
    var tasks: seq<string>
    var task: string

    /** Both state cells start empty. */
    constructor ()
      ensures tasks == [] && task == ""
    {
      tasks := [];
      task := "";
    }

    /** Typing: the input becomes exactly the typed text; the list is untouched. */
    method SetTask(value: string)
      modifies this
      ensures task == value
      ensures tasks == old(tasks)
    {
      task := value;
    }

    /** Add: a non-empty input (whitespace counts, the test is JavaScript
        truthiness of a string) is appended and the input is cleared; an
        empty input changes nothing. */
    method AddTask()
      modifies this
      ensures old(task) != "" ==> tasks == Append(old(tasks), old(task)) && task == ""
      ensures old(task) == "" ==> tasks == old(tasks) && task == old(task)
    {
      if task != "" {
        tasks := Append(tasks, task);
        task := "";
      }
    }

    /** Delete: the element at position `index` is filtered out; an index
        outside the list leaves it unchanged; the input is never touched. */
    method DeleteTask(index: int)
      modifies this
      ensures tasks == RemoveAt(old(tasks), index)
      ensures tasks == if 0 <= index < |old(tasks)| then old(tasks)[..index] + old(tasks)[index + 1..] else old(tasks)
      ensures task == old(task)
    {
      tasks := RemoveAt(tasks, index);
      RemoveAtIsSplice(old(tasks), index);
    }
  }
}
