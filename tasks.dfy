/**
 * `incomplete_tasks_by_user`: the todos that are not completed, grouped by
 * `userId` into `{"username": ..., "tasks": [...]}` entries. The grouping is
 * returned here instead of being written to `todo_list.json` and printed.
 */
module TaskGrouping {
  import opened Wrappers
  import opened Sequences
  import opened Dicts
  import opened Records
  import opened Identity

  /** One value of `todo_list`: `{"username": username, "tasks": [...]}`. */
  datatype TodoEntry = TodoEntry(username: string, tasks: seq<Record>)

  /** `todo_list`: userId -> entry, in insertion order. */
  type TodoList = Dict<int, TodoEntry>

  /** `[task for task in task_list if not task["completed"]]`. */
  function IncompleteTasks(todos: seq<Record>): (r: seq<Record>)
    ensures forall t :: t in r ==> t in todos && !t.completed
  {
    if todos == [] then []
    else
      var n := |todos| - 1;
      assert todos == todos[..n] + [todos[n]];
      IncompleteTasks(todos[..n]) + (if todos[n].completed then [] else [todos[n]])
  }

  /** The filter keeps every incomplete task as often as it occurs, and nothing else. */
  lemma {:induction false} IncompleteCount(todos: seq<Record>, t: Record)
    ensures multiset(IncompleteTasks(todos))[t] == if t.completed then 0 else multiset(todos)[t]
  {
    if todos != [] {
      var n := |todos| - 1;
      assert todos == todos[..n] + [todos[n]];
      IncompleteCount(todos[..n], t);
    }
  }

  /** The positions of the incomplete todos, in increasing order. */
  function IncompletePositions(todos: seq<Record>): seq<int>
  {
    if todos == [] then []
    else
      var n := |todos| - 1;
      IncompletePositions(todos[..n]) + (if todos[n].completed then [] else [n])
  }

  /** The positions are in range, strictly increasing, and exactly those of the incomplete todos. */
  lemma {:induction false} IncompletePositionsExact(todos: seq<Record>)
    ensures var pos := IncompletePositions(todos);
            && (forall k :: 0 <= k < |pos| ==> 0 <= pos[k] < |todos|)
            && (forall k, l :: 0 <= k < l < |pos| ==> pos[k] < pos[l])
            && (forall j :: 0 <= j < |todos| ==> (j in pos <==> !todos[j].completed))
  {
    if todos != [] {
      var n := |todos| - 1;
      var prefix := todos[..n];
      IncompletePositionsExact(prefix);
      assert forall j :: 0 <= j < n ==> prefix[j] == todos[j];
    }
  }

  /** The k-th kept todo is the todo at the k-th incomplete position. */
  lemma {:induction false} IncompleteAtPositions(todos: seq<Record>)
    ensures var kept, pos := IncompleteTasks(todos), IncompletePositions(todos);
            && |kept| == |pos|
            && forall k :: 0 <= k < |pos| ==> 0 <= pos[k] < |todos| && kept[k] == todos[pos[k]]
  {
    if todos != [] {
      var n := |todos| - 1;
      var prefix := todos[..n];
      IncompleteAtPositions(prefix);
      var pos := IncompletePositions(prefix);
      assert forall k :: 0 <= k < |pos| ==> prefix[pos[k]] == todos[pos[k]];
    }
  }

  /**
   * The filter selects exactly the incomplete positions, in increasing order:
   * the kept todos are the subsequence of `todos` made of the incomplete ones.
   */
  lemma {:induction false} IncompleteIsOrderedSelection(todos: seq<Record>)
    ensures var kept, pos := IncompleteTasks(todos), IncompletePositions(todos);
            && |kept| == |pos|
            && (forall k :: 0 <= k < |pos| ==> 0 <= pos[k] < |todos| && kept[k] == todos[pos[k]])
            && (forall k, l :: 0 <= k < l < |pos| ==> pos[k] < pos[l])
            && (forall j :: 0 <= j < |todos| ==> (j in pos <==> !todos[j].completed))
  {
    IncompletePositionsExact(todos);
    IncompleteAtPositions(todos);
  }

  /** The tasks of `tasks` whose `userId` is `userId`, in order. */
  function TasksOf(tasks: seq<Record>, userId: int): (r: seq<Record>)
    ensures forall t :: t in r ==> t in tasks && t.userId == userId
  {
    if tasks == [] then []
    else
      var n := |tasks| - 1;
      assert tasks == tasks[..n] + [tasks[n]];
      TasksOf(tasks[..n], userId) + (if tasks[n].userId == userId then [tasks[n]] else [])
  }

  function UserIds(tasks: seq<Record>): seq<int>
  {
    seq(|tasks|, i requires 0 <= i < |tasks| => tasks[i].userId)
  }

  function TaskCount(e: TodoEntry): nat
  {
    |e.tasks|
  }

  /** The entry `userId` holds after one pass: its tasks so far plus `task`, created on the first task. */
  function AddedEntry(list: TodoList, userId: int, username: string, task: Record): TodoEntry
  {
    match Get(list, userId)
    case Some(e) => e.(tasks := e.tasks + [task])
    case None => TodoEntry(username, [task])
  }

  /** One pass of the loop body: create the entry on the user's first task, then append. */
  function AddTask(list: TodoList, userId: int, username: string, task: Record): TodoList
  {
    Put(list, userId, AddedEntry(list, userId, username, task))
  }

  /**
   * The loop over the incomplete tasks: the grouping so far, or `None` once a
   * `userId` does not resolve (the IndexError that ends the whole pass).
   */
  function GroupTasks(identity: IdentityMap, tasks: seq<Record>): Option<TodoList>
  {
    if tasks == [] then Some([])
    else
      var n := |tasks| - 1;
      match GroupTasks(identity, tasks[..n])
      case None => None
      case Some(list) =>
        match ReverseLookup(identity, tasks[n].userId)
        case None => None
        case Some(u) => Some(AddTask(list, tasks[n].userId, u, tasks[n]))
  }

  /** What `incomplete_tasks_by_user` computes. */
  function TodoListOf(identity: IdentityMap, todos: seq<Record>): Option<TodoList>
  {
    GroupTasks(identity, IncompleteTasks(todos))
  }

  /** The pass fails exactly when some task's `userId` does not resolve. */
  lemma {:induction false} GroupTasksFails(identity: IdentityMap, tasks: seq<Record>)
    ensures GroupTasks(identity, tasks).None? <==> !AllResolve(identity, tasks)
  {
    if tasks != [] {
      var n := |tasks| - 1;
      GroupTasksFails(identity, tasks[..n]);
      AllResolvePrefix(identity, tasks);
    }
  }

  /** The entry a user's tasks should produce: none if the user has no tasks. */
  function ExpectedEntry(identity: IdentityMap, tasks: seq<Record>, userId: int): Option<TodoEntry>
  {
    if TasksOf(tasks, userId) == [] then None
    else match ReverseLookup(identity, userId)
         case None => None
         case Some(u) => Some(TodoEntry(u, TasksOf(tasks, userId)))
  }

  ghost predicate HoldsTasksOf(identity: IdentityMap, tasks: seq<Record>, list: TodoList)
  {
    forall userId :: Get(list, userId) == ExpectedEntry(identity, tasks, userId)
  }

  lemma {:induction false} GetAddTask(list: TodoList, userId: int, username: string, task: Record, k: int)
    ensures Get(AddTask(list, userId, username, task), k) ==
            if k != userId then Get(list, k)
            else match Get(list, userId)
                 case Some(e) => Some(e.(tasks := e.tasks + [task]))
                 case None => Some(TodoEntry(username, [task]))
  {
    GetPut(list, userId, AddedEntry(list, userId, username, task), k);
  }

  /** When every task resolves, the entries are keyed by user in order of each user's first task. */
  lemma {:induction false} GroupTasksKeys(identity: IdentityMap, tasks: seq<Record>)
    requires AllResolve(identity, tasks)
    ensures GroupTasks(identity, tasks).Some?
    ensures Keys(GroupTasks(identity, tasks).value) == Distinct(UserIds(tasks))
  {
    GroupTasksFails(identity, tasks);
    if tasks != [] {
      var n := |tasks| - 1;
      var t := tasks[n];
      AllResolvePrefix(identity, tasks);
      GroupTasksKeys(identity, tasks[..n]);
      var list := GroupTasks(identity, tasks[..n]).value;
      var u := ReverseLookup(identity, t.userId).value;
      assert UserIds(tasks[..n]) == UserIds(tasks)[..n];
      PutKeys(list, t.userId, AddedEntry(list, t.userId, u, t));
    }
  }

  /** When every task resolves, the entries hold every task exactly once. */
  lemma {:induction false} GroupTasksTotal(identity: IdentityMap, tasks: seq<Record>)
    requires AllResolve(identity, tasks)
    ensures GroupTasks(identity, tasks).Some?
    ensures SumOf(GroupTasks(identity, tasks).value, TaskCount) == |tasks|
  {
    GroupTasksFails(identity, tasks);
    if tasks != [] {
      var n := |tasks| - 1;
      var t := tasks[n];
      AllResolvePrefix(identity, tasks);
      GroupTasksTotal(identity, tasks[..n]);
      var list := GroupTasks(identity, tasks[..n]).value;
      var u := ReverseLookup(identity, t.userId).value;
      SumOfPut(list, t.userId, AddedEntry(list, t.userId, u, t), TaskCount);
    }
  }

  /**
   * When every task resolves, each user with tasks has an entry holding the
   * username the id resolves to and that user's tasks in order; no other
   * user has one.
   */
  lemma {:induction false} GroupTasksHolds(identity: IdentityMap, tasks: seq<Record>)
    requires AllResolve(identity, tasks)
    ensures GroupTasks(identity, tasks).Some?
    ensures HoldsTasksOf(identity, tasks, GroupTasks(identity, tasks).value)
  {
    GroupTasksFails(identity, tasks);
    if tasks != [] {
      var n := |tasks| - 1;
      AllResolvePrefix(identity, tasks);
      GroupTasksHolds(identity, tasks[..n]);
      var list := GroupTasks(identity, tasks[..n]).value;
      var u := ReverseLookup(identity, tasks[n].userId).value;
      forall k ensures Get(AddTask(list, tasks[n].userId, u, tasks[n]), k) == ExpectedEntry(identity, tasks, k) {
        assert Get(list, k) == ExpectedEntry(identity, tasks[..n], k);
        AddTaskExpected(identity, tasks, list, u, k);
      }
    }
  }

  /** One step of the loop keeps each user's entry equal to the one its tasks should produce. */
  lemma AddTaskExpected(identity: IdentityMap, tasks: seq<Record>, list: TodoList, u: string, k: int)
    requires tasks != []
    requires Get(list, k) == ExpectedEntry(identity, tasks[..|tasks| - 1], k)
    requires ReverseLookup(identity, tasks[|tasks| - 1].userId) == Some(u)
    ensures Get(AddTask(list, tasks[|tasks| - 1].userId, u, tasks[|tasks| - 1]), k) ==
            ExpectedEntry(identity, tasks, k)
  {
    var n := |tasks| - 1;
    var t := tasks[n];
    GetAddTask(list, t.userId, u, t, k);
    var old_k := TasksOf(tasks[..n], k);
    if k == t.userId {
      assert TasksOf(tasks, k) == old_k + [t];
      if old_k == [] {
        assert Get(list, k) == None;
        assert TasksOf(tasks, k) == [t];
        assert ExpectedEntry(identity, tasks, k) == Some(TodoEntry(u, [t]));
      } else {
        assert Get(list, k) == Some(TodoEntry(u, old_k));
        assert |TasksOf(tasks, k)| > 0;
        assert ExpectedEntry(identity, tasks, k) == Some(TodoEntry(u, old_k + [t]));
      }
    } else {
      assert TasksOf(tasks, k) == old_k;
    }
  }

  /** `incomplete_tasks_by_user` aborts exactly when an incomplete task's `userId` does not resolve. */
  lemma TodoListFailsIff(identity: IdentityMap, todos: seq<Record>)
    ensures TodoListOf(identity, todos).None? <==>
            exists j :: 0 <= j < |todos| && !todos[j].completed &&
                        ReverseLookup(identity, todos[j].userId).None?
  {
    var tasks := IncompleteTasks(todos);
    GroupTasksFails(identity, tasks);
    if !AllResolve(identity, tasks) {
      var i :| 0 <= i < |tasks| && ReverseLookup(identity, tasks[i].userId).None?;
      assert tasks[i] in tasks;
    }
    if exists j :: 0 <= j < |todos| && !todos[j].completed && ReverseLookup(identity, todos[j].userId).None? {
      var j :| 0 <= j < |todos| && !todos[j].completed && ReverseLookup(identity, todos[j].userId).None?;
      IncompleteCount(todos, todos[j]);
      assert todos[j] in multiset(todos);
      assert todos[j] in tasks;
      var i :| 0 <= i < |tasks| && tasks[i] == todos[j];
    }
  }

  /**
   * Each entry is keyed by a `userId`, carries the username that id resolves
   * to, and holds that user's incomplete tasks, none of them completed, in
   * their order in `todos`.
   */
  lemma TodoListEntries(identity: IdentityMap, todos: seq<Record>, list: TodoList, i: nat)
    requires TodoListOf(identity, todos) == Some(list)
    requires i < |list|
    ensures ReverseLookup(identity, list[i].0) == Some(list[i].1.username)
    ensures list[i].1.tasks == TasksOf(IncompleteTasks(todos), list[i].0) != []
    ensures forall t :: t in list[i].1.tasks ==> !t.completed && t.userId == list[i].0
  {
    var tasks := IncompleteTasks(todos);
    GroupTasksFails(identity, tasks);
    GroupTasksKeys(identity, tasks);
    GroupTasksHolds(identity, tasks);
    assert HoldsTasksOf(identity, tasks, list);
    assert NoDuplicates(Keys(list));
    GetEntry(list, i);
    assert Get(list, list[i].0) == ExpectedEntry(identity, tasks, list[i].0);
  }

  /**
   * The entries appear in the order of each user's first incomplete task, one
   * per user, and hold as many tasks as there are incomplete todos.
   */
  lemma TodoListShape(identity: IdentityMap, todos: seq<Record>, list: TodoList)
    requires TodoListOf(identity, todos) == Some(list)
    ensures Keys(list) == Distinct(UserIds(IncompleteTasks(todos)))
    ensures SumOf(list, TaskCount) == |IncompleteTasks(todos)|
  {
    var tasks := IncompleteTasks(todos);
    GroupTasksFails(identity, tasks);
    GroupTasksKeys(identity, tasks);
    GroupTasksTotal(identity, tasks);
  }

  /** `todo_list[user_id]["tasks"].append(task)` after creating the entry on first encounter. */
  lemma CreateThenAppendTask(list: TodoList, userId: int, username: string, task: Record)
    ensures var l1 := if Get(list, userId).None? then Put(list, userId, TodoEntry(username, [])) else list;
            && Get(l1, userId).Some?
            && var e := Get(l1, userId).value;
               Put(l1, userId, e.(tasks := e.tasks + [task])) == AddTask(list, userId, username, task)
  {
    if Get(list, userId).None? {
      var l1 := Put(list, userId, TodoEntry(username, []));
      GetPut(list, userId, TodoEntry(username, []), userId);
      assert Get(l1, userId).value.(tasks := Get(l1, userId).value.tasks + [task]) == TodoEntry(username, [task]);
      PutPut(list, userId, TodoEntry(username, []), TodoEntry(username, [task]));
    }
  }

  lemma GroupTasksStep(identity: IdentityMap, tasks: seq<Record>, i: nat, list: TodoList)
    requires i < |tasks|
    requires GroupTasks(identity, tasks[..i]) == Some(list)
    ensures GroupTasks(identity, tasks[..i + 1]) ==
            match ReverseLookup(identity, tasks[i].userId)
            case None => None
            case Some(u) => Some(AddTask(list, tasks[i].userId, u, tasks[i]))
  {
    assert tasks[..i + 1][..i] == tasks[..i];
  }

  /** The loop of `incomplete_tasks_by_user` over the incomplete tasks. */
  method IncompleteTasksByUser(identity: IdentityMap, todos: seq<Record>) returns (r: Option<TodoList>)
    ensures r == TodoListOf(identity, todos)
  {
    var todoList: TodoList := [];
    var tasksTodo := IncompleteTasks(todos);
    for i := 0 to |tasksTodo|
      invariant GroupTasks(identity, tasksTodo[..i]) == Some(todoList)
    {
      var task := tasksTodo[i];
      var userId := task.userId;
      var username := ReverseLookup(identity, userId);
      if username.None? {
        GroupTasksFails(identity, tasksTodo);
        return None;
      }
      GroupTasksStep(identity, tasksTodo, i, todoList);
      CreateThenAppendTask(todoList, userId, username.value, task);
      if Get(todoList, userId).None? {
        todoList := Put(todoList, userId, TodoEntry(username.value, []));
      }
      var entry := Get(todoList, userId).value;
      todoList := Put(todoList, userId, entry.(tasks := entry.tasks + [task]));
    }
    assert tasksTodo[..|tasksTodo|] == tasksTodo;
    return Some(todoList);
  }
}
