# EAS-Task: user map, post and todo grouping, keyword search

This project models the data-processing core of `NathanCookTask.py`, a script
that fetches the users, posts and todos of a JSON placeholder service and
reorganises them:

- `create_user_list` builds the identity map `username -> id` from the users;
  a later user with the same username overwrites the earlier one's id.
- A userId is turned back into a username by taking the first entry of the
  identity map whose id matches. If there is none, the whole operation stops.
- `categorization` sorts the posts by their `id` and appends each post to the
  list of the username its `userId` resolves to.
- `incomplete_tasks_by_user` keeps the todos that are not completed and groups
  them by `userId` into `{"username": ..., "tasks": [...]}` entries.
- `keyword_search` keeps the records whose lower-cased rendering contains the
  lower-cased keyword, in their original order.

Python dicts are modelled as insertion-ordered sequences of pairs (`Dicts`).
Assigning to a present key replaces its value in place. Assigning to a new key
appends it. The three loops are methods whose `ensures` equates the result with
a prefix-recursive specification function. The lemmas state what those
functions mean: which entries exist, in what order, what each holds, and when
the whole pass fails. The data that the program reads from files is passed in
as parameters. Each grouping is returned as a value instead of being written to
files.

The inline comment at `NathanCookTask.py:74` says the posts are sorted by
`userId`. The key function actually reads each post's `id`. The model follows
the code and sorts by `id`.

Files: `wrappers.dfy` (Option), `records.dfy` (the JSON record), `sequences.dfy`
(distinctness), `dicts.dfy` (Python dict), `identity.dfy`, `sorting.dfy`,
`posts.dfy`, `tasks.dfy`, `search.dfy`.

## Model

| member | source | states |
|---|---|---|
| Dicts.PutKeys | NathanCookTask.py:66 | Assigning to a dict key keeps the key order. A new key is appended at the end. |
| Dicts.GetPut | NathanCookTask.py:66 | After `d[k] = v`, `k` maps to `v` and every other key maps to what it did before. |
| Dicts.PutPut | NathanCookTask.py:66 | A second assignment to the same key leaves only the second value. |
| Dicts.PutNoDuplicates | NathanCookTask.py:66 | Assignment keeps the dict's keys distinct. |
| Dicts.SumOfPut | NathanCookTask.py:84 | Assigning to a key trades the size of its old value (0 if it had none) for the size of the new one. |
| Identity.UserListKeys | NathanCookTask.py:66 | The identity map's keys are the users' distinct usernames, each at the position of its first occurrence, with no duplicates. |
| Identity.UserListSize | NathanCookTask.py:66 | The identity map has exactly as many entries as there are distinct usernames. |
| Identity.LastWriteWins | NathanCookTask.py:66 | A username maps to the id of the last user record that carries it. |
| Identity.UserListEntry | NathanCookTask.py:66 | Every entry of the identity map holds the id of the last user with that username. |
| Identity.ReverseLookup | NathanCookTask.py:81 | The result is absent exactly when no entry has the userId. Otherwise it is the username of the first entry, in dict order, whose id equals the userId. |
| Identity.ResolvableIds | NathanCookTask.py:81 | A userId resolves through the identity map exactly when it is the id of some user that is the last one with its username. |
| Sorting.SortById | NathanCookTask.py:76 | The sorted posts are in ascending `id` order and are a permutation of the input. |
| Sorting.SortIsStable | NathanCookTask.py:76 | The sort is stable: for each `id`, the posts with that `id` keep their relative order. |
| PostGrouping.Categorize | NathanCookTask.py:79-84 | The loop computes the grouping of the sorted posts. It fails as soon as a post's userId does not resolve, and otherwise creates each username's list on first use and appends to it. |
| PostGrouping.GroupSortedFails | NathanCookTask.py:80-81 | Grouping fails exactly when some post's userId does not resolve to a username. |
| PostGrouping.GetAddPost | NathanCookTask.py:82-84 | Adding a post appends it to its owner's list, creating the list if absent, and changes no other list. |
| PostGrouping.CreateThenAppend | NathanCookTask.py:82-84 | Creating an empty list on first encounter and then appending is the same as adding the post. |
| PostGrouping.GroupSortedContents | NathanCookTask.py:79-84 | When every post resolves, grouping succeeds, usernames are distinct keys, each user's list holds exactly that user's posts, and the list sizes add up to the number of posts. |
| PostGrouping.PostsOfSorted | NathanCookTask.py:76-84 | Selecting one user's posts from sorted posts keeps them in ascending `id` order. |
| PostGrouping.PostsOfCount | NathanCookTask.py:80-84 | A user's selection holds each of that user's posts as often as the input does, and nothing else. |
| PostGrouping.PostsOfPermutation | NathanCookTask.py:76 | Reordering the posts does not change which posts belong to a user, as a multiset. |
| PostGrouping.CategorizeFailsIff | NathanCookTask.py:81 | `categorization` fails exactly when some post's userId matches no id in the identity map. |
| PostGrouping.SortedResolves | NathanCookTask.py:76-81 | If every post resolves, the sorted posts resolve too and categorization succeeds. |
| PostGrouping.CategorizeGroups | NathanCookTask.py:76-84 | Every list is non-empty and in ascending `id` order. It equals that user's posts in sorted order and, as a multiset, that user's posts in the input. Every post in it resolves to its key. |
| PostGrouping.CategorizeCoversAll | NathanCookTask.py:80-84 | The usernames are distinct, and every input post is in the list of the username it resolves to (the groups partition the posts). |
| PostGrouping.GroupSortedKeys | NathanCookTask.py:80-84 | When every post resolves, the usernames are the keys in order of each user's first post. |
| PostGrouping.CategorizeKeys | NathanCookTask.py:76-84 | The usernames are the distinct owners of the id-sorted posts, in order of each user's first post in id order. |
| PostGrouping.CategorizeTotal | NathanCookTask.py:80-84 | The sizes of the lists add up to the number of posts. |
| TaskGrouping.IncompleteTasks | NathanCookTask.py:105 | Only incomplete todos from the input are kept. |
| TaskGrouping.IncompleteCount | NathanCookTask.py:105 | The filter keeps each incomplete todo as many times as it occurs and drops every completed one. |
| TaskGrouping.IncompletePositionsExact | NathanCookTask.py:105 | The kept positions are in range, strictly increasing, and exactly those of the incomplete todos. |
| TaskGrouping.IncompleteAtPositions | NathanCookTask.py:105 | The k-th kept todo is the todo at the k-th kept position. |
| TaskGrouping.IncompleteIsOrderedSelection | NathanCookTask.py:105 | The kept todos are exactly the incomplete ones, in their input order. |
| TaskGrouping.TasksOf | NathanCookTask.py:108-114 | One user's tasks are tasks of the input that carry that userId. |
| TaskGrouping.GroupTasksFails | NathanCookTask.py:108-110 | Grouping fails exactly when some task's userId does not resolve. |
| TaskGrouping.GetAddTask | NathanCookTask.py:112-114 | Adding a task appends it to its user's entry, creating the entry with the resolved username if absent, and changes no other entry. |
| TaskGrouping.CreateThenAppendTask | NathanCookTask.py:112-114 | Creating `{"username": u, "tasks": []}` on first encounter and then appending is the same as adding the task. |
| TaskGrouping.GroupTasksKeys | NathanCookTask.py:108-114 | When every task resolves, the entries are keyed by the distinct userIds in order of each user's first task. |
| TaskGrouping.GroupTasksTotal | NathanCookTask.py:114 | When every task resolves, the entries' task counts add up to the number of tasks. |
| TaskGrouping.GroupTasksHolds | NathanCookTask.py:108-114 | When every task resolves, each entry is the one its user's tasks should produce. |
| TaskGrouping.AddTaskExpected | NathanCookTask.py:108-114 | A step of the loop keeps every entry equal to the one its tasks so far should produce. |
| TaskGrouping.TodoListFailsIff | NathanCookTask.py:105-110 | The pass fails exactly when some incomplete todo has a userId that matches no id in the identity map. Completed todos never cause a failure. |
| TaskGrouping.TodoListEntries | NathanCookTask.py:105-114 | Each entry's username is what its userId resolves to. Its tasks are that user's incomplete todos in input order, never empty, each incomplete and carrying the key as userId. |
| TaskGrouping.TodoListShape | NathanCookTask.py:105-114 | The keys are the distinct userIds of the incomplete todos in order of first occurrence, and the task counts add up to the number of incomplete todos. |
| TaskGrouping.IncompleteTasksByUser | NathanCookTask.py:101-114 | The loop computes the grouping of the incomplete todos, creating each entry on first use and appending to it, and fails on an unresolved userId. |
| KeywordSearch.LowerIdempotent | NathanCookTask.py:135 | Lower-casing an already lower-cased string changes nothing. |
| KeywordSearch.SearchResults | NathanCookTask.py:131-136 | Every result is a record of the input that matches the keyword. |
| KeywordSearch.MatchPositionsExact | NathanCookTask.py:131-136 | The matching positions are in range, strictly increasing, and are exactly the positions of the matching records. |
| KeywordSearch.SearchAtPositions | NathanCookTask.py:131-136 | The k-th result is the record at the k-th matching position. |
| KeywordSearch.SearchIsOrderedSelection | NathanCookTask.py:131-136 | The results are exactly the matching records, each once per occurrence, in their input order. |
| KeywordSearch.SearchMembership | NathanCookTask.py:135-136 | A record is among the results exactly when it is in the input and matches. |
| KeywordSearch.EmptyKeywordFindsAll | NathanCookTask.py:135 | The empty keyword occurs in every rendering, so every record is returned in order. |
| KeywordSearch.SearchIgnoresKeywordCase | NathanCookTask.py:128 | Searching for the lower-cased keyword gives the same results as the keyword itself. |
| KeywordSearch.SearchAppend | NathanCookTask.py:131-136 | Searching a concatenation gives the results of each part, in order. |
| KeywordSearch.SearchNoMatch | NathanCookTask.py:135-136 | A keyword that matches no record gives no results. |
| KeywordSearch.SearchSingleMatch | NathanCookTask.py:135-136 | A keyword that only one record matches gives exactly that record. |
| KeywordSearch.Search | NathanCookTask.py:123-137 | The loop appends exactly the matching records in order, and computes the search's results. |

## Left out

- Network access (`get_resources`), file reading and writing (`read_file`, `write_to_file`, `print_file_contents`) are left out as I/O. The loaded collections are parameters, and the groupings are returned as values instead of being written to `<username>.json` and `todo_list.json`.
- In `create_user_list`, `categorization` and `incomplete_tasks_by_user`, a failure of `read_file`, a record without one of the fields used, or a non-empty document that is not a list of objects, or one that cannot be iterated (`null`, a number, a boolean), ends in the `except` branch that prints and returns nothing. An empty JSON object or empty string iterates like the empty list, which the model covers. The model takes well-formed lists of records and models only the lookup failure as `None`.
- `keyword_search` over a document that is not a list: a JSON object is iterated over its keys, so keys are searched and matching keys are returned. A JSON string is iterated character by character. The model covers only a list of records.
- `user_search_input` (the interactive prompt, its `Y`/exit handling and console output) and the top-level script that calls the functions are left out as console I/O.
- `categorization` returns the identity map it was given, unchanged. The model returns the grouping it would have written to files instead.
- `keyword_search` also returns the file name it was given next to the results. The model returns only the results.
- Record.text: `str(record)`, the Python rendering of a whole JSON object, is abstracted as the record's `text` field. The model does not reproduce Python's dict repr.
- KeywordSearch.Lower: lower-cases ASCII letters only. Python's `str.lower` also maps non-ASCII characters.
- Sorting.SortById: the sort is modelled as a stable insertion sort over mathematical integers. The model states ordering, permutation and stability, which are what Python's `sorted` guarantees, not how Timsort computes it.
