# Task manager core, modelled in Dafny

This project models the core of a Spring todo-list application. The core is:

- a table of tasks and the service that changes it: create, update, delete, toggle, mark, bulk
  delete of completed tasks, mark all, import and export;
- the repository's declarative queries: filters, ordered listings, distinct projects and counts;
- the Task entity and its form draft (TaskDTO), with conversions, defaults and validation rules;
- the dashboard's choice of which listing to show, and the delete-completed action;
- the dashboard script's relative-time label.

How the pieces are modelled:

- **The table** is the `tasks` field of the class `TaskServiceImpl.TaskService`. It is a sequence
  in store order (the order `findAll` returns), and every row has a unique id. The field `nextId`
  plays the identity column: a new row gets the next number.
- **The clock.** The ghost field `clock` records the last clock reading the service was given.
  Every operation that writes takes the current instant `now`, and needs `clock <= now`. Under that
  condition the class invariant `Valid()` holds for every row: `createdAt <= updatedAt <= clock`.
- **Saving an entity the store already holds** follows JPA's dirty check, written as `Flush`. An
  entity whose fields did not change is not written, so `@PreUpdate` does not fire and `updatedAt`
  stays as it was. A changed entity gets `updatedAt = now`. This is why marking a task twice leaves
  it exactly as the first mark did.
- **Tasks and drafts** are values (datatypes). A setter or lifecycle hook is a function that returns
  the updated value. Every reference-typed field may be null (`None`), the priority included; only
  `completed` is a primitive.
- **Queries** are functions over the table. Filters keep store order. Ordered listings are sorted
  by the JPQL `ORDER BY` keys, compared column by column. Strings are compared by character code.
  `NULL` goes below every value when the parameter `nullsLow` (a constant of the store) is true,
  and above every value otherwise. No theorem depends on which way it goes.
- **Dates** are day numbers and **instants** are integers. `LocalDate.now()` is the parameter
  `today`.
- **The relative-time label** takes the millisecond difference `diff` as an integer. JavaScript's
  `Math.floor(x / c)`, for a positive constant `c`, is Dafny's `/` on `int`.

Two consequences of the queries as written:

- **Priority order.** The priority column stores the enum constant's name (`EnumType.STRING`).
  `ORDER BY t.priority DESC` (TaskRepository.java:56) compares those stored names, so it lists
  "MEDIUM", then "LOW", then "HIGH", not HIGH > MEDIUM > LOW. `TaskRepository.PriorityDescOrder`
  states this order: every HIGH task comes after every other task that has a priority.
- **NULL values.** No query says where a NULL due date, project, priority or creation time sorts;
  the database decides, hence the parameter `nullsLow`.
- **Text sizes.** `@Size` measures `String.length()`, which counts UTF-16 code units. A character
  outside the Basic Multilingual Plane counts twice (`Text.Utf16Length`).

## Model

| member | source | states |
|---|---|---|
| Tasks.PriorityMetadata | src/main/java/com/example/todolist/model/Task.java:150-165 | LOW is ("Low", "success"), MEDIUM is ("Medium", "warning") and HIGH is ("High", "danger"). The stored names and the display names are each one-to-one. |
| Tasks.NewTaskDefaults | src/main/java/com/example/todolist/model/Task.java:43-66 | Both constructors give a task that is not completed, has priority MEDIUM (the field may later be set to null), and has no id or timestamps. The four-argument constructor sets exactly its four fields. |
| Tasks.OnCreate | src/main/java/com/example/todolist/model/Task.java:69-73 | `@PrePersist` reads the clock twice: `createdAt` gets the first reading, `updatedAt` the second, and nothing else changes. |
| Tasks.OnUpdate | src/main/java/com/example/todolist/model/Task.java:75-78 | `@PreUpdate` sets `updatedAt` to the instant and changes nothing else; in particular `createdAt` is never rewritten. |
| Tasks.HooksKeepTimestampsOrdered | src/main/java/com/example/todolist/model/Task.java:50-78 | If the clock never runs backwards (so the two readings of `@PrePersist` are in order), the hooks keep `createdAt <= updatedAt <= clock`. |
| Tasks.IsOverdue | src/main/java/com/example/todolist/model/Task.java:109-111 | Only a pending task with a due date can be overdue. |
| Tasks.StaysOverdue | src/main/java/com/example/todolist/model/Task.java:109-111 | A task overdue on one day is overdue on every later day. |
| Tasks.NeverOverdue | src/main/java/com/example/todolist/model/Task.java:109-111 | A task without a due date is never overdue, and neither is a completed one. Completing an overdue task makes it no longer overdue. |
| Tasks.StatusText | src/main/java/com/example/todolist/model/Task.java:113-115 | The text is "Completed" iff the task is completed, and "Pending" iff it is not. |
| Tasks.StatusClass | src/main/java/com/example/todolist/model/Task.java:117-121 | The class is "success" iff completed, "danger" iff overdue, and "primary" iff neither; so a completed task is never "danger". |
| Tasks.SameEntityIsEquivalence | src/main/java/com/example/todolist/model/Task.java:124-130 | Equality compares ids only. It is an equivalence, ignores every other field, and two tasks without an id are equal. |
| TaskDto.NewTaskDtoDefaults | src/main/java/com/example/todolist/model/TaskDTO.java:14-34 | A fresh draft has no id, priority MEDIUM, `completed` false and no text fields. |
| TaskDto.ToTask | src/main/java/com/example/todolist/model/TaskDTO.java:47-57 | `toTask` keeps the draft's id (it does not clear it) and leaves both timestamps unset. |
| TaskDto.FromTask | src/main/java/com/example/todolist/model/TaskDTO.java:36-57 | Turning an entity into a draft and back gives the entity without its timestamps: the same id and the same six editable fields, so the same entity. |
| TaskDto.FromTaskOfToTask | src/main/java/com/example/todolist/model/TaskDTO.java:36-57 | Turning a draft into an entity and back gives the draft unchanged. |
| TaskDto.Violations | src/main/java/com/example/todolist/model/TaskDTO.java:16-27 | There are no violations iff the draft is valid. The title is reported blank iff it is null or only whitespace. Sizes are counted in UTF-16 code units. |
| TaskDto.IsValid | src/main/java/com/example/todolist/model/TaskDTO.java:16-27 | A valid draft has a title that is not empty after trimming. |
| TaskDto.ValidDraftGivesValidTask | src/main/java/com/example/todolist/model/TaskDTO.java:16-27 | A draft is valid iff the entity it converts to meets the entity's own column constraints. Valid means: a title that is not blank and has 1 to 200 UTF-16 code units; a description null or at most 1000; a project null or at most 100. |
| TaskDto.AstralTitleTooLong | src/main/java/com/example/todolist/model/TaskDTO.java:16-18 | A title of 150 emoji is 300 UTF-16 code units, so it breaks the 200 bound although it has only 150 characters. |
| TaskDto.BmpSizesCountCharacters | src/main/java/com/example/todolist/model/TaskDTO.java:16-27 | For text inside the Basic Multilingual Plane every bound counts characters. |
| OrderBy.SortBy | src/main/java/com/example/todolist/repository/TaskRepository.java:43-61 | An ORDER BY listing is a permutation of its input and is sorted, pair by pair, by its key list. |
| TaskRepository.FindById | src/main/java/com/example/todolist/repository/TaskRepository.java:17 | `findById` finds a stored row with the id, and finds nothing iff no row has that id. |
| TaskRepository.FindByCompleted | src/main/java/com/example/todolist/repository/TaskRepository.java:20 | Exactly the stored tasks whose `completed` equals the argument. |
| TaskRepository.NoneWithStatus | src/main/java/com/example/todolist/repository/TaskRepository.java:20 | When no row has the status, the status query is empty. |
| TaskRepository.FindByProjectIgnoreCase | src/main/java/com/example/todolist/repository/TaskRepository.java:23 | Exactly the tasks whose project is present and equal to the argument after case folding. |
| TaskRepository.FindByTitleContainingIgnoreCase | src/main/java/com/example/todolist/repository/TaskRepository.java:26 | Exactly the tasks whose title is present and contains the argument, ignoring case. |
| TaskRepository.FindByProjectIgnoreCaseAndCompleted | src/main/java/com/example/todolist/repository/TaskRepository.java:29 | Exactly the tasks of the case-insensitive project query that also have the given status. |
| TaskRepository.FindOverdueTasks | src/main/java/com/example/todolist/repository/TaskRepository.java:32-33 | Exactly the stored tasks that have a due date before today and are not completed. |
| TaskRepository.OverdueQueryIsEntityRule | src/main/java/com/example/todolist/repository/TaskRepository.java:32-33 | A task is in the overdue query iff it is stored and the entity's `isOverdue` holds for it. |
| TaskRepository.FindTasksDueToday | src/main/java/com/example/todolist/repository/TaskRepository.java:36-37 | Exactly the tasks due today, whether completed or not. |
| TaskRepository.FindTasksDueWithinDays | src/main/java/com/example/todolist/repository/TaskRepository.java:40-41 | Exactly the tasks that are not completed and are due between the start and end dates, both included. |
| TaskRepository.FindAllOrderByDueDateAsc | src/main/java/com/example/todolist/repository/TaskRepository.java:44-45 | A permutation of the table, sorted by due date ascending and then by creation time ascending. |
| TaskRepository.DueDateAscOrder | src/main/java/com/example/todolist/repository/TaskRepository.java:44-45 | In that listing, an earlier task's due date is no later than a later task's. Equal due dates are ordered by creation time. How NULLs fall depends only on `nullsLow`. |
| TaskRepository.FindAllOrderByDueDateDesc | src/main/java/com/example/todolist/repository/TaskRepository.java:48-49 | A permutation of the table, sorted by due date descending and then by creation time descending. |
| TaskRepository.DueDateDescOrder | src/main/java/com/example/todolist/repository/TaskRepository.java:48-49 | In that listing, due dates do not increase. Equal due dates have creation times that do not increase. |
| TaskRepository.FindAllOrderByProjectAsc | src/main/java/com/example/todolist/repository/TaskRepository.java:52-53 | A permutation of the table, sorted by project name and then by due date ascending. |
| TaskRepository.ProjectAscOrder | src/main/java/com/example/todolist/repository/TaskRepository.java:52-53 | In that listing, no later project name sorts before an earlier one. Equal projects are ordered by due date. |
| TaskRepository.FindAllOrderByPriorityDesc | src/main/java/com/example/todolist/repository/TaskRepository.java:56-57 | A permutation of the table, sorted by the stored priority name descending and then by due date ascending. |
| TaskRepository.StoredNameOrder | src/main/java/com/example/todolist/repository/TaskRepository.java:56 | The stored names sort as "HIGH" < "LOW" < "MEDIUM". |
| TaskRepository.PriorityDescOrder | src/main/java/com/example/todolist/repository/TaskRepository.java:56-57 | The tasks with a priority run MEDIUM, then LOW, then HIGH; tasks without one come last where NULL sorts low and first where it sorts high. Ties are broken by due date ascending. |
| TaskRepository.FindAllOrderByCreatedAtDesc | src/main/java/com/example/todolist/repository/TaskRepository.java:60-61 | A permutation of the table, sorted by creation time descending. |
| TaskRepository.CreatedAtDescOrder | src/main/java/com/example/todolist/repository/TaskRepository.java:60-61 | In that listing, creation times do not increase. |
| TaskRepository.CountByCompleted | src/main/java/com/example/todolist/repository/TaskRepository.java:64 | The count equals the length of the matching status query. |
| TaskRepository.CountByCompletedPartition | src/main/java/com/example/todolist/repository/TaskRepository.java:64 | The completed count plus the pending count equals the table size, because `completed` is never null. |
| TaskRepository.CountOverdueTasks | src/main/java/com/example/todolist/repository/TaskRepository.java:67-68 | The count equals the length of the overdue query. |
| TaskRepository.OverdueAtMostPending | src/main/java/com/example/todolist/repository/TaskRepository.java:67-68 | There are never more overdue tasks than pending ones. |
| TaskRepository.FindDistinctProjects | src/main/java/com/example/todolist/repository/TaskRepository.java:71-72 | Strictly ascending, so it has no duplicates. A name is in it iff it is not empty and some task has it as its project. |
| TaskRepository.DistinctProjectsOnce | src/main/java/com/example/todolist/repository/TaskRepository.java:71-72 | No name is listed twice. |
| TaskRepository.DistinctProjectsKeepCase | src/main/java/com/example/todolist/repository/TaskRepository.java:71-72 | Any two non-empty project names that differ only in case are both listed. |
| TaskRepository.SearchTasksByKeyword | src/main/java/com/example/todolist/repository/TaskRepository.java:75-76 | Exactly the stored tasks whose lower-cased title or description contains the lower-cased keyword. |
| TaskRepository.KeywordMatchMeaning | src/main/java/com/example/todolist/repository/TaskRepository.java:75-76 | A match means the lower-cased keyword occurs at some position of the lower-cased field. A null description never matches. The keyword's own case makes no difference. |
| TaskRepository.FindTasksByCriteria | src/main/java/com/example/todolist/repository/TaskRepository.java:79-85 | A task is selected iff it meets every criterion that is present: the exact project, the status, and the keyword in the title or description. |
| TaskRepository.CriteriaQuerySpecialCases | src/main/java/com/example/todolist/repository/TaskRepository.java:79-85 | With every criterion null the query returns the whole table. With only the status it is `findByCompleted`; with only the keyword it is the keyword search. |
| TaskRepository.CriteriaProjectIsCaseSensitive | src/main/java/com/example/todolist/repository/TaskRepository.java:79-85 | Project "Work" matches "work" in `findByProjectIgnoreCase` but not in the criteria query. |
| TaskServiceImpl.ApplyDraftFields | src/main/java/com/example/todolist/service/TaskServiceImpl.java:61-74 | An update makes the six editable fields equal to the draft's and keeps the id and `createdAt`. `updatedAt` is either unchanged or the new instant. |
| TaskServiceImpl.ToggleTwice | src/main/java/com/example/todolist/service/TaskServiceImpl.java:92-102 | A toggle flips `completed` and stamps `updatedAt`, and nothing else. Toggling twice restores every field but `updatedAt`. |
| TaskServiceImpl.MarkIdempotent | src/main/java/com/example/todolist/service/TaskServiceImpl.java:105-124 | Marking sets the fixed value and changes at most `updatedAt` too. Marking again changes nothing, and marking a task already in that state leaves it as it is. |
| TaskServiceImpl.MarkedAllRows | src/main/java/com/example/todolist/service/TaskServiceImpl.java:283-300 | After marking all, every row has the value, keeps its id and position, and otherwise changes at most `updatedAt`. No row with the other value remains. |
| TaskServiceImpl.Flush | src/main/java/com/example/todolist/service/TaskServiceImpl.java:64-70 | Saving a managed entity with no changed field leaves the row as it was; a changed entity is stored as edited with `updatedAt` set to now. |
| TaskServiceImpl.PersistedKeepsContent | src/main/java/com/example/todolist/service/TaskServiceImpl.java:252-258 | An imported parsed record keeps its six editable fields and gets the new id; the id it carried does not matter. |
| TaskServiceImpl.RemoveId | src/main/java/com/example/todolist/service/TaskServiceImpl.java:87 | `deleteById` removes the row at the id's position and changes nothing when no row has the id. |
| TaskServiceImpl.RemoveIdMembers | src/main/java/com/example/todolist/service/TaskServiceImpl.java:82-89 | With unique ids, deleting an id drops every row with that id and keeps every other row. |
| TaskServiceImpl.RemoveIdUnique | src/main/java/com/example/todolist/service/TaskServiceImpl.java:87 | Deleting by id keeps the remaining ids unique. |
| TaskServiceImpl.RemoveIdPresent | src/main/java/com/example/todolist/service/TaskServiceImpl.java:84-87 | When a row has the id, deleting it leaves one row fewer, no row with the id, every other row, and a valid table. |
| TaskServiceImpl.RemoveIdStep | src/main/java/com/example/todolist/service/TaskServiceImpl.java:277-278 | Deleting one more id from the partially deleted table leaves out that id as well. |
| TaskServiceImpl.WithoutCompletedIds | src/main/java/com/example/todolist/service/TaskServiceImpl.java:275-280 | Leaving out exactly the ids of the completed rows leaves the pending rows, in store order. |
| TaskServiceImpl.TaskService.GetAllTasks | src/main/java/com/example/todolist/service/TaskServiceImpl.java:40-43 | Returns the whole table in store order. |
| TaskServiceImpl.TaskService.GetTaskById | src/main/java/com/example/todolist/service/TaskServiceImpl.java:46-49 | Returns the repository's `findById` result. |
| TaskServiceImpl.TaskService.Insert | src/main/java/com/example/todolist/service/TaskServiceImpl.java:53-54 | Persisting a new entity appends exactly it, with the next id and its creation timestamps. The new row is a different entity from every stored one, and the table stays valid. |
| TaskServiceImpl.TaskService.SaveAt | src/main/java/com/example/todolist/service/TaskServiceImpl.java:70 | Saving a loaded entity replaces only its row, by the flushed value, and keeps the table valid. |
| TaskServiceImpl.TaskService.SaveTask | src/main/java/com/example/todolist/service/TaskServiceImpl.java:52-58 | Appends exactly one row: the draft's entity, with a fresh id and both timestamps set from now (one reading, see Left out). The saved task has the draft's content, and no earlier row changes. |
| TaskServiceImpl.TaskService.UpdateTask | src/main/java/com/example/todolist/service/TaskServiceImpl.java:61-79 | A missing id fails with NotFound and changes nothing. Otherwise only that row changes: its editable fields come from the draft, and its id and `createdAt` stay. |
| TaskServiceImpl.TaskService.DeleteTask | src/main/java/com/example/todolist/service/TaskServiceImpl.java:82-89 | A missing id fails with NotFound and changes nothing. Otherwise exactly that row is removed and every other row stays, in order. |
| TaskServiceImpl.TaskService.ToggleTaskCompletion | src/main/java/com/example/todolist/service/TaskServiceImpl.java:92-102 | A missing id fails and changes nothing. Otherwise only that row changes, to its toggled value. |
| TaskServiceImpl.TaskService.MarkTaskAsCompleted | src/main/java/com/example/todolist/service/TaskServiceImpl.java:105-113 | A missing id fails and changes nothing. Otherwise only that row changes, to its value marked completed. |
| TaskServiceImpl.TaskService.MarkTaskAsIncomplete | src/main/java/com/example/todolist/service/TaskServiceImpl.java:116-124 | A missing id fails and changes nothing. Otherwise only that row changes, to its value marked pending. |
| TaskServiceImpl.TaskService.GetTasksByStatus | src/main/java/com/example/todolist/service/TaskServiceImpl.java:128-131 | Returns the status query on the current table. |
| TaskServiceImpl.TaskService.GetTasksByProject | src/main/java/com/example/todolist/service/TaskServiceImpl.java:135-138 | Returns the case-insensitive project query. |
| TaskServiceImpl.TaskService.SearchTasks | src/main/java/com/example/todolist/service/TaskServiceImpl.java:142-145 | Returns the keyword search. |
| TaskServiceImpl.TaskService.GetTasksByCriteria | src/main/java/com/example/todolist/service/TaskServiceImpl.java:149-152 | Returns the criteria query. |
| TaskServiceImpl.TaskService.GetOverdueTasks | src/main/java/com/example/todolist/service/TaskServiceImpl.java:156-159 | Returns the overdue query for today. |
| TaskServiceImpl.TaskService.GetTasksDueToday | src/main/java/com/example/todolist/service/TaskServiceImpl.java:163-166 | Returns the due-today query. |
| TaskServiceImpl.TaskService.GetTasksDueWithinDays | src/main/java/com/example/todolist/service/TaskServiceImpl.java:170-174 | Returns the pending tasks due from today to today plus `days`, both included. |
| TaskServiceImpl.TaskService.GetAllTasksSortedByDate | src/main/java/com/example/todolist/service/TaskServiceImpl.java:178-181 | Returns the ascending due-date listing when `ascending`, and the descending one otherwise. |
| TaskServiceImpl.TaskService.GetAllTasksSortedByProject | src/main/java/com/example/todolist/service/TaskServiceImpl.java:185-188 | Returns the project listing. |
| TaskServiceImpl.TaskService.GetAllTasksSortedByPriority | src/main/java/com/example/todolist/service/TaskServiceImpl.java:192-195 | Returns the priority listing, sorted by stored name. |
| TaskServiceImpl.TaskService.GetAllTasksSortedByCreated | src/main/java/com/example/todolist/service/TaskServiceImpl.java:199-202 | Returns the newest-first listing. |
| TaskServiceImpl.TaskService.GetTotalTasksCount | src/main/java/com/example/todolist/service/TaskServiceImpl.java:206-208 | The number of rows. |
| TaskServiceImpl.TaskService.GetCompletedTasksCount | src/main/java/com/example/todolist/service/TaskServiceImpl.java:212-214 | The number of completed tasks. |
| TaskServiceImpl.TaskService.GetPendingTasksCount | src/main/java/com/example/todolist/service/TaskServiceImpl.java:218-220 | The number of pending tasks. |
| TaskServiceImpl.TaskService.GetOverdueTasksCount | src/main/java/com/example/todolist/service/TaskServiceImpl.java:224-226 | The number of overdue tasks. |
| TaskServiceImpl.TaskService.GetAllProjects | src/main/java/com/example/todolist/service/TaskServiceImpl.java:230-233 | Returns the distinct project names. |
| TaskServiceImpl.TaskService.ExportTasks | src/main/java/com/example/todolist/service/TaskServiceImpl.java:237-241 | The list handed to serialisation is the whole table. |
| TaskServiceImpl.TaskService.ImportTasksFromJson | src/main/java/com/example/todolist/service/TaskServiceImpl.java:249-265 | Text that does not parse fails with ImportError and changes nothing. Otherwise every parsed record is appended as a new row, in order, whatever id it carried. Existing rows are untouched, the table grows by the number of records, and the returned rows carry fresh ids. |
| TaskServiceImpl.TaskService.SaveAllNew | src/main/java/com/example/todolist/service/TaskServiceImpl.java:258 | `saveAll` of new entities persists each in list order. Each gets the next id and both timestamps; the table grows by exactly those rows; no saved row shares an id with an earlier row. |
| TaskServiceImpl.TaskService.DeleteAllTasks | src/main/java/com/example/todolist/service/TaskServiceImpl.java:268-272 | The table becomes empty. |
| TaskServiceImpl.TaskService.DeleteEach | src/main/java/com/example/todolist/service/TaskServiceImpl.java:278 | `deleteAll(entities)`, one delete by id per entity, leaves out the rows whose id is among the entities' ids. |
| TaskServiceImpl.TaskService.DeleteCompletedTasks | src/main/java/com/example/todolist/service/TaskServiceImpl.java:275-280 | Afterwards the table holds exactly the pending tasks, each unchanged and in store order. |
| TaskServiceImpl.TaskService.MarkAll | src/main/java/com/example/todolist/service/TaskServiceImpl.java:283-300 | After the in-place `forEach` and `saveAll`, every row is marked with the value. The returned list is the new table, of the same size. |
| TaskServiceImpl.TaskService.MarkAllTasksAsCompleted | src/main/java/com/example/todolist/service/TaskServiceImpl.java:283-290 | Marks every row completed and returns the new table. |
| TaskServiceImpl.TaskService.MarkAllTasksAsIncomplete | src/main/java/com/example/todolist/service/TaskServiceImpl.java:293-300 | Marks every row pending and returns the new table. |
| TaskController.SelectQuery | src/main/java/com/example/todolist/controller/TaskController.java:60-88 | The search is chosen iff it is not blank, and searches the trimmed text. Otherwise a status or overdue filter is chosen iff the filter is one of completed, pending and overdue. Otherwise the project is chosen iff it is not blank, and queries the untrimmed value. |
| TaskController.SortQuery | src/main/java/com/example/todolist/controller/TaskController.java:75-88 | Falls back to all tasks iff the sort value is absent or not one of date-asc, date-desc, project, priority and created. The date listing is ascending iff the value is date-asc. |
| TaskController.SearchWins | src/main/java/com/example/todolist/controller/TaskController.java:60-62 | A search that is not blank after trimming selects the search for the trimmed text, whatever the other parameters are. |
| TaskController.BlankSearchIgnored | src/main/java/com/example/todolist/controller/TaskController.java:60-62 | A blank search is treated as no search. |
| TaskController.FilterWins | src/main/java/com/example/todolist/controller/TaskController.java:65-70 | Without a search, the filters completed, pending and overdue select their query, whatever the project and sort are. |
| TaskController.ProjectUntrimmed | src/main/java/com/example/todolist/controller/TaskController.java:71-72 | The project branch is taken when the trimmed project is not empty, and it queries with the untrimmed value. |
| TaskController.SortDecides | src/main/java/com/example/todolist/controller/TaskController.java:75-88 | When no search, filter or project applies, the sort value alone decides. An unknown or absent sort gives all tasks. |
| TaskController.SortIgnoredWhenOverridden | src/main/java/com/example/todolist/controller/TaskController.java:57-89 | Whenever search, filter or project applies, the sort value makes no difference and the fallback is not taken. The search is chosen iff it applies. |
| TaskController.RunQuery | src/main/java/com/example/todolist/controller/TaskController.java:60-88 | No listing is longer than the table. |
| TaskController.RunQueryShowsStoredTasks | src/main/java/com/example/todolist/controller/TaskController.java:57-89 | Every listing shows only stored tasks. The sorted listings and the fallback show all of them. |
| TaskController.ListTasks | src/main/java/com/example/todolist/controller/TaskController.java:57-89 | The listing is the one the selection chain picks, fetched by the service call of its first matching branch. |
| TaskController.ListFiltered | src/main/java/com/example/todolist/controller/TaskController.java:60-73 | A search, a status filter, the overdue filter or a project gets the service's listing for it. |
| TaskController.ListSorted | src/main/java/com/example/todolist/controller/TaskController.java:75-89 | A date sort gets the due-date listing in the chosen direction. The other sorts and the fallback go to ListOtherSorted. |
| TaskController.ListOtherSorted | src/main/java/com/example/todolist/controller/TaskController.java:81-89 | The project, priority and created sorts get their ordered listing. The fallback gets every task in store order. |
| TaskController.ShowAllTasks | src/main/java/com/example/todolist/controller/TaskController.java:57-101 | The page gets the selected listing and the distinct projects. Its counts satisfy total = completed + pending and overdue <= pending. |
| TaskController.DeleteCompletedTasks | src/main/java/com/example/todolist/controller/TaskController.java:303-306 | The count is read before the deletion. It equals both the number of completed tasks beforehand and the number of rows the deletion removed. |
| RelativeTime.Phrase | target/classes/static/js/app.js:247-252 | A count of 1 gives "1 <unit> ago"; any other count gives "<count> <unit>s ago". |
| RelativeTime.FormatRelativeTime | target/classes/static/js/app.js:239-256 | The label is "Just now" or ends in " ago". |
| RelativeTime.CascadeIsFloor | target/classes/static/js/app.js:242-245 | The cascaded floor divisions by 1000, 60, 60 and 24 equal single floor divisions by 60000, 3600000 and 86400000. |
| RelativeTime.FormatIsReference | target/classes/static/js/app.js:239-256 | The label equals one read off the difference directly: whole days from a day on, else whole hours from an hour on, else whole minutes from a minute on, else "Just now". |
| RelativeTime.JustNowIffUnderAMinute | target/classes/static/js/app.js:239-254 | The label is "Just now" iff the difference is under 60000 ms, which includes every negative difference. |
| RelativeTime.DaysTakePrecedence | target/classes/static/js/app.js:247-248 | From a day on, the label counts whole days whatever the hours and minutes. It is "1 day ago" exactly below two days. |
| RelativeTime.SmallerUnits | target/classes/static/js/app.js:249-252 | Hours are shown only under a day, and minutes only under an hour. The singular wording appears exactly when the count is 1. |
| RelativeTime.PluralCountReadsBack | target/classes/static/js/app.js:247-252 | A plural label starts with the count's decimal digits, which read back as the count. |

## Left out

- JSON serialisation and parsing are left out. Import starts from the parsed records, and `None` stands for text that does not parse. Export is the list of all tasks before it is serialised.
- Logging throughout, Spring MVC binding, flash messages, redirects and view attributes other than the listing, the projects and the counts are left out.
- `LocalDate.now()` and `LocalDateTime.now()` are parameters (`today`, `now`). The only property assumed of the clock is that it never runs backwards.
- Tasks.OnCreate: the hook itself takes its two clock readings, but the service passes it one instant, so a saved task gets `createdAt == updatedAt`; the source only guarantees `createdAt <= updatedAt`. Likewise every row of one `saveAll` batch (ImportTasksFromJson, SaveAllNew, MarkAll) gets the same instant, where the source reads the clock once per row.
- PersistedKeepsContent: export followed by import is not stated as a round trip, because the JSON text in between is not modelled; only a parsed record's fate is.
- Transactions and rollback are left out. So are Bean Validation at persist time (a row breaking the entity's constraints would be rejected) and the exceptions beyond NotFound and ImportError.
- SaveTask: requires a draft without an id. Saving a draft that carries an id would be a JPA merge, and merge-versus-insert is not modelled.
- Identity generation is a counter (`nextId`). The properties only use that a new id is fresh and unique.
- KeywordMatches: treats `%` and `_` inside a keyword as ordinary characters, where SQL LIKE reads them as wildcards. Lower-casing is ASCII case folding, with no locale rules.
- FindDistinctProjects: orders names by character code; a database collation may order them differently.
- OrderBy.CompareValues: where NULL sorts is left open through `nullsLow`, because it is not fixed by the queries.
- Tasks.Task: the entity is a value, so two references to one managed entity, and changes seen through one of them, are not modelled. The in-place `forEach` loops of the service are modelled on the loaded list instead.
- `hashCode`, `toString` and the getters and setters are left out. They only read or write one field, which the value updates express directly.
- The rest of app.js (page scripting, dialogs, timers, storage, `fetch`, date parsing) and the application bootstrap are not part of this model.
