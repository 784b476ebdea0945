/**
 * The dashboard's query selection and the delete-completed action of the task controller.
 * Request parameters are optional strings; a parameter compared with a literal by `equals` matches
 * only when it is present and equal.
 */
module TaskController {
  import opened Wrappers
  import opened Tasks
  import Text
  import Repo = TaskRepository
  import Service = TaskServiceImpl

  /** The one listing the dashboard shows. */
  datatype Query =
    | Search(keyword: string)
    | ByStatus(completed: bool)
    | Overdue
    | ByProject(project: string)
    | SortedByDate(ascending: bool)
    | SortedByProject
    | SortedByPriority
    | SortedByCreated
    | AllTasks

  predicate SearchApplies(search: Option<string>) {
    search.Some? && Text.Trim(search.value) != []
  }

  predicate FilterApplies(filter: Option<string>) {
    filter == Some("completed") || filter == Some("pending") || filter == Some("overdue")
  }

  predicate ProjectApplies(project: Option<string>) {
    project.Some? && Text.Trim(project.value) != []
  }

  /** The listing a sort parameter selects when no search, filter or project applies. */
  function SortQuery(sort: Option<string>): (q: Query)
    ensures q.AllTasks? <==> sort !in {Some("date-asc"), Some("date-desc"), Some("project"), Some("priority"), Some("created")}
    ensures q.SortedByDate? ==> (q.ascending <==> sort == Some("date-asc"))
  {
    if sort == Some("date-asc") then SortedByDate(true)
    else if sort == Some("date-desc") then SortedByDate(false)
    else if sort == Some("project") then SortedByProject
    else if sort == Some("priority") then SortedByPriority
    else if sort == Some("created") then SortedByCreated
    else AllTasks
  }

  /** The first-match selection chain of showAllTasks. */
  function SelectQuery(sort: Option<string>, filter: Option<string>, project: Option<string>,
                       search: Option<string>): (q: Query)
    ensures q.Search? <==> SearchApplies(search)
    ensures q.Search? ==> Text.Trim(search.value) == q.keyword
    ensures q.ByStatus? || q.Overdue? <==> !SearchApplies(search) && FilterApplies(filter)
    ensures q.ByStatus? ==> (q.completed <==> filter == Some("completed"))
    ensures q.ByProject? <==> !SearchApplies(search) && !FilterApplies(filter) && ProjectApplies(project)
    ensures q.ByProject? ==> project == Some(q.project)
  {
    if SearchApplies(search) then Search(Text.Trim(search.value))
    else if filter == Some("completed") then ByStatus(true)
    else if filter == Some("pending") then ByStatus(false)
    else if filter == Some("overdue") then Overdue
    else if ProjectApplies(project) then ByProject(project.value)
    else SortQuery(sort)
  }

  /** A search that is non-blank after trimming overrides every other parameter; the trimmed text is searched. */
  lemma SearchWins(sort: Option<string>, filter: Option<string>, project: Option<string>, search: string,
                   sort': Option<string>, filter': Option<string>, project': Option<string>)
    requires Text.Trim(search) != []
    ensures SelectQuery(sort, filter, project, Some(search)) == Search(Text.Trim(search))
    ensures SelectQuery(sort, filter, project, Some(search)) == SelectQuery(sort', filter', project', Some(search))
  {
  }

  /** A blank or absent search falls through to the rest of the chain. */
  lemma BlankSearchIgnored(sort: Option<string>, filter: Option<string>, project: Option<string>, search: string)
    requires Text.IsBlank(search)
    ensures SelectQuery(sort, filter, project, Some(search)) == SelectQuery(sort, filter, project, None)
  {
    Text.TrimEmptyIffBlank(search);
  }

  /** The filter values completed, pending and overdue win over project and sort. */
  lemma FilterWins(sort: Option<string>, filter: Option<string>, project: Option<string>, search: Option<string>,
                   sort': Option<string>, project': Option<string>)
    requires !SearchApplies(search) && FilterApplies(filter)
    ensures SelectQuery(sort, filter, project, search) == SelectQuery(sort', filter, project', None)
    ensures filter == Some("completed") ==> SelectQuery(sort, filter, project, search) == ByStatus(true)
    ensures filter == Some("pending") ==> SelectQuery(sort, filter, project, search) == ByStatus(false)
    ensures filter == Some("overdue") ==> SelectQuery(sort, filter, project, search) == Overdue
  {
  }

  /** The project branch tests the trimmed value but queries with the value as given. */
  lemma ProjectUntrimmed(sort: Option<string>, filter: Option<string>, project: string, search: Option<string>)
    requires !SearchApplies(search) && !FilterApplies(filter) && Text.Trim(project) != []
    ensures SelectQuery(sort, filter, Some(project), search) == ByProject(project)
  {
  }

  /** When neither search, filter nor project applies, the sort parameter alone decides. */
  lemma SortDecides(sort: Option<string>, filter: Option<string>, project: Option<string>, search: Option<string>)
    requires !SearchApplies(search) && !FilterApplies(filter) && !ProjectApplies(project)
    ensures SelectQuery(sort, filter, project, search) == SortQuery(sort)
    ensures SortQuery(sort) == AllTasks <==> sort !in {Some("date-asc"), Some("date-desc"), Some("project"), Some("priority"), Some("created")}
  {
  }

  /** Exactly one branch runs: the sort parameter is ignored whenever search, filter or project applies. */
  lemma SortIgnoredWhenOverridden(sort: Option<string>, sort': Option<string>, filter: Option<string>,
                                  project: Option<string>, search: Option<string>)
    requires SearchApplies(search) || FilterApplies(filter) || ProjectApplies(project)
    ensures SelectQuery(sort, filter, project, search) == SelectQuery(sort', filter, project, search)
    ensures !SelectQuery(sort, filter, project, search).AllTasks?
    ensures SelectQuery(sort, filter, project, search).Search? <==> SearchApplies(search)
  {
  }

  /** The service call each listing makes. */
  function RunQuery(q: Query, table: seq<Task>, today: Date, nullsLow: bool): (r: seq<Task>)
    ensures |r| <= |table|
  {
    match q
    case Search(keyword) => Repo.SearchTasksByKeyword(table, keyword)
    case ByStatus(completed) => Repo.FindByCompleted(table, completed)
    case Overdue => Repo.FindOverdueTasks(table, today)
    case ByProject(project) => Repo.FindByProjectIgnoreCase(table, project)
    case SortedByDate(ascending) =>
      var r := if ascending then Repo.FindAllOrderByDueDateAsc(table, nullsLow) else Repo.FindAllOrderByDueDateDesc(table, nullsLow);
      assert |multiset(r)| == |multiset(table)|;
      r
    case SortedByProject =>
      var r := Repo.FindAllOrderByProjectAsc(table, nullsLow);
      assert |multiset(r)| == |multiset(table)|;
      r
    case SortedByPriority =>
      var r := Repo.FindAllOrderByPriorityDesc(table, nullsLow);
      assert |multiset(r)| == |multiset(table)|;
      r
    case SortedByCreated =>
      var r := Repo.FindAllOrderByCreatedAtDesc(table, nullsLow);
      assert |multiset(r)| == |multiset(table)|;
      r
    case AllTasks => table
  }

  /** Every listing shows only stored tasks; the filtered ones keep store order, the sorted ones show all. */
  lemma RunQueryShowsStoredTasks(q: Query, table: seq<Task>, today: Date, nullsLow: bool)
    ensures forall t :: t in RunQuery(q, table, today, nullsLow) ==> t in table
    ensures (q.SortedByDate? || q.SortedByProject? || q.SortedByPriority? || q.SortedByCreated? || q.AllTasks?)
      ==> multiset(RunQuery(q, table, today, nullsLow)) == multiset(table)
  {
    match q
    case SortedByDate(_) =>
      assert forall t :: t in RunQuery(q, table, today, nullsLow) ==> t in multiset(table);
    case SortedByProject =>
      assert forall t :: t in RunQuery(q, table, today, nullsLow) ==> t in multiset(table);
    case SortedByPriority =>
      assert forall t :: t in RunQuery(q, table, today, nullsLow) ==> t in multiset(table);
    case SortedByCreated =>
      assert forall t :: t in RunQuery(q, table, today, nullsLow) ==> t in multiset(table);
    case _ =>
  }

  /** What the dashboard page receives. */
  datatype Dashboard = Dashboard(tasks: seq<Task>, projects: seq<string>, total: nat, completed: nat,
                                 pending: nat, overdue: nat)

  /** The chain of showAllTasks: SelectQuery picks the first matching branch, which asks the service for its listing. */
  method ListTasks(service: Service.TaskService, sort: Option<string>, filter: Option<string>,
                   project: Option<string>, search: Option<string>, today: Date)
    returns (tasks: seq<Task>)
    ensures tasks == RunQuery(SelectQuery(sort, filter, project, search), service.tasks, today, service.nullsLow)
  {
    var q := SelectQuery(sort, filter, project, search);
    if q.Search? || q.ByStatus? || q.Overdue? || q.ByProject? {
      tasks := ListFiltered(service, q, today);
    } else {
      tasks := ListSorted(service, q, today);
    }
  }

  /** The search, filter and project branches: one service call each. */
  method ListFiltered(service: Service.TaskService, q: Query, today: Date) returns (tasks: seq<Task>)
    requires q.Search? || q.ByStatus? || q.Overdue? || q.ByProject?
    ensures tasks == RunQuery(q, service.tasks, today, service.nullsLow)
  {
    match q {
      case Search(keyword) =>
        tasks := service.SearchTasks(keyword);
      case ByStatus(completed) =>
        tasks := service.GetTasksByStatus(completed);
      case Overdue =>
        tasks := service.GetOverdueTasks(today);
      case ByProject(project) =>
        tasks := service.GetTasksByProject(project);
    }
  }

  /** The sort branches, and the fallback to all tasks. */
  method ListSorted(service: Service.TaskService, q: Query, today: Date) returns (tasks: seq<Task>)
    requires q.SortedByDate? || q.SortedByProject? || q.SortedByPriority? || q.SortedByCreated? || q.AllTasks?
    ensures tasks == RunQuery(q, service.tasks, today, service.nullsLow)
  {
    if q.SortedByDate? {
      tasks := service.GetAllTasksSortedByDate(q.ascending);
    } else {
      tasks := ListOtherSorted(service, q, today);
    }
  }

  /** The sort branches other than by due date. */
  method ListOtherSorted(service: Service.TaskService, q: Query, today: Date) returns (tasks: seq<Task>)
    requires q.SortedByProject? || q.SortedByPriority? || q.SortedByCreated? || q.AllTasks?
    ensures tasks == RunQuery(q, service.tasks, today, service.nullsLow)
  {
    match q {
      case SortedByProject =>
        tasks := service.GetAllTasksSortedByProject();
      case SortedByPriority =>
        tasks := service.GetAllTasksSortedByPriority();
      case SortedByCreated =>
        tasks := service.GetAllTasksSortedByCreated();
      case AllTasks =>
        tasks := service.GetAllTasks();
    }
  }

  /** `showAllTasks`: the selected listing, the project names and the statistics. */
  method ShowAllTasks(service: Service.TaskService, sort: Option<string>, filter: Option<string>,
                      project: Option<string>, search: Option<string>, today: Date)
    returns (page: Dashboard)
    ensures page.tasks == RunQuery(SelectQuery(sort, filter, project, search), service.tasks, today, service.nullsLow)
    ensures page.projects == Repo.FindDistinctProjects(service.tasks)
    ensures page.total == |service.tasks| == page.completed + page.pending
    ensures page.overdue <= page.pending
  {
    var tasks := ListTasks(service, sort, filter, project, search, today);
    var projects := service.GetAllProjects();
    var total := service.GetTotalTasksCount();
    var completed := service.GetCompletedTasksCount();
    var pending := service.GetPendingTasksCount();
    var overdue := service.GetOverdueTasksCount(today);
    Repo.CountByCompletedPartition(service.tasks);
    Repo.OverdueAtMostPending(service.tasks, today);
    page := Dashboard(tasks, projects, total, completed, pending, overdue);
  }

  /**
   * The delete-completed action: the number reported is read before the deletion, so it is the number
   * of tasks the deletion removed.
   */
  method DeleteCompletedTasks(service: Service.TaskService) returns (reported: nat)
    requires service.Valid()
    modifies service
    ensures service.Valid()
    ensures service.tasks == Repo.FindByCompleted(old(service.tasks), false)
    ensures reported == |Repo.FindByCompleted(old(service.tasks), true)|
    ensures reported == |old(service.tasks)| - |service.tasks|
  {
    reported := service.GetCompletedTasksCount();
    service.DeleteCompletedTasks();
    Repo.CountByCompletedPartition(old(service.tasks));
  }
}
