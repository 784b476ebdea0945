/**
 * The queries of the task repository as functions over the table, a sequence of rows in store
 * order. A WHERE clause selects rows in that order; each ORDER BY listing is a sorted permutation of
 * the table. Comparisons with NULL are never true, so a NULL column never satisfies a condition on it.
 */
module TaskRepository {
  import opened Wrappers
  import opened Tasks
  import Text
  import Seqs
  import opened OrderBy

  /** `findById`: the row with the given id, if there is one. */
  function FindById(table: seq<Task>, id: int): (r: Option<Task>)
    ensures r.Some? ==> r.value in table && r.value.id == Some(id)
    ensures r.None? <==> forall t :: t in table ==> t.id != Some(id)
  {
    if table == [] then None
    else if table[0].id == Some(id) then Some(table[0])
    else FindById(table[1..], id)
  }

  /** `findByCompleted`. */
  function FindByCompleted(table: seq<Task>, completed: bool): (r: seq<Task>)
    ensures forall t :: t in r <==> t in table && t.completed == completed
  {
    Seqs.Filter(table, (t: Task) => t.completed == completed)
  }

  /** Upper-casing both sides, as a derived IgnoreCase condition does, is modelled by ASCII folding. */
  predicate SameIgnoringCase(a: string, b: string) {
    Text.Lower(a) == Text.Lower(b)
  }

  /** `findByProjectIgnoreCase`. */
  function FindByProjectIgnoreCase(table: seq<Task>, project: string): (r: seq<Task>)
    ensures forall t :: t in r <==> t in table && t.project.Some? && SameIgnoringCase(t.project.value, project)
  {
    Seqs.Filter(table, (t: Task) => t.project.Some? && SameIgnoringCase(t.project.value, project))
  }

  /** `x LIKE '%k%'` on lower-cased operands: the field is present and contains the keyword. */
  predicate FieldMatches(field: Option<string>, keyword: string) {
    field.Some? && Text.Contains(Text.Lower(field.value), Text.Lower(keyword))
  }

  /** `findByTitleContainingIgnoreCase`. */
  function FindByTitleContainingIgnoreCase(table: seq<Task>, title: string): (r: seq<Task>)
    ensures forall t :: t in r <==> t in table && FieldMatches(t.title, title)
  {
    Seqs.Filter(table, (t: Task) => FieldMatches(t.title, title))
  }

  /** `findByProjectIgnoreCaseAndCompleted`. */
  function FindByProjectIgnoreCaseAndCompleted(table: seq<Task>, project: string, completed: bool): (r: seq<Task>)
    ensures forall t :: t in r <==> t in FindByProjectIgnoreCase(table, project) && t.completed == completed
  {
    Seqs.Filter(table, (t: Task) => t.project.Some? && SameIgnoringCase(t.project.value, project) && t.completed == completed)
  }

  /** `findOverdueTasks(today)`: `dueDate < today AND completed = false`. */
  function FindOverdueTasks(table: seq<Task>, today: Date): (r: seq<Task>)
    ensures forall t :: t in r <==> t in table && t.dueDate.Some? && t.dueDate.value < today && !t.completed
  {
    Seqs.Filter(table, (t: Task) => t.dueDate.Some? && t.dueDate.value < today && !t.completed)
  }

  /** The query and the entity's isOverdue select the same tasks. */
  lemma OverdueQueryIsEntityRule(table: seq<Task>, today: Date, t: Task)
    ensures t in FindOverdueTasks(table, today) <==> t in table && IsOverdue(t, today)
  {
  }

  /** `findTasksDueToday(today)`: whatever the completion state. */
  function FindTasksDueToday(table: seq<Task>, today: Date): (r: seq<Task>)
    ensures forall t :: t in r <==> t in table && t.dueDate == Some(today)
  {
    Seqs.Filter(table, (t: Task) => t.dueDate == Some(today))
  }

  /** `findTasksDueWithinDays(start, end)`: BETWEEN is inclusive at both ends; completed tasks are left out. */
  function FindTasksDueWithinDays(table: seq<Task>, startDate: Date, endDate: Date): (r: seq<Task>)
    ensures forall t :: t in r <==>
      t in table && t.dueDate.Some? && startDate <= t.dueDate.value <= endDate && !t.completed
  {
    Seqs.Filter(table, (t: Task) => t.dueDate.Some? && startDate <= t.dueDate.value <= endDate && !t.completed)
  }

  // The ORDER BY clauses of the five listings.
  const DueDateAscKeys := [SortKey(DueDate, Asc), SortKey(CreatedAt, Asc)]
  const DueDateDescKeys := [SortKey(DueDate, Desc), SortKey(CreatedAt, Desc)]
  const ProjectAscKeys := [SortKey(Project, Asc), SortKey(DueDate, Asc)]
  const PriorityDescKeys := [SortKey(PriorityColumn, Desc), SortKey(DueDate, Asc)]
  const CreatedAtDescKeys := [SortKey(CreatedAt, Desc)]

  /** `findAllOrderByDueDateAsc`. */
  function FindAllOrderByDueDateAsc(table: seq<Task>, nullsLow: bool): (r: seq<Task>)
    ensures multiset(r) == multiset(table)
    ensures Sorted(r, DueDateAscKeys, nullsLow)
  {
    SortBy(table, DueDateAscKeys, nullsLow)
  }

  /** `findAllOrderByDueDateDesc`. */
  function FindAllOrderByDueDateDesc(table: seq<Task>, nullsLow: bool): (r: seq<Task>)
    ensures multiset(r) == multiset(table)
    ensures Sorted(r, DueDateDescKeys, nullsLow)
  {
    SortBy(table, DueDateDescKeys, nullsLow)
  }

  /** `findAllOrderByProjectAsc`. */
  function FindAllOrderByProjectAsc(table: seq<Task>, nullsLow: bool): (r: seq<Task>)
    ensures multiset(r) == multiset(table)
    ensures Sorted(r, ProjectAscKeys, nullsLow)
  {
    SortBy(table, ProjectAscKeys, nullsLow)
  }

  /** `findAllOrderByPriorityDesc`: descending by the stored enum name, then by due date. */
  function FindAllOrderByPriorityDesc(table: seq<Task>, nullsLow: bool): (r: seq<Task>)
    ensures multiset(r) == multiset(table)
    ensures Sorted(r, PriorityDescKeys, nullsLow)
  {
    SortBy(table, PriorityDescKeys, nullsLow)
  }

  /** `findAllOrderByCreatedAtDesc`. */
  function FindAllOrderByCreatedAtDesc(table: seq<Task>, nullsLow: bool): (r: seq<Task>)
    ensures multiset(r) == multiset(table)
    ensures Sorted(r, CreatedAtDescKeys, nullsLow)
  {
    SortBy(table, CreatedAtDescKeys, nullsLow)
  }

  /** In the due-date ascending listing, due dates rise and equal due dates have rising creation times. */
  lemma DueDateAscOrder(r: seq<Task>, nullsLow: bool, i: int, j: int)
    requires Sorted(r, DueDateAscKeys, nullsLow) && 0 <= i < j < |r|
    ensures r[i].dueDate.Some? && r[j].dueDate.Some? ==> r[i].dueDate.value <= r[j].dueDate.value
    ensures r[i].dueDate == r[j].dueDate && r[i].createdAt.Some? && r[j].createdAt.Some?
         ==> r[i].createdAt.value <= r[j].createdAt.value
    ensures r[i].dueDate.Some? && r[j].dueDate.None? ==> !nullsLow
    ensures r[i].dueDate.None? && r[j].dueDate.Some? ==> nullsLow
  {
    assert Precedes(r[i], r[j], DueDateAscKeys, nullsLow);
  }

  /** In the due-date descending listing, due dates fall and equal due dates have falling creation times. */
  lemma DueDateDescOrder(r: seq<Task>, nullsLow: bool, i: int, j: int)
    requires Sorted(r, DueDateDescKeys, nullsLow) && 0 <= i < j < |r|
    ensures r[i].dueDate.Some? && r[j].dueDate.Some? ==> r[i].dueDate.value >= r[j].dueDate.value
    ensures r[i].dueDate == r[j].dueDate && r[i].createdAt.Some? && r[j].createdAt.Some?
         ==> r[i].createdAt.value >= r[j].createdAt.value
  {
    assert Precedes(r[i], r[j], DueDateDescKeys, nullsLow);
  }

  /** In the project listing, project names never decrease and equal names have rising due dates. */
  lemma ProjectAscOrder(r: seq<Task>, nullsLow: bool, i: int, j: int)
    requires Sorted(r, ProjectAscKeys, nullsLow) && 0 <= i < j < |r|
    ensures r[i].project.Some? && r[j].project.Some? ==> !Text.StrLess(r[j].project.value, r[i].project.value)
    ensures r[i].project == r[j].project && r[i].dueDate.Some? && r[j].dueDate.Some?
         ==> r[i].dueDate.value <= r[j].dueDate.value
  {
    assert Precedes(r[i], r[j], ProjectAscKeys, nullsLow);
    if r[i].project.Some? && r[j].project.Some? {
      Text.StrLessTotal(r[i].project.value, r[j].project.value);
    }
  }

  /** In the creation listing, newer tasks come first. */
  lemma CreatedAtDescOrder(r: seq<Task>, nullsLow: bool, i: int, j: int)
    requires Sorted(r, CreatedAtDescKeys, nullsLow) && 0 <= i < j < |r|
    ensures r[i].createdAt.Some? && r[j].createdAt.Some? ==> r[i].createdAt.value >= r[j].createdAt.value
  {
    assert Precedes(r[i], r[j], CreatedAtDescKeys, nullsLow);
  }

  /** The position of a priority's stored name in string order: "HIGH" < "LOW" < "MEDIUM". */
  function StoredNameRank(p: Priority): nat {
    match p
    case HIGH => 0
    case LOW => 1
    case MEDIUM => 2
  }

  /** Comparing stored names is comparing their ranks. */
  lemma StoredNameOrder(p: Priority, q: Priority)
    ensures Text.StrLess(PriorityName(p), PriorityName(q)) <==> StoredNameRank(p) < StoredNameRank(q)
  {
    assert PriorityName(HIGH)[0] == 'H' && PriorityName(LOW)[0] == 'L' && PriorityName(MEDIUM)[0] == 'M';
    Text.StrLessIrreflexive(PriorityName(p));
  }

  /**
   * The priority listing orders by name descending: every MEDIUM task, then every LOW task, then
   * every HIGH task; a due date breaks ties among equal priorities. Tasks without a priority come
   * last where the database sorts NULL low and first where it sorts NULL high.
   */
  lemma PriorityDescOrder(r: seq<Task>, nullsLow: bool, i: int, j: int)
    requires Sorted(r, PriorityDescKeys, nullsLow) && 0 <= i < j < |r|
    ensures r[i].priority.Some? && r[j].priority.Some?
         ==> StoredNameRank(r[i].priority.value) >= StoredNameRank(r[j].priority.value)
    ensures r[i].priority == Some(HIGH) ==> r[j].priority == Some(HIGH) || (nullsLow && r[j].priority.None?)
    ensures r[j].priority == Some(MEDIUM) ==> r[i].priority == Some(MEDIUM) || (!nullsLow && r[i].priority.None?)
    ensures r[i].priority.Some? && r[j].priority.None? ==> nullsLow
    ensures r[i].priority.None? && r[j].priority.Some? ==> !nullsLow
    ensures r[i].priority == r[j].priority && r[i].dueDate.Some? && r[j].dueDate.Some?
         ==> r[i].dueDate.value <= r[j].dueDate.value
  {
    assert Precedes(r[i], r[j], PriorityDescKeys, nullsLow);
    if r[i].priority.Some? && r[j].priority.Some? {
      StoredNameOrder(r[i].priority.value, r[j].priority.value);
      StoredNameOrder(r[j].priority.value, r[i].priority.value);
      PriorityMetadata(r[i].priority.value, r[j].priority.value);
    }
  }

  /** When no row has the given status, the status query is empty. */
  lemma NoneWithStatus(table: seq<Task>, completed: bool)
    requires forall i :: 0 <= i < |table| ==> table[i].completed != completed
    ensures FindByCompleted(table, completed) == []
  {
    Seqs.FilterNone(table, (t: Task) => t.completed == completed);
  }

  /** `countByCompleted`. */
  function CountByCompleted(table: seq<Task>, completed: bool): (n: nat)
    ensures n == |FindByCompleted(table, completed)|
  {
    Seqs.CountIfIsFilterLength(table, (t: Task) => t.completed == completed);
    Seqs.CountIf(table, (t: Task) => t.completed == completed)
  }

  /** Every task is either completed or not, so the two counts add up to count(). */
  lemma {:induction false} CountByCompletedPartition(table: seq<Task>)
    ensures CountByCompleted(table, true) + CountByCompleted(table, false) == |table|
  {
    if table != [] {
      CountByCompletedPartition(table[1..]);
      assert CountByCompleted(table, true) == (if table[0].completed then 1 else 0) + CountByCompleted(table[1..], true);
      assert CountByCompleted(table, false) == (if table[0].completed then 0 else 1) + CountByCompleted(table[1..], false);
    }
  }

  /** `countOverdueTasks(today)`. */
  function CountOverdueTasks(table: seq<Task>, today: Date): (n: nat)
    ensures n == |FindOverdueTasks(table, today)|
  {
    var p := (t: Task) => t.dueDate.Some? && t.dueDate.value < today && !t.completed;
    Seqs.CountIfIsFilterLength(table, p);
    Seqs.CountIf(table, p)
  }

  /** Overdue tasks are pending, so there are never more of them than pending tasks. */
  lemma OverdueAtMostPending(table: seq<Task>, today: Date)
    ensures CountOverdueTasks(table, today) <= CountByCompleted(table, false)
  {
    Seqs.CountIfMonotone(table, (t: Task) => t.dueDate.Some? && t.dueDate.value < today && !t.completed,
                         (t: Task) => t.completed == false);
  }

  /** Some row of the table has project name p. */
  predicate HasProject(table: seq<Task>, p: string) {
    exists i :: 0 <= i < |table| && table[i].project == Some(p)
  }

  /** Strictly ascending names: sorted and free of duplicates. */
  predicate StrictlyAscending(names: seq<string>) {
    forall i, j :: 0 <= i < j < |names| ==> Text.StrLess(names[i], names[j])
  }

  /** A strictly ascending list has no duplicates. */
  lemma StrictlyAscendingDistinct(names: seq<string>, i: int, j: int)
    requires StrictlyAscending(names) && 0 <= i < j < |names|
    ensures names[i] != names[j]
  {
    Text.StrLessIrreflexive(names[i]);
  }

  /** Add p to a strictly ascending list unless it is there already. */
  function InsertDistinct(names: seq<string>, p: string): (r: seq<string>)
    requires StrictlyAscending(names)
    ensures StrictlyAscending(r)
    ensures forall q :: q in r <==> q in names || q == p
  {
    if names == [] then [p]
    else if p == names[0] then names
    else if Text.StrLess(p, names[0]) then
      assert forall j :: 0 < j < |names| ==> Text.StrLess(p, names[j]) by {
        forall j | 0 < j < |names| ensures Text.StrLess(p, names[j]) {
          Text.StrLessTransitive(p, names[0], names[j]);
        }
      }
      [p] + names
    else
      var rest := InsertDistinct(names[1..], p);
      Text.StrLessTotal(p, names[0]);
      assert names == [names[0]] + names[1..];
      assert forall q :: q in rest ==> Text.StrLess(names[0], q);
      [names[0]] + rest
  }

  /** `findDistinctProjects`: the non-null, non-empty project names, once each, in ascending order. */
  function FindDistinctProjects(table: seq<Task>): (r: seq<string>)
    ensures StrictlyAscending(r)
    ensures forall p :: p in r <==> p != "" && HasProject(table, p)
  {
    if table == [] then []
    else
      var rest := FindDistinctProjects(table[1..]);
      assert forall p :: HasProject(table, p) <==> table[0].project == Some(p) || HasProject(table[1..], p) by {
        forall p ensures HasProject(table, p) <==> table[0].project == Some(p) || HasProject(table[1..], p) {
          if HasProject(table[1..], p) {
            var i :| 0 <= i < |table[1..]| && table[1..][i].project == Some(p);
            assert table[i + 1].project == Some(p);
          }
          if HasProject(table, p) && table[0].project != Some(p) {
            var i :| 0 <= i < |table| && table[i].project == Some(p);
            assert table[1..][i - 1].project == Some(p);
          }
        }
      }
      if table[0].project.Some? && table[0].project.value != "" then InsertDistinct(rest, table[0].project.value)
      else rest
  }

  /** Each project name is listed once. */
  lemma DistinctProjectsOnce(table: seq<Task>, i: int, j: int)
    requires 0 <= i < j < |FindDistinctProjects(table)|
    ensures FindDistinctProjects(table)[i] != FindDistinctProjects(table)[j]
  {
    StrictlyAscendingDistinct(FindDistinctProjects(table), i, j);
  }

  /** Distinctness is case-sensitive: names that differ only in case are both listed. */
  lemma DistinctProjectsKeepCase(table: seq<Task>, a: string, b: string)
    requires a != "" && b != "" && a != b && Text.Lower(a) == Text.Lower(b)
    requires HasProject(table, a) && HasProject(table, b)
    ensures a in FindDistinctProjects(table) && b in FindDistinctProjects(table)
  {
  }

  /** The keyword occurs in the lower-cased title or the lower-cased description. */
  predicate KeywordMatches(t: Task, keyword: string) {
    FieldMatches(t.title, keyword) || FieldMatches(t.description, keyword)
  }

  /** `searchTasksByKeyword`. */
  function SearchTasksByKeyword(table: seq<Task>, keyword: string): (r: seq<Task>)
    ensures forall t :: t in r <==> t in table && KeywordMatches(t, keyword)
  {
    Seqs.Filter(table, (t: Task) => KeywordMatches(t, keyword))
  }

  /**
   * A match is an occurrence of the lower-cased keyword in a lower-cased field; a null field never
   * matches, and the keyword's own case makes no difference.
   */
  lemma KeywordMatchMeaning(t: Task, keyword: string)
    ensures FieldMatches(t.description, keyword) <==>
      t.description.Some? && exists i :: Text.OccursAt(Text.Lower(t.description.value), Text.Lower(keyword), i)
    ensures t.description.None? ==> (KeywordMatches(t, keyword) <==> FieldMatches(t.title, keyword))
    ensures KeywordMatches(t, keyword) <==> KeywordMatches(t, Text.Lower(keyword))
  {
    if t.description.Some? {
      Text.ContainsIff(Text.Lower(t.description.value), Text.Lower(keyword));
    }
    Text.LowerIdempotent(keyword);
  }

  /** `findTasksByCriteria`: a null criterion is a wildcard; the others are ANDed, project compared exactly. */
  function FindTasksByCriteria(table: seq<Task>, project: Option<string>, completed: Option<bool>,
                               keyword: Option<string>): (r: seq<Task>)
    ensures forall t :: t in r <==>
      && t in table
      && (project.None? || t.project == project)
      && (completed.None? || t.completed == completed.value)
      && (keyword.None? || KeywordMatches(t, keyword.value))
  {
    Seqs.Filter(table, (t: Task) => CriteriaMatch(t, project, completed, keyword))
  }

  predicate CriteriaMatch(t: Task, project: Option<string>, completed: Option<bool>, keyword: Option<string>) {
    && (project.None? || t.project == project)
    && (completed.None? || t.completed == completed.value)
    && (keyword.None? || KeywordMatches(t, keyword.value))
  }

  /** With every criterion null the query returns the whole table; one criterion gives its own query. */
  lemma CriteriaQuerySpecialCases(table: seq<Task>, completed: bool, keyword: string)
    ensures FindTasksByCriteria(table, None, None, None) == table
    ensures FindTasksByCriteria(table, None, Some(completed), None) == FindByCompleted(table, completed)
    ensures FindTasksByCriteria(table, None, None, Some(keyword)) == SearchTasksByKeyword(table, keyword)
  {
    Seqs.FilterAll(table, (t: Task) => CriteriaMatch(t, None, None, None));
    Seqs.FilterCongruent(table, (t: Task) => CriteriaMatch(t, None, Some(completed), None), (t: Task) => t.completed == completed);
    Seqs.FilterCongruent(table, (t: Task) => CriteriaMatch(t, None, None, Some(keyword)), (t: Task) => KeywordMatches(t, keyword));
  }

  /** The criteria query compares projects exactly, unlike findByProjectIgnoreCase. */
  lemma CriteriaProjectIsCaseSensitive()
    ensures var t := NewTask().(id := Some(1), title := Some("Report"), project := Some("Work"));
      t in FindByProjectIgnoreCase([t], "work") && t !in FindTasksByCriteria([t], Some("work"), None, None)
  {
    var t := NewTask().(id := Some(1), title := Some("Report"), project := Some("Work"));
    assert Text.Lower("Work") == "work";
    assert Text.Lower("work") == "work";
  }
}
