/**
 * The Task entity: its fields and defaults, the helper predicates the views use, the Priority enum
 * with its display metadata, the timestamp lifecycle hooks and identity-based equality.
 * A task is modelled as a value; a setter or a hook becomes a function returning the updated value.
 */
module Tasks {
  import opened Wrappers
  import Text

  /** A calendar date as a day number (LocalDate). */
  type Date = int

  /** A point in time (LocalDateTime) as an integer instant. */
  type Instant = int

  /** The enum constants; the priority column stores a constant's name (EnumType.STRING). */
  datatype Priority = LOW | MEDIUM | HIGH

  /** The string the priority column holds for p: the constant's name. */
  function PriorityName(p: Priority): string {
    match p
    case LOW => "LOW"
    case MEDIUM => "MEDIUM"
    case HIGH => "HIGH"
  }

  /** The label the views show for p. */
  function DisplayName(p: Priority): string {
    match p
    case LOW => "Low"
    case MEDIUM => "Medium"
    case HIGH => "High"
  }

  /** The style tag the views attach to p. */
  function CssClass(p: Priority): string {
    match p
    case LOW => "success"
    case MEDIUM => "warning"
    case HIGH => "danger"
  }

  /** The metadata table of the enum, and that each constant has its own name and label. */
  lemma PriorityMetadata(p: Priority, q: Priority)
    ensures DisplayName(LOW) == "Low" && CssClass(LOW) == "success"
    ensures DisplayName(MEDIUM) == "Medium" && CssClass(MEDIUM) == "warning"
    ensures DisplayName(HIGH) == "High" && CssClass(HIGH) == "danger"
    ensures PriorityName(p) == PriorityName(q) <==> p == q
    ensures DisplayName(p) == DisplayName(q) <==> p == q
  {
  }

  /**
   * One row of the tasks table. Every reference-typed field of the entity may be null (None),
   * `priority` included (its column is nullable); only `completed` is a primitive boolean.
   */
  datatype Task = Task(
    id: Option<int>,
    title: Option<string>,
    description: Option<string>,
    dueDate: Option<Date>,
    project: Option<string>,
    completed: bool,
    priority: Option<Priority>,
    createdAt: Option<Instant>,
    updatedAt: Option<Instant>)

  /** `new Task()`: only the field initialisers run. */
  function NewTask(): Task {
    Task(None, None, None, None, None, false, Some(MEDIUM), None, None)
  }

  /** `new Task(title, description, dueDate, project)`. */
  function NewTaskWith(title: Option<string>, description: Option<string>, dueDate: Option<Date>,
                       project: Option<string>): Task
  {
    Task(None, title, description, dueDate, project, false, Some(MEDIUM), None, None)
  }

  /** Both constructors give a pending, medium-priority task without id or timestamps. */
  lemma NewTaskDefaults(title: Option<string>, description: Option<string>, dueDate: Option<Date>,
                        project: Option<string>)
    ensures !NewTask().completed && NewTask().priority == Some(MEDIUM) && NewTask().id.None?
    ensures NewTask().createdAt.None? && NewTask().updatedAt.None?
    ensures NewTaskWith(title, description, dueDate, project)
         == NewTask().(title := title, description := description, dueDate := dueDate, project := project)
  {
  }

  /**
   * The @PrePersist hook. It reads the clock twice, first for createdAt (`createdNow`) and then for
   * updatedAt (`updatedNow`).
   */
  function OnCreate(t: Task, createdNow: Instant, updatedNow: Instant): (r: Task)
    ensures r.createdAt == Some(createdNow) && r.updatedAt == Some(updatedNow)
    ensures r.(createdAt := t.createdAt, updatedAt := t.updatedAt) == t
  {
    t.(createdAt := Some(createdNow), updatedAt := Some(updatedNow))
  }

  /** The @PreUpdate hook: only updatedAt moves; createdAt is never rewritten. */
  function OnUpdate(t: Task, now: Instant): (r: Task)
    ensures r.updatedAt == Some(now)
    ensures r.(updatedAt := t.updatedAt) == t
  {
    t.(updatedAt := Some(now))
  }

  /** The timestamps are present and ordered, and neither lies after the clock reading `clock`. */
  predicate TimestampsOrdered(t: Task, clock: Instant) {
    t.createdAt.Some? && t.updatedAt.Some? && t.createdAt.value <= t.updatedAt.value <= clock
  }

  /** The hooks keep createdAt <= updatedAt whenever the clock does not run backwards. */
  lemma HooksKeepTimestampsOrdered(t: Task, clock: Instant, createdNow: Instant, now: Instant)
    requires clock <= createdNow <= now
    ensures TimestampsOrdered(OnCreate(t, createdNow, now), now)
    ensures TimestampsOrdered(t, clock) ==> TimestampsOrdered(OnUpdate(t, now), now)
    ensures TimestampsOrdered(t, clock) ==> OnUpdate(t, now).createdAt == t.createdAt
  {
  }

  /** `isOverdue()`, with LocalDate.now() passed in as `today`: only a pending task with a due date can be overdue. */
  predicate IsOverdue(t: Task, today: Date): (r: bool)
    ensures r ==> t.dueDate.Some? && !t.completed
  {
    t.dueDate.Some? && t.dueDate.value < today && !t.completed
  }

  /** An overdue task stays overdue as the days pass, until it is completed. */
  lemma StaysOverdue(t: Task, today: Date, later: Date)
    requires today <= later
    ensures IsOverdue(t, today) ==> IsOverdue(t, later)
  {
  }

  /** A task without a due date, or a completed task, is never overdue. */
  lemma NeverOverdue(t: Task, today: Date)
    ensures t.dueDate.None? ==> !IsOverdue(t, today)
    ensures t.completed ==> !IsOverdue(t, today)
    ensures IsOverdue(t, today) ==> !IsOverdue(t.(completed := true), today)
  {
  }

  /** `getStatusText()`. */
  function StatusText(t: Task): (r: string)
    ensures r == "Completed" <==> t.completed
    ensures r == "Pending" <==> !t.completed
  {
    if t.completed then "Completed" else "Pending"
  }

  /** `getStatusClass()`, with LocalDate.now() passed in as `today`. */
  function StatusClass(t: Task, today: Date): (r: string)
    ensures r == "success" <==> t.completed
    ensures r == "danger" <==> IsOverdue(t, today)
    ensures r == "primary" <==> !t.completed && !IsOverdue(t, today)
  {
    if t.completed then "success"
    else if IsOverdue(t, today) then "danger"
    else "primary"
  }

  /** `equals`: two tasks are equal when their ids are, and two tasks without id count as equal. */
  predicate SameEntity(a: Task, b: Task) {
    a.id == b.id
  }

  /** Id-based equality is an equivalence that ignores every field but the id. */
  lemma SameEntityIsEquivalence(a: Task, b: Task, c: Task)
    ensures SameEntity(a, a)
    ensures SameEntity(a, b) <==> SameEntity(b, a)
    ensures SameEntity(a, b) && SameEntity(b, c) ==> SameEntity(a, c)
    ensures SameEntity(a, a.(title := b.title, completed := b.completed, dueDate := b.dueDate))
    ensures a.id.None? && b.id.None? ==> SameEntity(a, b)
  {
  }

  /** The Bean Validation constraints declared on the entity's fields. */
  predicate SatisfiesConstraints(t: Task) {
    && t.title.Some? && !Text.IsBlank(t.title.value) && 1 <= Text.Utf16Length(t.title.value) <= 200
    && (t.description.None? || Text.Utf16Length(t.description.value) <= 1000)
    && (t.project.None? || Text.Utf16Length(t.project.value) <= 100)
  }
}
