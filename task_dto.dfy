/**
 * The form draft of a task: the entity's editable fields plus an optional id, the conversions in
 * both directions, and the declared field constraints as a validation function.
 */
module TaskDto {
  import opened Wrappers
  import opened Tasks
  import Text

  datatype TaskDto = TaskDto(
    id: Option<int>,
    title: Option<string>,
    description: Option<string>,
    dueDate: Option<Date>,
    project: Option<string>,
    priority: Option<Priority>,
    completed: bool)

  /** `new TaskDto()`: only the field initialisers run. */
  function NewTaskDto(): TaskDto {
    TaskDto(None, None, None, None, None, Some(MEDIUM), false)
  }

  /** A fresh draft has no id and no text, medium priority and is not completed. */
  lemma NewTaskDtoDefaults()
    ensures var d := NewTaskDto(); d.id.None? && d.priority == Some(MEDIUM) && !d.completed
    ensures var d := NewTaskDto(); d.title.None? && d.description.None? && d.dueDate.None? && d.project.None?
  {
  }

  /** `toTask()`: a new entity whose setters copy every draft field; the id is kept, not cleared. */
  function ToTask(d: TaskDto): (r: Task)
    ensures r.id == d.id
    ensures r.createdAt.None? && r.updatedAt.None?
  {
    NewTask().(id := d.id, title := d.title, description := d.description, dueDate := d.dueDate,
               project := d.project, priority := d.priority, completed := d.completed)
  }

  /** `new TaskDto(task)`, the draft that pre-fills the edit form: back to an entity, only the timestamps are lost. */
  function FromTask(t: Task): (r: TaskDto)
    ensures ToTask(r) == t.(createdAt := None, updatedAt := None)
    ensures SameEntity(ToTask(r), t)
  {
    TaskDto(t.id, t.title, t.description, t.dueDate, t.project, t.priority, t.completed)
  }

  /** Draft to entity and back is the identity. */
  lemma FromTaskOfToTask(d: TaskDto)
    ensures FromTask(ToTask(d)) == d
  {
  }

  /** The constraint that a validator reports as violated. */
  datatype Violation = TitleBlank | TitleSize | DescriptionSize | ProjectSize

  /**
   * The violations Bean Validation reports for d: @NotBlank rejects null and any title that trims
   * to nothing; @Size accepts null and bounds the length in UTF-16 code units otherwise.
   */
  function Violations(d: TaskDto): (r: set<Violation>)
    ensures r == {} <==> IsValid(d)
    ensures TitleBlank in r <==> d.title.None? || Text.IsBlank(d.title.value)
  {
    var titleBlank := d.title.None? || Text.Trim(d.title.value) == [];
    var titleSize := d.title.Some? && !(1 <= Text.Utf16Length(d.title.value) <= 200);
    var descriptionSize := d.description.Some? && Text.Utf16Length(d.description.value) > 1000;
    var projectSize := d.project.Some? && Text.Utf16Length(d.project.value) > 100;
    Text.TrimEmptyIffBlank(if d.title.Some? then d.title.value else "");
    ViolationSetEmpty(titleBlank, titleSize, descriptionSize, projectSize);
    ViolationSet(titleBlank, titleSize, descriptionSize, projectSize)
  }

  /** The violations whose flags are raised. */
  function ViolationSet(titleBlank: bool, titleSize: bool, descriptionSize: bool, projectSize: bool): set<Violation> {
    (if titleBlank then {TitleBlank} else {})
      + (if titleSize then {TitleSize} else {})
      + (if descriptionSize then {DescriptionSize} else {})
      + (if projectSize then {ProjectSize} else {})
  }

  /** The raised flags are exactly the members of the set. */
  lemma ViolationSetEmpty(titleBlank: bool, titleSize: bool, descriptionSize: bool, projectSize: bool)
    ensures var r := ViolationSet(titleBlank, titleSize, descriptionSize, projectSize);
      && (r == {} <==> !titleBlank && !titleSize && !descriptionSize && !projectSize)
      && (TitleBlank in r <==> titleBlank)
      && (TitleSize in r <==> titleSize)
  {
    var r := ViolationSet(titleBlank, titleSize, descriptionSize, projectSize);
    if r == {} {
      assert TitleBlank !in r && TitleSize !in r && DescriptionSize !in r && ProjectSize !in r;
    }
  }

  /**
   * A draft is acceptable when its title is present, not blank and 1 to 200 UTF-16 code units long, its
   * description is absent or at most 1000 units, and its project absent or at most 100.
   */
  predicate IsValid(d: TaskDto): (r: bool)
    ensures r ==> d.title.Some? && Text.Trim(d.title.value) != []
  {
    Text.TrimEmptyIffBlank(if d.title.Some? then d.title.value else "");
    && d.title.Some? && !Text.IsBlank(d.title.value) && 1 <= Text.Utf16Length(d.title.value) <= 200
    && (d.description.None? || Text.Utf16Length(d.description.value) <= 1000)
    && (d.project.None? || Text.Utf16Length(d.project.value) <= 100)
  }

  /** A title of 150 characters outside the Basic Multilingual Plane is 300 UTF-16 units: too long. */
  lemma AstralTitleTooLong()
    ensures var d := NewTaskDto().(title := Some(seq(150, _ => '\U{1F600}')));
      TitleSize in Violations(d) && !IsValid(d)
  {
    var title := seq(150, _ => '\U{1F600}');
    Text.Utf16LengthOfAstral(title);
  }

  /** For text inside the Basic Multilingual Plane every bound counts characters. */
  lemma BmpSizesCountCharacters(d: TaskDto)
    requires d.title.Some? && d.description.Some? && d.project.Some?
    requires Text.InBmp(d.title.value) && Text.InBmp(d.description.value) && Text.InBmp(d.project.value)
    ensures IsValid(d) <==>
      !Text.IsBlank(d.title.value) && 1 <= |d.title.value| <= 200 && |d.description.value| <= 1000 && |d.project.value| <= 100
  {
    Text.Utf16LengthOfBmp(d.title.value);
    Text.Utf16LengthOfBmp(d.description.value);
    Text.Utf16LengthOfBmp(d.project.value);
  }

  /** The draft's constraints are the entity's: a draft is valid exactly when its entity is. */
  lemma ValidDraftGivesValidTask(d: TaskDto)
    ensures IsValid(d) <==> SatisfiesConstraints(ToTask(d))
    ensures SatisfiesConstraints(ToTask(d)) ==> Violations(d) == {}
  {
  }
}
