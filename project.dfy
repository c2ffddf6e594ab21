/**
 * Project: one student project with validating setters.  Dates are day
 * numbers; `today` stands for the clock reading each operation takes.  A
 * due date arrives already parsed: `None` stands for text that the
 * `MM/dd/yyyy` format rejects.
 */
module Projects {
  import opened Wrappers
  import opened Text

  /** Project.Priority, in declaration order. */
  datatype Priority = High | Medium | Low
  {
    /** `Enum.ordinal()`, which `compareTo` orders by. */
    function Ordinal(): (n: nat)
      ensures n < 3
      ensures this == High <==> n == 0
      ensures this == Medium <==> n == 1
    {
      match this
      case High => 0
      case Medium => 1
      case Low => 2
    }
  }

  /** The status word `toString` shows. */
  datatype DisplayStatus = Completed | Overdue | Pending

  /** The three fields `equals` compares. */
  datatype Key = MakeKey(className: string, dueDate: int, description: string)

  /** `validateInputs`: a blank class name is reported first, then a blank
      description, then an unparseable date, then a date before today. */
  function ValidateInputs(className: Option<string>, dueDate: Option<int>,
                          description: Option<string>, today: int): (r: Outcome)
    ensures r == Pass <==>
      && className.Some? && !IsBlank(className.value)
      && description.Some? && !IsBlank(description.value)
      && dueDate.Some? && today <= dueDate.value
    ensures (className.None? || IsBlank(className.value)) ==>
      r == Fail(IllegalArgument(BlankClassName))
    ensures className.Some? && !IsBlank(className.value) && (description.None? || IsBlank(description.value)) ==>
      r == Fail(IllegalArgument(BlankDescription))
    ensures className.Some? && !IsBlank(className.value) && description.Some? && !IsBlank(description.value) ==>
      && (dueDate.None? ==> r == Fail(IllegalArgument(BadDateFormat)))
      && (dueDate.Some? && dueDate.value < today ==> r == Fail(IllegalArgument(PastDueDate)))
  {
    if className.None? || IsBlank(className.value) then Fail(IllegalArgument(BlankClassName))
    else if description.None? || IsBlank(description.value) then Fail(IllegalArgument(BlankDescription))
    else if dueDate.None? then Fail(IllegalArgument(BadDateFormat))
    else if dueDate.value < today then Fail(IllegalArgument(PastDueDate))
    else Pass
  }

  class Project {
    var className: string
    var dueDate: int
    var description: string
    var completed: bool
    var priority: Priority
    var timeEstimate: string
    var actualTime: string
    var lastModified: int

    /** What every constructor and setter keeps: non-blank names and
        digit-only time fields. */
    ghost predicate Valid()
      reads this
    {
      && !IsBlank(className) && !IsBlank(description)
      && IsDigits(timeEstimate) && IsDigits(actualTime)
    }

    /** The constructor body once `validateInputs` has passed. */
    constructor (className: string, dueDate: int, description: string, today: int)
      requires !IsBlank(className) && !IsBlank(description)
      ensures Valid()
      ensures Key() == MakeKey(className, dueDate, description)
      ensures !completed && priority == Medium
      ensures timeEstimate == "0" && actualTime == "0" && lastModified == today
    {
      this.className := className;
      this.dueDate := dueDate;
      this.description := description;
      this.completed := false;
      this.priority := Medium;
      this.timeEstimate := "0";
      this.actualTime := "0";
      this.lastModified := today;
    }

    /** `new Project(className, dueDate, description)`: the inputs are
        validated first; a fresh project is pending, of medium priority,
        with both time fields "0". */
    static method Create(className: Option<string>, dueDate: Option<int>,
                         description: Option<string>, today: int) returns (r: Result<Project>)
      ensures r.Err? <==> ValidateInputs(className, dueDate, description, today).Fail?
      ensures r.Err? ==> r.error == ValidateInputs(className, dueDate, description, today).error
      ensures r.Ok? ==> fresh(r.value) && r.value.Valid()
      ensures r.Ok? ==> r.value.Key() == MakeKey(className.value, dueDate.value, description.value)
      ensures r.Ok? ==> !r.value.completed && r.value.priority == Medium
      ensures r.Ok? ==> r.value.timeEstimate == "0" && r.value.actualTime == "0"
      ensures r.Ok? ==> r.value.lastModified == today && today <= r.value.dueDate
    {
      var check := ValidateInputs(className, dueDate, description, today);
      if check.Fail? {
        return Err(check.error);
      }
      var p := new Project(className.value, dueDate.value, description.value, today);
      return Ok(p);
    }

    /** The fields `equals` and `hashCode` depend on. */
    function Key(): Key
      reads this
    {
      MakeKey(className, dueDate, description)
    }

    /** `setClassName`: a blank name is refused and changes nothing. */
    method SetClassName(name: Option<string>, today: int) returns (r: Outcome)
      modifies this
      ensures r == if name.None? || IsBlank(name.value) then Fail(IllegalArgument(BlankClassName)) else Pass
      ensures r.Fail? ==> unchanged(this)
      ensures r.Pass? ==> className == name.value && lastModified == today
      ensures r.Pass? ==> dueDate == old(dueDate) && description == old(description)
      ensures r.Pass? ==> completed == old(completed) && priority == old(priority)
      ensures r.Pass? ==> timeEstimate == old(timeEstimate) && actualTime == old(actualTime)
      ensures old(Valid()) ==> Valid()
    {
      if name.None? || IsBlank(name.value) {
        return Fail(IllegalArgument(BlankClassName));
      }
      className := name.value;
      lastModified := today;
      r := Pass;
    }

    /** `setDueDate`: unparseable text and a date before today are refused
        and change nothing. */
    method SetDueDate(date: Option<int>, today: int) returns (r: Outcome)
      modifies this
      ensures r == if date.None? then Fail(IllegalArgument(BadDateFormat))
                   else if date.value < today then Fail(IllegalArgument(PastDueDate))
                   else Pass
      ensures r.Fail? ==> unchanged(this)
      ensures r.Pass? ==> dueDate == date.value && lastModified == today
      ensures r.Pass? ==> className == old(className) && description == old(description)
      ensures r.Pass? ==> completed == old(completed) && priority == old(priority)
      ensures r.Pass? ==> timeEstimate == old(timeEstimate) && actualTime == old(actualTime)
      ensures old(Valid()) ==> Valid()
    {
      if date.None? {
        return Fail(IllegalArgument(BadDateFormat));
      }
      if date.value < today {
        return Fail(IllegalArgument(PastDueDate));
      }
      dueDate := date.value;
      lastModified := today;
      r := Pass;
    }

    /** `setDescription`: a blank description is refused and changes nothing. */
    method SetDescription(text: Option<string>, today: int) returns (r: Outcome)
      modifies this
      ensures r == if text.None? || IsBlank(text.value) then Fail(IllegalArgument(BlankDescription)) else Pass
      ensures r.Fail? ==> unchanged(this)
      ensures r.Pass? ==> description == text.value && lastModified == today
      ensures r.Pass? ==> className == old(className) && dueDate == old(dueDate)
      ensures r.Pass? ==> completed == old(completed) && priority == old(priority)
      ensures r.Pass? ==> timeEstimate == old(timeEstimate) && actualTime == old(actualTime)
      ensures old(Valid()) ==> Valid()
    {
      if text.None? || IsBlank(text.value) {
        return Fail(IllegalArgument(BlankDescription));
      }
      description := text.value;
      lastModified := today;
      r := Pass;
    }

    /** `setCompleted`: never refused; the key is untouched. */
    method SetCompleted(done: bool, today: int)
      modifies this
      ensures completed == done && lastModified == today
      ensures Key() == old(Key()) && priority == old(priority)
      ensures timeEstimate == old(timeEstimate) && actualTime == old(actualTime)
      ensures old(Valid()) ==> Valid()
    {
      completed := done;
      lastModified := today;
    }

    /** `setPriority`: never refused; the key is untouched. */
    method SetPriority(level: Priority, today: int)
      modifies this
      ensures priority == level && lastModified == today
      ensures Key() == old(Key()) && completed == old(completed)
      ensures timeEstimate == old(timeEstimate) && actualTime == old(actualTime)
      ensures old(Valid()) ==> Valid()
    {
      priority := level;
      lastModified := today;
    }

    /** `setTimeEstimate`: anything but a run of digits is refused and
        changes nothing. */
    method SetTimeEstimate(estimate: string, today: int) returns (r: Outcome)
      modifies this
      ensures r == if IsDigits(estimate) then Pass else Fail(IllegalArgument(BadTimeEstimate))
      ensures r.Fail? ==> unchanged(this)
      ensures r.Pass? ==> timeEstimate == estimate && lastModified == today
      ensures r.Pass? ==> Key() == old(Key()) && completed == old(completed) && priority == old(priority)
      ensures r.Pass? ==> actualTime == old(actualTime)
      ensures old(Valid()) ==> Valid()
    {
      if !IsDigits(estimate) {
        return Fail(IllegalArgument(BadTimeEstimate));
      }
      timeEstimate := estimate;
      lastModified := today;
      r := Pass;
    }

    /** `setActualTime`: anything but a run of digits is refused and changes
        nothing. */
    method SetActualTime(spent: string, today: int) returns (r: Outcome)
      modifies this
      ensures r == if IsDigits(spent) then Pass else Fail(IllegalArgument(BadActualTime))
      ensures r.Fail? ==> unchanged(this)
      ensures r.Pass? ==> actualTime == spent && lastModified == today
      ensures r.Pass? ==> Key() == old(Key()) && completed == old(completed) && priority == old(priority)
      ensures r.Pass? ==> timeEstimate == old(timeEstimate)
      ensures old(Valid()) ==> Valid()
    {
      if !IsDigits(spent) {
        return Fail(IllegalArgument(BadActualTime));
      }
      actualTime := spent;
      lastModified := today;
      r := Pass;
    }

    /** `isOverdue`: still open and `today` is past the due date. */
    predicate IsOverdue(today: int)
      reads this
      ensures completed ==> !IsOverdue(today)
      ensures today <= dueDate ==> !IsOverdue(today)
    {
      !completed && today > dueDate
    }

    /** The status `toString` shows: "Completed", else "OVERDUE", else
        "Pending".  Exactly one holds. */
    function Status(today: int): (s: DisplayStatus)
      reads this
      ensures s == Completed <==> completed
      ensures s == Overdue <==> IsOverdue(today)
      ensures s == Pending <==> !completed && today <= dueDate
    {
      if completed then Completed else if IsOverdue(today) then Overdue else Pending
    }

    /** `equals`: the same object, or another project with the same class
        name, due date and description. */
    function Equals(other: Project?): (b: bool)
      reads this, other
      ensures b <==> other != null && Key() == other.Key()
    {
      this == other ||
      (other != null && className == other.className && dueDate == other.dueDate
       && description == other.description)
    }
  }

  /** Once overdue, a project stays overdue as days pass until it is completed. */
  lemma OverdueStays(p: Project, today: int, later: int)
    requires p.IsOverdue(today) && today <= later
    ensures p.IsOverdue(later)
    ensures p.Status(later) == Overdue
  {
  }

  /** `equals` is reflexive, symmetric and transitive. */
  lemma EqualsIsEquivalence(p: Project, q: Project, o: Project)
    ensures p.Equals(p)
    ensures p.Equals(q) <==> q.Equals(p)
    ensures p.Equals(q) && q.Equals(o) ==> p.Equals(o)
  {
  }

  /** `equals(null)` is false. */
  lemma EqualsNull(p: Project)
    ensures !p.Equals(null)
  {
  }
}
