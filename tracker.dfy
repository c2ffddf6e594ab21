/**
 * ProjectTracker: active projects in a `DynamicArray`, completed ones in a
 * `LinkedList`, and a `totalProjects` counter that always equals the two
 * sizes added together.  Snapshots and filters are sequences of the
 * tracked `Project` objects, in list order.
 */
module Trackers {
  import opened Wrappers
  import opened Seqs
  import opened Text
  import opened Projects
  import opened DynamicArrays
  import opened LinkedLists

  /** The test each filter and search applies to an active project. */
  datatype Selector =
    | WithPriority(level: Priority)   // filterByPriority
    | DueBy(cutoff: int)              // getProjectsDueWithin: not after today + days
    | OverdueOn(today: int)           // getOverdueProjects
    | ClassNameHas(term: string)      // searchByClassName, term already lower-cased

  predicate Matches(p: Project, sel: Selector)
    reads p
    ensures sel.ClassNameHas? && sel.term == [] ==> Matches(p, sel)
    ensures sel.OverdueOn? && Matches(p, sel) ==> !p.completed
  {
    match sel
    case WithPriority(level) => p.priority == level
    case DueBy(cutoff) => !(p.dueDate > cutoff)
    case OverdueOn(today) => p.IsOverdue(today)
    case ClassNameHas(term) => Contains(Lower(p.className), term)
  }

  /** `stream().filter(...).collect(toList())`: the projects of `ps` that
      pass `sel`, in their order in `ps`. */
  function Select(ps: seq<Project>, sel: Selector): (r: seq<Project>)
    reads ps
    ensures |r| <= |ps|
    ensures forall i :: 0 <= i < |r| ==> r[i] in ps && Matches(r[i], sel)
    ensures forall i :: 0 <= i < |ps| && Matches(ps[i], sel) ==> ps[i] in r
  {
    if ps == [] then []
    else (if Matches(ps[0], sel) then [ps[0]] else []) + Select(ps[1..], sel)
  }

  /** Filtering keeps the order: filtering a concatenation concatenates the
      filtered parts. */
  lemma {:induction false} SelectAppend(a: seq<Project>, b: seq<Project>, sel: Selector)
    ensures Select(a + b, sel) == Select(a, sel) + Select(b, sel)
  {
    if a == [] {
      assert a + b == b;
    } else {
      assert (a + b)[0] == a[0];
      assert (a + b)[1..] == a[1..] + b;
      SelectAppend(a[1..], b, sel);
    }
  }

  /** Filtering keeps every copy of a passing project and drops every copy
      of a failing one. */
  lemma {:induction false} SelectCounts(ps: seq<Project>, sel: Selector, p: Project)
    ensures multiset(Select(ps, sel))[p] == if Matches(p, sel) then multiset(ps)[p] else 0
  {
    if ps != [] {
      SelectCounts(ps[1..], sel, p);
      assert multiset(ps) == multiset{ps[0]} + multiset(ps[1..]) by {
        assert ps == [ps[0]] + ps[1..];
      }
      if Matches(ps[0], sel) {
        assert Select(ps, sel) == [ps[0]] + Select(ps[1..], sel);
      } else {
        assert Select(ps, sel) == Select(ps[1..], sel);
      }
    }
  }

  /** When every project passes, the filter returns the list itself. */
  lemma {:induction false} SelectAll(ps: seq<Project>, sel: Selector)
    requires forall p :: p in ps ==> Matches(p, sel)
    ensures Select(ps, sel) == ps
  {
    if ps != [] {
      SelectAll(ps[1..], sel);
    }
  }

  /** The two comparators the sorts use. */
  datatype Order = ByDueDate | ByPriority

  /** `getDueDate()` or `getPriority().ordinal()`: what the comparator compares. */
  function SortKey(p: Project, order: Order): (k: int)
    reads p
    ensures order == ByDueDate ==> k == p.dueDate
    ensures order == ByPriority ==> 0 <= k <= 2
    ensures order == ByPriority ==> (k == 0 <==> p.priority == High) && (k == 2 <==> p.priority == Low)
  {
    match order
    case ByDueDate => p.dueDate
    case ByPriority => p.priority.Ordinal()
  }

  /** The keys order projects as the two comparators do: the earlier due day
      first (`LocalDate.compareTo`), and HIGH before MEDIUM before LOW
      (`Enum.compareTo`). */
  lemma SortKeyOrder(p: Project, q: Project, order: Order)
    ensures order == ByDueDate ==>
      (SortKey(p, order) < SortKey(q, order) <==> p.dueDate < q.dueDate)
    ensures order == ByPriority ==>
      (SortKey(p, order) < SortKey(q, order) <==>
        (p.priority == High && q.priority != High) || (p.priority == Medium && q.priority == Low))
  {
  }

  ghost predicate SortedBy(ps: seq<Project>, order: Order)
    reads ps
  {
    forall i, j :: 0 <= i < j < |ps| ==> SortKey(ps[i], order) <= SortKey(ps[j], order)
  }

  /** Put `p` in front of the first project with a larger key. */
  function InsertSorted(p: Project, ps: seq<Project>, order: Order): (r: seq<Project>)
    reads p, ps
    requires SortedBy(ps, order)
    ensures SortedBy(r, order)
    ensures multiset(r) == multiset(ps) + multiset{p}
    ensures forall i :: 0 <= i < |r| ==> r[i] == p || r[i] in ps
  {
    if ps == [] || SortKey(p, order) <= SortKey(ps[0], order) then [p] + ps
    else
      var rest := InsertSorted(p, ps[1..], order);
      assert ps == [ps[0]] + ps[1..];
      InsertedBehind(p, ps, rest, order);
      [ps[0]] + rest
  }

  /** When `p` belongs behind the head of `ps`, the head may precede
      whatever `p` was inserted into the tail to give. */
  lemma InsertedBehind(p: Project, ps: seq<Project>, rest: seq<Project>, order: Order)
    requires SortedBy(ps, order) && ps != [] && SortKey(ps[0], order) < SortKey(p, order)
    requires SortedBy(rest, order)
    requires forall i :: 0 <= i < |rest| ==> rest[i] == p || rest[i] in ps[1..]
    ensures SortedBy([ps[0]] + rest, order)
  {
    forall i | 0 <= i < |rest| ensures SortKey(ps[0], order) <= SortKey(rest[i], order) {
      if rest[i] != p {
        var k :| 0 <= k < |ps| - 1 && ps[1..][k] == rest[i];
        assert ps[k + 1] == rest[i];
      }
    }
    ConsSorted(ps[0], rest, order);
  }

  /** A project no larger than every key of a sorted list can go in front. */
  lemma ConsSorted(p: Project, ps: seq<Project>, order: Order)
    requires SortedBy(ps, order)
    requires forall i :: 0 <= i < |ps| ==> SortKey(p, order) <= SortKey(ps[i], order)
    ensures SortedBy([p] + ps, order)
  {
    var r := [p] + ps;
    forall i, j | 0 <= i < j < |r| ensures SortKey(r[i], order) <= SortKey(r[j], order) {
      if i > 0 {
        assert r[i] == ps[i - 1] && r[j] == ps[j - 1];
      } else {
        assert r[j] == ps[j - 1];
      }
    }
  }

  /** `Collections.sort` with a comparator on `order`: an insertion sort. */
  function Sort(ps: seq<Project>, order: Order): (r: seq<Project>)
    reads ps
    ensures SortedBy(r, order)
    ensures multiset(r) == multiset(ps)
    ensures forall i :: 0 <= i < |r| ==> r[i] in ps
  {
    if ps == [] then []
    else
      assert ps == [ps[0]] + ps[1..];
      var rest := Sort(ps[1..], order);
      InsertSorted(ps[0], rest, order)
  }

  /** The projects of `ps` whose comparator key is `k`, in their order in `ps`. */
  function WithKey(ps: seq<Project>, order: Order, k: int): seq<Project>
    reads ps
  {
    if ps == [] then []
    else (if SortKey(ps[0], order) == k then [ps[0]] else []) + WithKey(ps[1..], order, k)
  }

  /** `WithKey` of a list with a known first project. */
  lemma WithKeyCons(x: Project, ps: seq<Project>, order: Order, k: int)
    ensures WithKey([x] + ps, order, k) == (if SortKey(x, order) == k then [x] else []) + WithKey(ps, order, k)
  {
    assert ([x] + ps)[1..] == ps;
  }

  /** Inserting `p` puts it ahead of every project with the same key. */
  lemma {:induction false} InsertSortedStable(p: Project, ps: seq<Project>, order: Order, k: int)
    requires SortedBy(ps, order)
    ensures WithKey(InsertSorted(p, ps, order), order, k) ==
      (if SortKey(p, order) == k then [p] else []) + WithKey(ps, order, k)
  {
    if ps == [] || SortKey(p, order) <= SortKey(ps[0], order) {
      WithKeyCons(p, ps, order, k);
    } else {
      var rest := InsertSorted(p, ps[1..], order);
      InsertSortedStable(p, ps[1..], order, k);
      WithKeyCons(ps[0], rest, order, k);
      WithKeyCons(ps[0], ps[1..], order, k);
      assert [ps[0]] + ps[1..] == ps;
      var w := WithKey(ps[1..], order, k);
      if SortKey(p, order) == k {
        assert WithKey(rest, order, k) == [p] + w;
      } else {
        assert WithKey(rest, order, k) == w by {
          assert [] + w == w;
        }
      }
    }
  }

  /** `Collections.sort` is stable, and so is `Sort`: the projects sharing a
      key keep their relative order. */
  lemma {:induction false} SortStable(ps: seq<Project>, order: Order, k: int)
    ensures WithKey(Sort(ps, order), order, k) == WithKey(ps, order, k)
  {
    if ps != [] {
      SortStable(ps[1..], order, k);
      InsertSortedStable(ps[0], Sort(ps[1..], order), order, k);
    }
  }

  /** The index of the first project in `ps` that `equals(q)`, or -1. */
  function FirstEqual(ps: seq<Project>, q: Project?): (r: int)
    reads ps, q
    ensures -1 <= r < |ps|
    ensures r == -1 <==> forall j :: 0 <= j < |ps| ==> !ps[j].Equals(q)
    ensures 0 <= r ==> ps[r].Equals(q) && forall j :: 0 <= j < r ==> !ps[j].Equals(q)
  {
    if ps == [] then -1
    else if ps[0].Equals(q) then 0
    else
      var k := FirstEqual(ps[1..], q);
      if k == -1 then -1 else k + 1
  }

  /** The rebuilding loop of both sorts: a new array holding `list`, added
      one element at a time. */
  method Rebuild(list: seq<Project>) returns (a: DynamicArray<Project>)
    ensures a.Valid() && fresh(a.Repr)
    ensures a.Contents == list
  {
    a := new DynamicArray<Project>();
    for i := 0 to |list|
      invariant a.Valid() && fresh(a.Repr)
      invariant a.Contents == list[..i]
    {
      var _ := a.Add(Some(list[i]));
    }
    assert list[..|list|] == list;
  }

  class ProjectTracker {
    var projects: DynamicArray<Project>
    var completedProjects: LinkedList<Project>
    var totalProjects: int
    ghost var Repr: set<object>

    /** The two containers are valid and share nothing, and the counter
        is the number of active plus completed projects. */
    ghost predicate Valid()
      reads this, Repr
      ensures Valid() ==> this in Repr
    {
      && this in Repr && projects in Repr && completedProjects in Repr
      && Repr == {this} + projects.Repr + completedProjects.Repr
      && this !in projects.Repr && this !in completedProjects.Repr
      && projects.Repr !! completedProjects.Repr
      && projects.Valid() && completedProjects.Valid()
      && totalProjects == |projects.Contents| + |completedProjects.Contents|
    }

    /** The active projects, in list order. */
    ghost function Active(): seq<Project>
      reads this, Repr
      requires Valid()
    {
      projects.Contents
    }

    /** The completed projects, in the order they were completed. */
    ghost function Done(): seq<Project>
      reads this, Repr
      requires Valid()
    {
      completedProjects.Contents
    }

    /** `new ProjectTracker()`: no projects at all. */
    constructor ()
      ensures Valid() && fresh(Repr)
      ensures Active() == [] && Done() == [] && totalProjects == 0
    {
      projects := new DynamicArray<Project>();
      completedProjects := new LinkedList<Project>();
      totalProjects := 0;
      new;
      Repr := {this} + projects.Repr + completedProjects.Repr;
    }

    /** `addProject`: a null project is refused; otherwise it joins the end
        of the active list. */
    method AddProject(project: Project?) returns (r: Outcome)
      requires Valid()
      modifies Repr
      ensures Valid() && fresh(Repr - old(Repr))
      ensures r == if project == null then Fail(IllegalArgument(NullProject)) else Pass
      ensures project == null ==> unchanged(this) && Active() == old(Active())
      ensures project != null ==> Active() == old(Active()) + [project]
      ensures Done() == old(Done())
      ensures totalProjects == old(totalProjects) + (if project == null then 0 else 1)
    {
      if project == null {
        return Fail(IllegalArgument(NullProject));
      }
      var _ := projects.Add(Some(project));
      totalProjects := totalProjects + 1;
      Repr := {this} + projects.Repr + completedProjects.Repr;
      r := Pass;
    }

    /** `updateProject`: the first active project that equals `oldProject`
        is replaced by `newProject` in the same position; without a match
        nothing changes. */
    method UpdateProject(oldProject: Project?, newProject: Project?) returns (r: Outcome)
      requires Valid()
      modifies Repr
      ensures Valid() && Repr == old(Repr)
      ensures r == if oldProject == null || newProject == null then Fail(IllegalArgument(NullProject)) else Pass
      ensures r.Fail? || old(FirstEqual(Active(), oldProject)) == -1 ==> Active() == old(Active())
      ensures r.Pass? && old(FirstEqual(Active(), oldProject)) != -1 ==>
        Active() == old(Active())[old(FirstEqual(Active(), oldProject)) := newProject]
      ensures Done() == old(Done()) && totalProjects == old(totalProjects)
    {
      if oldProject == null || newProject == null {
        return Fail(IllegalArgument(NullProject));
      }
      var index := -1;
      var i := 0;
      while i < projects.Size()
        invariant 0 <= i <= |projects.Contents|
        invariant forall j :: 0 <= j < i ==> !projects.Contents[j].Equals(oldProject)
        invariant index == -1
        decreases |projects.Contents| - i
      {
        if projects.Get(i).value.Equals(oldProject) {
          index := i;
          break;
        }
        i := i + 1;
      }
      assert index == FirstEqual(Active(), oldProject);
      if index != -1 {
        var _ := projects.Set(index, Some(newProject));
      }
      r := Pass;
    }

    /** `deleteProject`: remove the first active project that equals
        `project`; say whether there was one. */
    method DeleteProject(project: Project?) returns (removed: bool)
      requires Valid()
      modifies Repr
      ensures Valid() && fresh(Repr - old(Repr))
      ensures removed <==> old(FirstEqual(Active(), project)) != -1
      ensures !removed ==> Active() == old(Active())
      ensures removed ==> Active() == Delete(old(Active()), old(FirstEqual(Active(), project)))
      ensures Done() == old(Done())
      ensures totalProjects == old(totalProjects) - (if removed then 1 else 0)
    {
      removed := false;
      var i := 0;
      while i < projects.Size()
        invariant 0 <= i <= |projects.Contents|
        invariant forall j :: 0 <= j < i ==> !projects.Contents[j].Equals(project)
        decreases |projects.Contents| - i
      {
        if projects.Get(i).value.Equals(project) {
          DropActive(i);
          removed := true;
          return;
        }
        i := i + 1;
      }
    }

    /** The body of the match in `deleteProject`: `projects.remove(i)` and
        one fewer project in total. */
    method DropActive(i: nat)
      requires Valid() && i < |Active()|
      modifies Repr
      ensures Valid() && fresh(Repr - old(Repr))
      ensures Active() == Delete(old(Active()), i)
      ensures Done() == old(Done()) && totalProjects == old(totalProjects) - 1
    {
      var _ := projects.RemoveAt(i);
      totalProjects := totalProjects - 1;
      Repr := {this} + projects.Repr + completedProjects.Repr;
    }

    /** `markProjectCompleted`: when `deleteProject(project)` finds a match,
        `project` itself is flagged completed and appended to the completed
        list; the total is unchanged either way. */
    method MarkProjectCompleted(project: Project?, today: int)
      requires Valid()
      modifies Repr, project
      ensures Valid() && fresh(Repr - old(Repr))
      ensures totalProjects == old(totalProjects)
      ensures old(FirstEqual(Active(), project)) == -1 ==>
        Active() == old(Active()) && Done() == old(Done()) && (project != null ==> unchanged(project))
      ensures old(FirstEqual(Active(), project)) != -1 ==>
        && project != null
        && Active() == Delete(old(Active()), old(FirstEqual(Active(), project)))
        && Done() == old(Done()) + [project]
        && project.completed && project.lastModified == today
        && project.Key() == old(project.Key()) && project.priority == old(project.priority)
        && project.timeEstimate == old(project.timeEstimate) && project.actualTime == old(project.actualTime)
    {
      if project != null {
        ProjectOutside(project);
      }
      var removed := DeleteProject(project);
      if removed {
        ProjectOutside(project);
        project.SetCompleted(true, today);
        AppendCompleted(project);
      }
    }

    /** No project belongs to the tracker's own representation, so changing
        a project never disturbs the containers. */
    lemma ProjectOutside(p: Project)
      requires Valid()
      ensures p !in Repr
    {
    }

    /** The rest of `markProjectCompleted` after a match:
        `completedProjects.add(project)` and one more project in total. */
    method AppendCompleted(project: Project)
      requires Valid()
      modifies Repr
      ensures Valid() && fresh(Repr - old(Repr))
      ensures Done() == old(Done()) + [project]
      ensures Active() == old(Active()) && totalProjects == old(totalProjects) + 1
    {
      var _ := completedProjects.Add(Some(project));
      totalProjects := totalProjects + 1;
      Repr := {this} + projects.Repr + completedProjects.Repr;
    }

    /** `sortProjects`: order the active projects by due date. */
    method SortProjects()
      requires Valid()
      modifies Repr
      ensures Valid() && fresh(Repr - old(Repr))
      ensures Active() == old(Sort(Active(), ByDueDate))
      ensures multiset(Active()) == multiset(old(Active()))
      ensures Done() == old(Done()) && totalProjects == old(totalProjects)
    {
      SortActive(ByDueDate);
    }

    /** `sortByPriority`: order the active projects HIGH, MEDIUM, LOW. */
    method SortByPriority()
      requires Valid()
      modifies Repr
      ensures Valid() && fresh(Repr - old(Repr))
      ensures Active() == old(Sort(Active(), ByPriority))
      ensures multiset(Active()) == multiset(old(Active()))
      ensures Done() == old(Done()) && totalProjects == old(totalProjects)
    {
      SortActive(ByPriority);
    }

    /** Both sorts: take a snapshot, sort it, and rebuild a fresh array
        from it one `add` at a time; the new array replaces the old one. */
    method SortActive(order: Order)
      requires Valid()
      modifies Repr
      ensures Valid() && fresh(Repr - old(Repr))
      ensures Active() == old(Sort(Active(), order))
      ensures multiset(Active()) == multiset(old(Active()))
      ensures Done() == old(Done()) && totalProjects == old(totalProjects)
    {
      var list := GetProjects();
      list := Sort(list, order);
      assert list == old(Sort(Active(), order));
      assert multiset(list) == multiset(old(Active()));
      var rebuilt := Rebuild(list);
      ReplaceActive(rebuilt);
    }

    /** `projects = rebuilt`, for an array that holds as many projects. */
    method ReplaceActive(rebuilt: DynamicArray<Project>)
      requires Valid() && rebuilt.Valid() && rebuilt.Repr !! Repr
      requires |rebuilt.Contents| == |Active()|
      modifies this
      ensures Valid() && Repr == {this} + rebuilt.Repr + old(completedProjects.Repr)
      ensures Active() == rebuilt.Contents
      ensures Done() == old(Done()) && totalProjects == old(totalProjects)
    {
      projects := rebuilt;
      Repr := {this} + projects.Repr + completedProjects.Repr;
    }

    /** `getProjects`: a copy of the active list. */
    method GetProjects() returns (list: seq<Project>)
      requires Valid()
      ensures list == Active()
    {
      list := [];
      for i := 0 to projects.Size()
        invariant list == projects.Contents[..i]
      {
        list := list + [projects.Get(i).value];
      }
      assert projects.Contents[..|projects.Contents|] == projects.Contents;
    }

    /** `getCompletedProjects`: a copy of the completed list. */
    method GetCompletedProjects() returns (list: seq<Project>)
      requires Valid()
      ensures list == Done()
    {
      list := [];
      for i := 0 to completedProjects.Size()
        invariant list == completedProjects.Contents[..i]
      {
        var element := completedProjects.Get(i);
        list := list + [element.value];
      }
      assert completedProjects.Contents[..|completedProjects.Contents|] == completedProjects.Contents;
    }

    /** `filterByPriority`. */
    method FilterByPriority(level: Priority) returns (r: seq<Project>)
      requires Valid()
      ensures r == Select(Active(), WithPriority(level))
      ensures forall p :: p in r <==> p in Active() && p.priority == level
    {
      var all := GetProjects();
      r := Select(all, WithPriority(level));
    }

    /** `getProjectsDueWithin`: due no later than `days` days after today. */
    method GetProjectsDueWithin(days: int, today: int) returns (r: seq<Project>)
      requires Valid()
      ensures r == Select(Active(), DueBy(today + days))
      ensures forall p :: p in r <==> p in Active() && p.dueDate <= today + days
    {
      var all := GetProjects();
      r := Select(all, DueBy(today + days));
    }

    /** `getOverdueProjects`. */
    method GetOverdueProjects(today: int) returns (r: seq<Project>)
      requires Valid()
      ensures r == Select(Active(), OverdueOn(today))
      ensures forall p :: p in r <==> p in Active() && !p.completed && p.dueDate < today
    {
      var all := GetProjects();
      r := Select(all, OverdueOn(today));
    }

    /** `searchByClassName`: a missing or blank term finds nothing; otherwise
        the projects whose lower-cased class name contains the lower-cased
        term. */
    method SearchByClassName(term: Option<string>) returns (r: seq<Project>)
      requires Valid()
      ensures term.None? || IsBlank(term.value) ==> r == []
      ensures term.Some? && !IsBlank(term.value) ==>
        r == Select(Active(), ClassNameHas(Lower(term.value)))
      ensures term.Some? && !IsBlank(term.value) ==>
        forall p :: p in r <==> p in Active() && Contains(Lower(p.className), Lower(term.value))
    {
      if term.None? || IsBlank(term.value) {
        return [];
      }
      var all := GetProjects();
      r := Select(all, ClassNameHas(Lower(term.value)));
    }

    /** `getTotalProjects`: active plus completed. */
    function TotalProjects(): (n: int)
      reads this, Repr
      requires Valid()
      ensures n == |Active()| + |Done()|
    {
      totalProjects
    }

    /** `getActiveProjectCount`. */
    function ActiveProjectCount(): (n: nat)
      reads this, Repr
      requires Valid()
      ensures n == |Active()|
    {
      projects.Size()
    }

    /** `getCompletedProjectCount`. */
    function CompletedProjectCount(): (n: nat)
      reads this, Repr
      requires Valid()
      ensures n == |Done()|
    {
      completedProjects.Size()
    }
  }
}
