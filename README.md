# ProjectTracker in Dafny

A verified model of the core of ProjectTracker, a small Java application for
students. It keeps their class projects in two hand-written containers.

- **`DynamicArray<T>`**: a growable array. It starts with 10 slots. A full
  buffer grows to `max(c + 1, 2c)` slots. When a removal leaves some elements
  but fewer than a quarter of the capacity `c`, the buffer is reallocated with
  `max(10, c / 2)` slots. That is smaller exactly when `c` is above 10; a
  capacity of 10 stays 10, and a capacity of 5 to 9 goes up to 10. Null
  elements and out-of-range indices are refused with an exception.
- **`LinkedList<T>`**: a doubly linked list with `head`, `tail` and a `size`
  counter. `getNode` walks from whichever end is nearer.
- **`Project`**: one project. It holds a class name, a due date, a
  description, a completion flag, a priority (HIGH, MEDIUM or LOW), two time
  fields of digits, and a last-modified date. Its setters validate their
  input. Equality compares the class name, the due date and the description.
- **`ProjectTracker`**: active projects live in a `DynamicArray`, completed
  ones in a `LinkedList`. A `totalProjects` counter tracks both. The tracker
  adds, updates, deletes and completes projects. It sorts the active list by
  due date or priority, and filters it by priority, due date, overdue status
  or a class-name search.

The Dafny modules follow that structure:

- `Wrappers`: `Option`, `Result`, `Outcome`, and the exceptions as an `Error`
  datatype.
- `Seqs`: insertion, deletion and first-index on sequences. The containers
  are specified by them.
- `Text`: the `String` operations the code relies on.
- `DynamicArrays`, `LinkedLists`, `Projects` and `Trackers`.

Each container is a class. It holds its Java fields and a ghost `Contents`
sequence, and its `Valid()` invariant ties the two together:

- **`DynamicArray`**: the first `size` slots of an `array<Option<T>>` hold
  `Contents`. Every later slot is `None`, standing for Java's null.
- **`LinkedList`**: a ghost `Nodes` sequence lists the nodes in order. Every
  `prev`/`next` link, `head` and `tail` agree with it.

Each method is proved against these sequences, for example
`Contents == Insert(old(Contents), index, x)`.

How the model represents the Java:

- Exceptions are `Fail`/`Err` results, and their check order is kept.
- A Java null argument is `None`, or `null` for a `Project?`.
- Dates are day numbers. "Now" is a `today` parameter.
- A due-date string arrives already parsed: `None` stands for text that the
  `MM/dd/yyyy` format rejects.

## Model

| member | source | states |
|---|---|---|
| DynamicArrays.GrownCapacity | ProjectTracker/src/ProjectTracker/DynamicArray.java:51-53 | a full buffer always grows: the new capacity exceeds the old and is at least double it |
| DynamicArrays.ShouldShrink | ProjectTracker/src/ProjectTracker/DynamicArray.java:94 | a removal reallocates exactly when it leaves some elements and fewer than a quarter of the capacity; then the buffer still has room to spare and a capacity of at least 5 |
| DynamicArrays.ShrunkCapacity | ProjectTracker/src/ProjectTracker/DynamicArray.java:94-96 | a shrink never goes below INITIAL_CAPACITY (10) |
| DynamicArrays.ShrinkKeepsRoom | ProjectTracker/src/ProjectTracker/DynamicArray.java:93-96 | when the shrink condition holds, the shrunk buffer still holds the remaining elements twice over, and it is smaller than the old buffer exactly when the old capacity was above 10 |
| DynamicArrays.DynamicArray.constructor | ProjectTracker/src/ProjectTracker/DynamicArray.java:21-25 | a new array is empty with capacity 10 |
| DynamicArrays.DynamicArray.Sized | ProjectTracker/src/ProjectTracker/DynamicArray.java:33-40 | an empty array with exactly the requested capacity |
| DynamicArrays.DynamicArray.WithCapacity | ProjectTracker/src/ProjectTracker/DynamicArray.java:33-40 | fails with IllegalArgument exactly when the capacity is negative; otherwise an empty array of that capacity |
| DynamicArrays.DynamicArray.Resize | ProjectTracker/src/ProjectTracker/DynamicArray.java:188-193 | a fresh buffer of the new capacity holding the same elements in the same order |
| DynamicArrays.DynamicArray.Add | ProjectTracker/src/ProjectTracker/DynamicArray.java:47-55 | null is refused and changes nothing; otherwise the element is appended, and the capacity grows exactly when the buffer was full |
| DynamicArrays.DynamicArray.AddAt | ProjectTracker/src/ProjectTracker/DynamicArray.java:64-77 | the index is checked before null; on success the element lands at `index` with everything after it shifted up; on failure nothing changes |
| DynamicArrays.DynamicArray.ShiftUp | ProjectTracker/src/ProjectTracker/DynamicArray.java:74 | the elements from `index` on each move one slot up; those before stay, free slots stay empty |
| DynamicArrays.DynamicArray.RemoveAt | ProjectTracker/src/ProjectTracker/DynamicArray.java:85-98 | out of range fails and changes nothing; otherwise returns the element at `index`, removes exactly that position, and shrinks exactly when the shrink condition holds |
| DynamicArrays.DynamicArray.ShiftDown | ProjectTracker/src/ProjectTracker/DynamicArray.java:90 | the elements after `index` each move one slot down over it |
| DynamicArrays.DynamicArray.Remove | ProjectTracker/src/ProjectTracker/DynamicArray.java:105-113 | true exactly when the element is present; then its first occurrence, and only that, is removed |
| DynamicArrays.DynamicArray.Get | ProjectTracker/src/ProjectTracker/DynamicArray.java:121-126 | the element at `index` when in range, otherwise IndexOutOfBounds with the index and size |
| DynamicArrays.DynamicArray.Set | ProjectTracker/src/ProjectTracker/DynamicArray.java:135-143 | the index is checked before null; on success only position `index` changes; size and capacity never change |
| DynamicArrays.DynamicArray.Clear | ProjectTracker/src/ProjectTracker/DynamicArray.java:149-153 | empty, with a fresh buffer of capacity 10 |
| DynamicArrays.DynamicArray.Contains | ProjectTracker/src/ProjectTracker/DynamicArray.java:160-167 | true exactly when the element is among the contents |
| DynamicArrays.DynamicArray.IndexOf | ProjectTracker/src/ProjectTracker/DynamicArray.java:174-181 | the first position holding the element, or -1 exactly when it is absent |
| DynamicArrays.DynamicArray.Size | ProjectTracker/src/ProjectTracker/DynamicArray.java:199-201 | the number of elements |
| DynamicArrays.DynamicArray.Capacity | ProjectTracker/src/ProjectTracker/DynamicArray.java:207-209 | the buffer length, never below the size |
| DynamicArrays.DynamicArray.IsEmpty | ProjectTracker/src/ProjectTracker/DynamicArray.java:215-217 | true exactly when there are no elements |
| DynamicArrays.DynamicArray.TrimToSize | ProjectTracker/src/ProjectTracker/DynamicArray.java:222-226 | the capacity becomes the size and the elements stay |
| Seqs.DeleteInsert | ProjectTracker/src/ProjectTracker/DynamicArray.java:64-98 | removing at `i` right after inserting at `i` gives back the original list (both containers are specified by these two operations) |
| Seqs.DeleteMultiset | ProjectTracker/src/ProjectTracker/LinkedList.java:101-123 | a removal by index drops exactly one copy of the element held there |
| Seqs.FirstIndex | ProjectTracker/src/ProjectTracker/LinkedList.java:224-235 | -1 exactly when absent; otherwise a position holding the element with no earlier occurrence |
| LinkedLists.Node.constructor | ProjectTracker/src/ProjectTracker/LinkedList.java:23-27 | a detached node holding the element |
| LinkedLists.LinkedList.constructor | ProjectTracker/src/ProjectTracker/LinkedList.java:33-37 | an empty list with null head and tail |
| LinkedLists.LinkedList.Traversals | ProjectTracker/src/ProjectTracker/LinkedList.java:18-28 | in a valid list, following `next` from the head meets `size` nodes and then null, and following `prev` from the tail meets the same nodes in reverse |
| LinkedLists.LinkedList.Add | ProjectTracker/src/ProjectTracker/LinkedList.java:44-58 | null is refused and changes nothing; otherwise the element is appended |
| LinkedLists.LinkedList.LinkLast | ProjectTracker/src/ProjectTracker/LinkedList.java:53-55 | the new node becomes the tail after the old tail; the list invariant holds |
| LinkedLists.LinkedList.AddAt | ProjectTracker/src/ProjectTracker/LinkedList.java:67-93 | the index is checked before null; on success the element lands at `index`; on failure nothing changes |
| LinkedLists.LinkedList.LinkFirst | ProjectTracker/src/ProjectTracker/LinkedList.java:81-84 | the new node becomes the head in front of the old head |
| LinkedLists.LinkedList.LinkBefore | ProjectTracker/src/ProjectTracker/LinkedList.java:86-90 | the new node goes between node `i - 1` and node `i` |
| LinkedLists.LinkedList.Splice | ProjectTracker/src/ProjectTracker/LinkedList.java:89-90 | redirecting the two neighbours' links to the new node inserts it at position `i` |
| LinkedLists.LinkedList.RemoveAt | ProjectTracker/src/ProjectTracker/LinkedList.java:101-123 | out of range fails and changes nothing; otherwise returns the element at `index` and removes exactly that position; an emptied list has null head and tail |
| LinkedLists.LinkedList.UnlinkHead | ProjectTracker/src/ProjectTracker/LinkedList.java:111-113 | the first node is removed and its successor becomes the head |
| LinkedLists.LinkedList.UnlinkTail | ProjectTracker/src/ProjectTracker/LinkedList.java:114-116 | the last node is removed and its predecessor becomes the tail |
| LinkedLists.LinkedList.UnlinkMiddle | ProjectTracker/src/ProjectTracker/LinkedList.java:117-119 | joining the two neighbours of an inner node removes exactly that node |
| LinkedLists.LinkedList.Remove | ProjectTracker/src/ProjectTracker/LinkedList.java:130-151 | true exactly when the element is present; then its first occurrence, and only that, is unlinked; otherwise nothing changes |
| LinkedLists.LinkedList.Get | ProjectTracker/src/ProjectTracker/LinkedList.java:159-161 | the element at `index` when in range, otherwise IndexOutOfBounds |
| LinkedLists.LinkedList.Set | ProjectTracker/src/ProjectTracker/LinkedList.java:170-175 | null is checked before the index (the opposite order to the array); on success only position `index` changes |
| LinkedLists.LinkedList.GetNode | ProjectTracker/src/ProjectTracker/LinkedList.java:183-201 | node `index` when in range, otherwise IndexOutOfBounds; the walk starts from the nearer end and follows at most half the list's links |
| LinkedLists.LinkedList.Contains | ProjectTracker/src/ProjectTracker/LinkedList.java:208-217 | true exactly when the element is among the contents |
| LinkedLists.LinkedList.IndexOf | ProjectTracker/src/ProjectTracker/LinkedList.java:224-235 | the first position holding the element, or -1 exactly when it is absent |
| LinkedLists.LinkedList.Clear | ProjectTracker/src/ProjectTracker/LinkedList.java:240-244 | empty, with null head and tail |
| LinkedLists.LinkedList.Size | ProjectTracker/src/ProjectTracker/LinkedList.java:250-252 | the number of elements |
| LinkedLists.LinkedList.IsEmpty | ProjectTracker/src/ProjectTracker/LinkedList.java:258-260 | true exactly when there are no elements |
| LinkedLists.LinkedList.GetFirst | ProjectTracker/src/ProjectTracker/LinkedList.java:267-272 | IllegalState on an empty list, otherwise the first element |
| LinkedLists.LinkedList.GetLast | ProjectTracker/src/ProjectTracker/LinkedList.java:279-284 | IllegalState on an empty list, otherwise the last element |
| Text.IsDigits | ProjectTracker/src/ProjectTracker/Project.java:133 | `matches("\\d+")`: at least one character, every one an ASCII digit; such a string is non-empty and has no character `<= ' '` at either end |
| Text.Trim | ProjectTracker/src/ProjectTracker/Project.java:52 | the result is an infix of the input, everything removed before and after it is `<= ' '`, and it has no character `<= ' '` at either end |
| Text.TrimEmptyIffBlank | ProjectTracker/src/ProjectTracker/Project.java:52 | `trim().isEmpty()` holds exactly when every character is `<= ' '`, which is `Text.IsBlank`; every `trim().isEmpty()` test of the model goes through `IsBlank` |
| Text.Lower | ProjectTracker/src/ProjectTracker/ProjectTracker.java:191-192 | same length, each character lower-cased |
| Text.LowerIdempotent | ProjectTracker/src/ProjectTracker/ProjectTracker.java:191-192 | lower-casing twice is lower-casing once |
| Text.Contains | ProjectTracker/src/ProjectTracker/ProjectTracker.java:191-192 | `String.contains` as the class-name search uses it: an empty term is always contained, and a contained term is no longer than the string; its full meaning is `Text.ContainsIffOccurs` |
| Text.ContainsIffOccurs | ProjectTracker/src/ProjectTracker/ProjectTracker.java:191-192 | `contains` holds exactly when the term occurs at some position |
| Projects.Priority.Ordinal | ProjectTracker/src/ProjectTracker/Project.java:24-26 | HIGH, MEDIUM and LOW are 0, 1 and 2, the order `compareTo` uses |
| Projects.ValidateInputs | ProjectTracker/src/ProjectTracker/Project.java:51-66 | passes exactly when both names are non-blank and the date parses and is not before today; a blank class name is reported first, then a blank description, a bad format, a past date |
| Projects.Project.constructor | ProjectTracker/src/ProjectTracker/Project.java:37-44 | the given key, pending, MEDIUM priority, both times "0", modified today |
| Projects.Project.Create | ProjectTracker/src/ProjectTracker/Project.java:35-45 | fails exactly when validation fails, with its error; otherwise a fresh valid project with the given key and the default fields |
| Projects.Project.SetClassName | ProjectTracker/src/ProjectTracker/Project.java:73-79 | a blank or missing name is refused and changes nothing; otherwise only the name and last-modified change |
| Projects.Project.SetDueDate | ProjectTracker/src/ProjectTracker/Project.java:85-96 | an unparseable date, then a past date, is refused and changes nothing; otherwise only the date and last-modified change |
| Projects.Project.SetDescription | ProjectTracker/src/ProjectTracker/Project.java:102-108 | a blank or missing description is refused and changes nothing; otherwise only it and last-modified change |
| Projects.Project.SetCompleted | ProjectTracker/src/ProjectTracker/Project.java:114-117 | sets the flag and last-modified; the key, priority and times stay |
| Projects.Project.SetPriority | ProjectTracker/src/ProjectTracker/Project.java:123-126 | sets the priority and last-modified; the key, flag and times stay |
| Projects.Project.SetTimeEstimate | ProjectTracker/src/ProjectTracker/Project.java:132-138 | anything but one or more digits is refused and changes nothing; otherwise only the estimate and last-modified change |
| Projects.Project.SetActualTime | ProjectTracker/src/ProjectTracker/Project.java:144-150 | anything but one or more digits is refused and changes nothing; otherwise only the actual time and last-modified change |
| Projects.Project.IsOverdue | ProjectTracker/src/ProjectTracker/Project.java:172-174 | overdue exactly when not completed and today is after the due date; a completed project is never overdue, nor is any project on or before its due day |
| Projects.Project.Status | ProjectTracker/src/ProjectTracker/Project.java:182 | "Completed" exactly when completed, "OVERDUE" exactly when overdue, "Pending" exactly when open and not past due |
| Projects.Project.Equals | ProjectTracker/src/ProjectTracker/Project.java:189-196 | true exactly when the other project is non-null with the same class name, due date and description |
| Projects.OverdueStays | ProjectTracker/src/ProjectTracker/Project.java:172-174 | an overdue project stays overdue on every later day while it is open |
| Projects.EqualsIsEquivalence | ProjectTracker/src/ProjectTracker/Project.java:189-196 | `equals` is reflexive, symmetric and transitive |
| Projects.EqualsNull | ProjectTracker/src/ProjectTracker/Project.java:191 | no project equals null |
| Trackers.Matches | ProjectTracker/src/ProjectTracker/ProjectTracker.java:155-192 | the four stream tests: equal priority; due date not after the cutoff; overdue; lower-cased class name contains the lower-cased term; an empty search term matches every project and an overdue match is never completed |
| Trackers.Select | ProjectTracker/src/ProjectTracker/ProjectTracker.java:154-156 | every result is an input project that passes the test, and every passing input project is in the result |
| Trackers.SelectAppend | ProjectTracker/src/ProjectTracker/ProjectTracker.java:154-156 | filtering keeps list order: filtering a concatenation concatenates the filtered parts |
| Trackers.SelectCounts | ProjectTracker/src/ProjectTracker/ProjectTracker.java:154-156 | a passing project keeps all its copies, a failing one keeps none |
| Trackers.SelectAll | ProjectTracker/src/ProjectTracker/ProjectTracker.java:154-156 | when every project passes, the filter returns the list unchanged |
| Trackers.InsertSorted | ProjectTracker/src/ProjectTracker/ProjectTracker.java:100-101 | inserting into a sorted list gives a sorted list with exactly one more copy of the project |
| Trackers.SortKey | ProjectTracker/src/ProjectTracker/ProjectTracker.java:100-116 | the key each comparator compares: the due day for the due-date sort; for the priority sort the ordinal, 0 for HIGH and 2 for LOW, within 0 to 2 |
| Trackers.SortKeyOrder | ProjectTracker/src/ProjectTracker/ProjectTracker.java:100-116 | keys order projects as the comparators do: an earlier due day first, as `LocalDate.compareTo` does, and HIGH before MEDIUM before LOW, as `Enum.compareTo` does |
| Trackers.Sort | ProjectTracker/src/ProjectTracker/ProjectTracker.java:99-101 | sorted by the comparator's key and a permutation of the input |
| Trackers.InsertSortedStable | ProjectTracker/src/ProjectTracker/ProjectTracker.java:100-101 | the inserted project goes ahead of every project with an equal key |
| Trackers.SortStable | ProjectTracker/src/ProjectTracker/ProjectTracker.java:100-101 | like `Collections.sort`, the sort is stable: projects with equal keys keep their relative order |
| Trackers.FirstEqual | ProjectTracker/src/ProjectTracker/ProjectTracker.java:53-58 | -1 exactly when no project equals the target; otherwise a project equal to it with no earlier one |
| Trackers.Rebuild | ProjectTracker/src/ProjectTracker/ProjectTracker.java:104-107 | a fresh array holding exactly the given list |
| Trackers.ProjectTracker.constructor | ProjectTracker/src/ProjectTracker/ProjectTracker.java:22-26 | no active, no completed projects, total 0 |
| Trackers.ProjectTracker.AddProject | ProjectTracker/src/ProjectTracker/ProjectTracker.java:33-39 | null is refused and changes nothing; otherwise the project joins the end of the active list and the total grows by one |
| Trackers.ProjectTracker.UpdateProject | ProjectTracker/src/ProjectTracker/ProjectTracker.java:47-63 | either argument null is refused; the first active project equal to the old one is replaced in place; with no match nothing changes |
| Trackers.ProjectTracker.DeleteProject | ProjectTracker/src/ProjectTracker/ProjectTracker.java:70-81 | true exactly when some active project equals the argument; then the first such project, and only it, is removed and the total drops by one |
| Trackers.ProjectTracker.DropActive | ProjectTracker/src/ProjectTracker/ProjectTracker.java:74-75 | removes active position `i` and one from the total |
| Trackers.ProjectTracker.MarkProjectCompleted | ProjectTracker/src/ProjectTracker/ProjectTracker.java:87-93 | on a match the first equal active project is removed, the argument itself is flagged completed and appended to the completed list; the total never changes; without a match nothing changes |
| Trackers.ProjectTracker.AppendCompleted | ProjectTracker/src/ProjectTracker/ProjectTracker.java:90-91 | the project joins the end of the completed list and the total grows by one |
| Trackers.ProjectTracker.SortProjects | ProjectTracker/src/ProjectTracker/ProjectTracker.java:98-108 | the active list becomes `Sort` of the old one by due date (a sorted, stable permutation); completed list and total unchanged |
| Trackers.ProjectTracker.SortByPriority | ProjectTracker/src/ProjectTracker/ProjectTracker.java:113-122 | the active list becomes `Sort` of the old one by priority (a sorted, stable permutation); completed list and total unchanged |
| Trackers.ProjectTracker.SortActive | ProjectTracker/src/ProjectTracker/ProjectTracker.java:99-107 | snapshot, sort and rebuild: the active list is replaced by its sorted permutation |
| Trackers.ProjectTracker.ReplaceActive | ProjectTracker/src/ProjectTracker/ProjectTracker.java:104 | a rebuilt array replaces the active list; completed list and total stay |
| Trackers.ProjectTracker.GetProjects | ProjectTracker/src/ProjectTracker/ProjectTracker.java:128-134 | a copy of the active list, in order |
| Trackers.ProjectTracker.GetCompletedProjects | ProjectTracker/src/ProjectTracker/ProjectTracker.java:140-146 | a copy of the completed list, in order |
| Trackers.ProjectTracker.FilterByPriority | ProjectTracker/src/ProjectTracker/ProjectTracker.java:153-157 | the active projects of that priority, in list order; a project is in the result exactly when it is active with that priority |
| Trackers.ProjectTracker.GetProjectsDueWithin | ProjectTracker/src/ProjectTracker/ProjectTracker.java:164-169 | the active projects due no later than today plus `days`, in list order |
| Trackers.ProjectTracker.GetOverdueProjects | ProjectTracker/src/ProjectTracker/ProjectTracker.java:175-179 | the active projects that are open and past due, in list order |
| Trackers.ProjectTracker.SearchByClassName | ProjectTracker/src/ProjectTracker/ProjectTracker.java:186-194 | a missing or blank term finds nothing; otherwise the active projects whose lower-cased class name contains the lower-cased term |
| Trackers.ProjectTracker.TotalProjects | ProjectTracker/src/ProjectTracker/ProjectTracker.java:200-202 | the counter always equals active plus completed projects |
| Trackers.ProjectTracker.ActiveProjectCount | ProjectTracker/src/ProjectTracker/ProjectTracker.java:208-210 | the number of active projects |
| Trackers.ProjectTracker.CompletedProjectCount | ProjectTracker/src/ProjectTracker/ProjectTracker.java:216-218 | the number of completed projects |

## Left out

- ProjectTrackerGUI.java and the JUnit tests are not part of this model.
- The clock (`LocalDate.now()`) is a `today` parameter.
- Date parsing and formatting with `MM/dd/yyyy` are outside the model. A date is a day number, and unparseable text is `None`.
- `getDaysRemaining`, `hashCode`, `toString`'s layout and the plain getters are not modelled. `toString`'s status word is modelled by `Status`.
- Growth and shrink factors are `double` constants in the source. They are modelled as the exact integer arithmetic they produce for non-negative `int` capacities.
- 32-bit `int` overflow is not modelled. This covers a capacity doubled past `Integer.MAX_VALUE`.
- Projects.Project.SetTimeEstimate: a null string makes the source throw before any check. The model takes a non-null string.
- Projects.Project.SetActualTime: a null string makes the source throw before any check. The model takes a non-null string.
- Projects.Project.Create: a null date string makes `LocalDate.parse` throw on null. `None` here stands only for text that does not parse.
- Projects.Project.SetDueDate: a null date string makes `LocalDate.parse` throw on null. `None` here stands only for text that does not parse.
- Projects.Project.SetPriority: a null priority is accepted by the source and would make a later priority sort throw. The model's `Priority` cannot be null.
- Text: a Dafny `char` is a Unicode scalar value, not a UTF-16 code unit. A supplementary character is one element here but two in a Java string, and a lone surrogate cannot be represented. Trimming at U+0020, ASCII digits, ASCII lower-casing and substring search agree on well-formed text.
- Text.Lower: `String.toLowerCase` is locale- and Unicode-aware. The model lower-cases ASCII letters only.
- DynamicArrays.DynamicArray.Contains, IndexOf and Remove, and LinkedLists.LinkedList.Contains, IndexOf and Remove, take a non-null element. In the source a null argument never matches, so they return false, -1 and false.
- DynamicArrays.DynamicArray.Contains, IndexOf and Remove, and the LinkedList methods of the same names, compare elements with Dafny equality rather than a generic `equals`. The tracker never uses these lookups; it scans with `Projects.Project.Equals` itself, as the source does.
- `Collections.sort` is a library merge sort. It is modelled by a verified insertion sort. Both are stable, so both give the same order; `Trackers.SortStable` proves the model's side.
- Trackers.ProjectTracker.SortActive: the source assigns a new empty array to `projects` and then adds to it. The model fills the new array first and then assigns it, which gives the same final state.
- Trackers.ProjectTracker.SortProjects: the ensures states that the new list equals `Sort` of the old list, evaluated on the state before the call. Sortedness and stability then come from `Sort`'s own contract and `SortStable`. The sort changes no project, so this ordering holds afterwards too, but the ensures does not restate it for the new state.
- Trackers.ProjectTracker.SortByPriority: the same as `SortProjects`; sortedness comes from `Sort` evaluated on the state before the call.
