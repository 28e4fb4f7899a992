# Quicksorts and greedy teacher scheduling of `10.py`, in Dafny

This project models the two pieces of decision logic in `10.py`.

- **The quicksorts** `deterministic_quick_sort` and `randomized_quick_sort`
  (module `QuickSort`, file `quicksort.dfy`). Both are pure recursive
  functions on `seq<int>`. Each one filters its input into the groups
  below, equal to and above a pivot, sorts the outer groups and
  concatenates. Their contracts state these facts:
  - the result is non-decreasing and has the input's multiset;
  - inputs of length at most one come back unchanged;
  - the recursion terminates because the middle group holds the pivot.

  The random pivot comes from a stream of draws, so every element of the
  current list can be chosen. On every stream the randomized sort returns
  what the deterministic sort returns, because a sorted permutation is
  unique.
- **The greedy scheduler** `create_schedule` and the `Teacher` class
  (module `Scheduler`, file `scheduler.dfy`). The model has two layers.
  - The reference definition is on values:
    - `BestUpTo` is the inner `for` loop over the teachers' profiles (age
      and capabilities);
    - `Plan` is the whole run, a list of rounds plus a verdict.
  - The `Teacher` class has a mutable `assignedSubjects` field.
    `SelectBest`, `AssignBest`, `AssignRounds` and `CreateSchedule` run the
    loops over the objects, write the fields in place and are proved
    against `Plan`.

  This is what is proved about the run:
  - every round picks the greedy choice: most subjects covered, then the
    youngest, then the first in the list;
  - each assignment is a non-empty subset of what that teacher can teach;
  - the assignments are pairwise disjoint;
  - a complete run covers exactly the requested subjects;
  - no teacher is picked twice;
  - the run fails exactly when some requested subject is in no teacher's
    capabilities;
  - teachers that are not picked keep their `assignedSubjects`.

  With no subjects, `Plan` is the empty complete run. `CreateSchedule`
  then returns the empty schedule and leaves every teacher as it was.

`wrappers.dfy` holds the `Option` type. It stands for Python's `None`
result.

Two facts about the code shape the scheduler model.

- A teacher is never selected twice. A selected teacher gets everything it
  can cover of the uncovered subjects, and those subjects leave the
  uncovered set (10.py:73, 85-86). So its intersection with what is left
  stays empty afterwards. `PlanPicksEachTeacherOnce` proves this.
- The schedule lists teachers only (10.py:87). Each teacher's subjects are
  in its `assigned_subjects` (10.py:85).

## Model

| member | source | states |
|---|---|---|
| QuickSort.Below | 10.py:13 | The left group holds only elements strictly below the pivot, each as often as in the input. |
| QuickSort.Equal | 10.py:14 | The middle group holds only copies of the pivot, as many as the input. |
| QuickSort.Above | 10.py:15 | The right group holds only elements strictly above the pivot, each as often as in the input. |
| QuickSort.PartitionIsPermutation | 10.py:13-15 | The three groups together have exactly the input's multiset. |
| QuickSort.PartitionShrinks | 10.py:12-15 | When the pivot is an element of the input, the middle group is non-empty and both outer groups are strictly shorter than the input. |
| QuickSort.JoinSorted | 10.py:16 | Sorted permutations of the outer groups, joined around the middle group, form a sorted permutation of the input. |
| QuickSort.DeterministicQuickSort | 10.py:9-16 | The result is non-decreasing with the input's multiset, and an input of length at most one is returned unchanged. |
| QuickSort.RandomizedQuickSort | 10.py:19-26 | For every stream of random draws, the result is non-decreasing with the input's multiset. An input of length at most one is returned unchanged and uses no draw. |
| QuickSort.SortedPermutationUnique | 10.py:16 | Two sorted sequences with the same multiset are equal. |
| QuickSort.RandomizedAgreesWithDeterministic | 10.py:22 | For every stream of draws, the randomized sort returns exactly the deterministic sort's result. |
| QuickSort.SortedInputUnchanged | 10.py:9-16 | A sorted input is returned unchanged. |
| QuickSort.SortIdempotent | 10.py:9-16 | Sorting a sorted result again changes nothing. |
| Scheduler.BestUpTo | 10.py:72-80 | A candidate held after scanning the first n teachers is one of them and covers at least one uncovered subject. |
| Scheduler.BestUpToNoneIff | 10.py:74-76 | No candidate is held exactly when no scanned teacher can cover an uncovered subject. |
| Scheduler.BestUpToIsGreedy | 10.py:76-80 | The held candidate covers the most uncovered subjects, is the youngest of those covering that many, and no earlier teacher ties it on both count and age. |
| Scheduler.BestUpToIffGreedy | 10.py:72-80 | The scan holds teacher k exactly when k is the greedy choice, so the strict replacement rule has only one possible winner. |
| Scheduler.CoveredIsUnion | 10.py:85-87 | A subject is covered by the rounds exactly when some round assigns it. |
| Scheduler.Plan | 10.py:68-87 | Every round names a teacher in the list, and there are at most as many rounds as subjects, because each round removes at least one. |
| Scheduler.PlanAssignmentsValid | 10.py:73-85 | Every assigned set is non-empty, within the chosen teacher's capabilities and within the requested subjects. |
| Scheduler.PlanDisjoint | 10.py:85-86 | The assigned sets of any two rounds are disjoint. |
| Scheduler.PlanCovers | 10.py:85-89 | The rounds cover only requested subjects, and a complete run covers all of them. |
| Scheduler.FirstPickSpent | 10.py:85-86 | After a teacher is picked, no later round picks a teacher with the same profile, because nothing it can cover stays uncovered. |
| Scheduler.PlanPicksEachTeacherOnce | 10.py:85-87 | No two rounds pick teachers with the same profile, and so no two rounds pick the same teacher. |
| Scheduler.PlanPicksDistinctTeachers | 10.py:87 | The teacher objects a run selects are pairwise distinct. |
| Scheduler.PlanRoundsAreGreedy | 10.py:68-86 | Each round picks the greedy choice for the subjects the earlier rounds left uncovered, and assigns that teacher all it can cover of them. |
| Scheduler.PlanStopsOnlyWhenStuck | 10.py:68-83 | An incomplete run stops with subjects still uncovered that no teacher can cover. |
| Scheduler.PlanFailsIffUncoverable | 10.py:82-89 | The run fails exactly when some requested subject is in no teacher's capabilities. |
| Scheduler.TraceExtends | 10.py:69-87 | One pass extends the loop's trace by the greedy choice on what is left. That choice covers a non-empty subset of the uncovered subjects, and no earlier pick shares its profile. |
| Scheduler.TraceShrinks | 10.py:86 | The uncovered set never gains subjects. |
| Scheduler.TraceEnds | 10.py:68-89 | When the loop stops, its trace is the whole run, complete exactly when nothing is left uncovered. |
| Scheduler.Teacher.constructor | 10.py:55-61 | A new teacher has the given age and capabilities and no assigned subjects. |
| Scheduler.Profiles | 10.py:58-60 | Lists each teacher's age and capabilities in list order. |
| Scheduler.TeachersOf | 10.py:87 | Lists the teacher of each round in round order. |
| Scheduler.SelectBest | 10.py:69-80 | The inner loop ends holding the same teacher as the reference scan, with its intersection with the uncovered subjects. It holds no teacher exactly when every intersection is empty. |
| Scheduler.AssignBest | 10.py:69-86 | One pass either finds no teacher and writes nothing, or writes the chosen teacher's coverage to its `assignedSubjects` and extends the trace. The chosen teacher is none picked before, and no other teacher changes. |
| Scheduler.AssignRounds | 10.py:65-87 | The loop ends with everything covered or nothing coverable. Its trace, its chosen teachers and their assignments agree, and teachers not chosen are untouched. |
| Scheduler.PlanGuarantees | 10.py:64-89 | A run's assignments are non-empty, within the teacher's capabilities and the requested subjects, and pairwise disjoint. A complete run's assignments union to exactly the requested subjects, and the run fails exactly when some requested subject is in no teacher's capabilities. |
| Scheduler.AssignedIsCovered | 10.py:85-87 | Teachers holding the subjects of the rounds, in order, together hold exactly what the rounds cover. |
| Scheduler.PickedGuarantees | 10.py:85-89 | The guarantees of a run carry over to the teacher objects that hold its rounds' subjects: valid and disjoint `assignedSubjects`, whose union is every requested subject when the run is complete. The run fails exactly when some requested subject is in no teacher's capabilities. |
| Scheduler.CreateSchedule | 10.py:64-89 | Returns a schedule exactly when the reference run is complete, and that schedule is the run's teachers in order. Each picked teacher holds its round's subjects: a non-empty subset of its capabilities and of the subjects, disjoint from the others. A returned schedule's assignments union to exactly the subjects. The result is None exactly when some subject is in no teacher's capabilities. No teacher is picked twice, and no other teacher's `assignedSubjects` changes. |

## Left out

- The benchmark driver `benchmark_sorting_algorithms` (10.py:29-49) is not part of this model. It is wall-clock timing, random test arrays and float averaging.
- The plotting, table printing and top-level script code (10.py:92 onwards) are not part of this model. They are presentation and I/O.
- QuickSort.RandomizedQuickSort: the random source is not modelled. It is an arbitrary stream of draws, and each draw selects the element at index draw modulo the length, so every element can be the pivot. The uniform distribution is not modelled.
- QuickSort: elements are integers, which are totally ordered. The sorted-permutation results need a total order. Python's sorts also run on values that compare without error but are not totally ordered, and then they do not sort. For example, with a float NaN as pivot all three filters (10.py:13-15) come out empty, so elements are dropped. Values that cannot be compared raise an error. Neither case is modelled.
- QuickSort: sequences are values, so the model does not capture aliasing. For length at most one both sorts return the caller's own list object (10.py:10-11, 20-21); longer inputs get a fresh list.
- Scheduler.Teacher: the fields `first_name`, `last_name` and `email` are left out, because no decision reads them. `age` and `canTeach` are constants, because nothing in the code writes them after construction. So they stay unchanged by construction.
- Scheduler.CreateSchedule: `subjects` is a set. Python accepts any iterable and turns it into a set first, so duplicates play no part either way.
- Scheduler.CreateSchedule: the test `not best_teacher` is an `Option` test. A `Teacher` object is always truthy in Python, so the two agree.
- Scheduler.CreateSchedule: the early `return None` inside the loop is a `break` out of `AssignRounds`, and the verdict is then taken from the uncovered set. The outcome is the same.
- Scheduler.CreateSchedule: `picked` is a ghost result. On failure Python returns only `None`, but the teachers picked before the stop have still been written. `picked` names them so that the contract can state those writes.
- Scheduler.CreateSchedule: the contract does not state that the Python assignment shares one set object between `best_coverage` and `assigned_subjects`. Sets are values in the model.
