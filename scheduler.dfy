/**
 * The greedy scheduler of `10.py`: teachers are picked one round at a time,
 * each round the one that covers the most still-uncovered subjects (the
 * younger on equal coverage, the earlier in the list on equal coverage and
 * age), until every subject is covered or no teacher can cover any of the rest.
 *
 * The first part is a value-level reference definition: `BestUpTo` is the
 * selection of one round, `Plan` the whole run. The second part is the
 * `Teacher` class and the methods that run the loops on the objects, proved
 * against that definition.
 */
module Scheduler {
  import opened Wrappers

  /** Subjects are compared by equality only. */
  type Subject = string

  /** What the scheduler reads of a teacher. */
  datatype Profile = Profile(age: int, canTeach: set<Subject>)

  /** `teacher.can_teach_subjects & uncovered_subjects` */
  function Available(p: Profile, uncovered: set<Subject>): set<Subject>
  {
    p.canTeach * uncovered
  }

  /** The strict replacement rule: larger coverage, or equal coverage and strictly younger. */
  predicate Outranks(candidate: Profile, best: Profile, uncovered: set<Subject>)
  {
    |Available(candidate, uncovered)| > |Available(best, uncovered)| ||
    (|Available(candidate, uncovered)| == |Available(best, uncovered)| && candidate.age < best.age)
  }

  /**
   * The candidate the inner loop holds after scanning the first `n` teachers:
   * None while no scanned teacher can cover an uncovered subject.
   */
  function BestUpTo(ps: seq<Profile>, uncovered: set<Subject>, n: nat): (r: Option<nat>)
    requires n <= |ps|
    ensures r.Some? ==> r.value < n && Available(ps[r.value], uncovered) != {}
  {
    if n == 0 then None
    else
      var previous := BestUpTo(ps, uncovered, n - 1);
      if Available(ps[n - 1], uncovered) == {} then previous
      else if previous.None? || Outranks(ps[n - 1], ps[previous.value], uncovered) then Some(n - 1)
      else previous
  }

  /** The inner loop finds no candidate exactly when no scanned teacher can cover anything. */
  lemma {:induction false} BestUpToNoneIff(ps: seq<Profile>, uncovered: set<Subject>, n: nat)
    requires n <= |ps|
    ensures BestUpTo(ps, uncovered, n).None? <==> forall j :: 0 <= j < n ==> Available(ps[j], uncovered) == {}
  {
    if n > 0 {
      BestUpToNoneIff(ps, uncovered, n - 1);
    }
  }

  /**
   * Independent statement of the choice: among the first `n` teachers, `k`
   * covers something, covers the most, is the youngest of those that cover
   * the most, and no earlier teacher covers as much at the same age.
   */
  ghost predicate IsGreedyChoice(ps: seq<Profile>, uncovered: set<Subject>, n: nat, k: nat)
    requires n <= |ps|
  {
    k < n && Available(ps[k], uncovered) != {} &&
    (forall j :: 0 <= j < n ==> |Available(ps[j], uncovered)| <= |Available(ps[k], uncovered)|) &&
    (forall j :: 0 <= j < n && |Available(ps[j], uncovered)| == |Available(ps[k], uncovered)| ==> ps[k].age <= ps[j].age) &&
    (forall j :: 0 <= j < k ==> !(|Available(ps[j], uncovered)| == |Available(ps[k], uncovered)| && ps[j].age == ps[k].age))
  }

  lemma {:induction false} BestUpToIsGreedy(ps: seq<Profile>, uncovered: set<Subject>, n: nat)
    requires n <= |ps|
    ensures BestUpTo(ps, uncovered, n).Some? ==> IsGreedyChoice(ps, uncovered, n, BestUpTo(ps, uncovered, n).value)
  {
    if n > 0 {
      BestUpToIsGreedy(ps, uncovered, n - 1);
      BestUpToNoneIff(ps, uncovered, n - 1);
    }
  }

  lemma GreedyChoiceUnique(ps: seq<Profile>, uncovered: set<Subject>, n: nat, k1: nat, k2: nat)
    requires n <= |ps|
    requires IsGreedyChoice(ps, uncovered, n, k1) && IsGreedyChoice(ps, uncovered, n, k2)
    ensures k1 == k2
  {
  }

  /** The inner loop picks `k` exactly when `k` is the greedy choice. */
  lemma {:induction false} BestUpToIffGreedy(ps: seq<Profile>, uncovered: set<Subject>, n: nat, k: nat)
    requires n <= |ps|
    ensures BestUpTo(ps, uncovered, n) == Some(k) <==> IsGreedyChoice(ps, uncovered, n, k)
  {
    BestUpToIsGreedy(ps, uncovered, n);
    BestUpToNoneIff(ps, uncovered, n);
    if IsGreedyChoice(ps, uncovered, n, k) {
      GreedyChoiceUnique(ps, uncovered, n, k, BestUpTo(ps, uncovered, n).value);
    }
  }

  /** One selection: the teacher's index and the subjects assigned to it. */
  datatype Round = Round(teacher: nat, subjects: set<Subject>)

  /** The rounds performed, and whether they ended with every subject covered. */
  datatype Outcome = Outcome(rounds: seq<Round>, complete: bool)

  /** The union of the subjects assigned in `rounds`. */
  function Covered(rounds: seq<Round>): set<Subject>
  {
    if rounds == [] then {} else rounds[0].subjects + Covered(rounds[1..])
  }

  /** A subject is covered exactly when some round assigns it. */
  lemma {:induction false} CoveredIsUnion(rounds: seq<Round>, s: Subject)
    ensures s in Covered(rounds) <==> exists i :: 0 <= i < |rounds| && s in rounds[i].subjects
  {
    if rounds != [] {
      CoveredIsUnion(rounds[1..], s);
      assert forall i :: 1 <= i < |rounds| ==> rounds[i] == rounds[1..][i - 1];
    }
  }

  /**
   * The whole run of `create_schedule` on teachers with profiles `ps`, from
   * the set of uncovered subjects on. Each round removes at least one subject,
   * so there are at most as many rounds as subjects.
   */
  function Plan(ps: seq<Profile>, uncovered: set<Subject>): (r: Outcome)
    ensures forall i :: 0 <= i < |r.rounds| ==> r.rounds[i].teacher < |ps|
    ensures |r.rounds| <= |uncovered|
    decreases uncovered
  {
    if uncovered == {} then Outcome([], true)
    else match BestUpTo(ps, uncovered, |ps|)
      case None => Outcome([], false)
      case Some(k) =>
        var coverage := Available(ps[k], uncovered);
        var rest := Plan(ps, uncovered - coverage);
        assert |uncovered - coverage| < |uncovered| by {
          assert |uncovered| == |uncovered - coverage| + |coverage|;
        }
        Outcome([Round(k, coverage)] + rest.rounds, rest.complete)
  }

  /** A subject some teacher can teach. */
  ghost predicate Teachable(ps: seq<Profile>, s: Subject)
  {
    exists j :: 0 <= j < |ps| && s in ps[j].canTeach
  }

  /** How a run that makes a first selection continues. */
  lemma PlanStep(ps: seq<Profile>, uncovered: set<Subject>, k: nat)
    requires uncovered != {} && BestUpTo(ps, uncovered, |ps|) == Some(k)
    ensures var coverage := Available(ps[k], uncovered);
      coverage != {} && coverage <= uncovered &&
      Plan(ps, uncovered).rounds == [Round(k, coverage)] + Plan(ps, uncovered - coverage).rounds &&
      Plan(ps, uncovered).complete == Plan(ps, uncovered - coverage).complete
  {
  }

  /**
   * Every assignment is a non-empty subset of the teacher's capabilities and
   * of the subjects still uncovered when the run starts.
   */
  lemma {:induction false} PlanAssignmentsValid(ps: seq<Profile>, uncovered: set<Subject>)
    ensures var rounds := Plan(ps, uncovered).rounds;
      forall i :: 0 <= i < |rounds| ==>
        rounds[i].subjects != {} &&
        rounds[i].subjects <= ps[rounds[i].teacher].canTeach &&
        rounds[i].subjects <= uncovered
    decreases uncovered
  {
    if uncovered != {} && BestUpTo(ps, uncovered, |ps|).Some? {
      var k := BestUpTo(ps, uncovered, |ps|).value;
      var coverage := Available(ps[k], uncovered);
      PlanStep(ps, uncovered, k);
      PlanAssignmentsValid(ps, uncovered - coverage);
      var rounds := Plan(ps, uncovered).rounds;
      var rest := Plan(ps, uncovered - coverage).rounds;
      forall i | 0 < i < |rounds| ensures rounds[i] == rest[i - 1] { }
    }
  }

  /** The assignments of a run are pairwise disjoint. */
  lemma {:induction false} PlanDisjoint(ps: seq<Profile>, uncovered: set<Subject>)
    ensures var rounds := Plan(ps, uncovered).rounds;
      forall i, j :: 0 <= i < j < |rounds| ==> rounds[i].subjects !! rounds[j].subjects
    decreases uncovered
  {
    if uncovered != {} && BestUpTo(ps, uncovered, |ps|).Some? {
      var k := BestUpTo(ps, uncovered, |ps|).value;
      var coverage := Available(ps[k], uncovered);
      PlanStep(ps, uncovered, k);
      PlanAssignmentsValid(ps, uncovered - coverage);
      PlanDisjoint(ps, uncovered - coverage);
      var rounds := Plan(ps, uncovered).rounds;
      var rest := Plan(ps, uncovered - coverage).rounds;
      forall i, j | 0 <= i < j < |rounds| ensures rounds[i].subjects !! rounds[j].subjects {
        assert rounds[j] == rest[j - 1];
        if i > 0 {
          assert rounds[i] == rest[i - 1];
        }
      }
    }
  }

  /** A run covers only subjects asked for, and a complete run covers all of them. */
  lemma {:induction false} PlanCovers(ps: seq<Profile>, uncovered: set<Subject>)
    ensures var r := Plan(ps, uncovered);
      Covered(r.rounds) <= uncovered && (r.complete ==> Covered(r.rounds) == uncovered)
    decreases uncovered
  {
    if uncovered != {} && BestUpTo(ps, uncovered, |ps|).Some? {
      var k := BestUpTo(ps, uncovered, |ps|).value;
      var coverage := Available(ps[k], uncovered);
      PlanStep(ps, uncovered, k);
      PlanCovers(ps, uncovered - coverage);
      var rounds := Plan(ps, uncovered).rounds;
      assert rounds[1..] == Plan(ps, uncovered - coverage).rounds;
    }
  }

  /** Once picked, a teacher has nothing left to cover, so the rest of the run never picks its profile. */
  lemma FirstPickSpent(ps: seq<Profile>, uncovered: set<Subject>, k: nat)
    requires uncovered != {} && BestUpTo(ps, uncovered, |ps|) == Some(k)
    ensures var rest := Plan(ps, uncovered - Available(ps[k], uncovered)).rounds;
      forall j :: 0 <= j < |rest| ==> ps[rest[j].teacher] != ps[k]
  {
    var left := uncovered - Available(ps[k], uncovered);
    PlanAssignmentsValid(ps, left);
    assert forall i :: 0 <= i < |Plan(ps, left).rounds| ==> Plan(ps, left).rounds[i].subjects <= left;
    forall j | 0 <= j < |Plan(ps, left).rounds| ensures ps[Plan(ps, left).rounds[j].teacher] != ps[k] {
      var r := Plan(ps, left).rounds[j];
      assert r.subjects != {} && r.subjects <= ps[r.teacher].canTeach && r.subjects <= left;
    }
  }

  /**
   * No teacher is picked twice, nor two teachers with the same profile: once
   * picked, a teacher has nothing left to cover.
   */
  lemma {:induction false} PlanPicksEachTeacherOnce(ps: seq<Profile>, uncovered: set<Subject>)
    ensures var rounds := Plan(ps, uncovered).rounds;
      forall i, j :: 0 <= i < j < |rounds| ==> ps[rounds[i].teacher] != ps[rounds[j].teacher]
    decreases uncovered
  {
    if uncovered != {} && BestUpTo(ps, uncovered, |ps|).Some? {
      var k := BestUpTo(ps, uncovered, |ps|).value;
      var coverage := Available(ps[k], uncovered);
      PlanStep(ps, uncovered, k);
      FirstPickSpent(ps, uncovered, k);
      PlanPicksEachTeacherOnce(ps, uncovered - coverage);
      DistinctAfterFirst(ps, Round(k, coverage), Plan(ps, uncovered - coverage).rounds);
    }
  }

  /** A pick whose profile no later pick has, followed by picks of distinct profiles, keeps the profiles distinct. */
  lemma DistinctAfterFirst(ps: seq<Profile>, first: Round, rest: seq<Round>)
    requires first.teacher < |ps| && forall j :: 0 <= j < |rest| ==> rest[j].teacher < |ps|
    requires forall j :: 0 <= j < |rest| ==> ps[rest[j].teacher] != ps[first.teacher]
    requires forall i, j :: 0 <= i < j < |rest| ==> ps[rest[i].teacher] != ps[rest[j].teacher]
    ensures var rounds := [first] + rest;
      forall i, j :: 0 <= i < j < |rounds| ==> ps[rounds[i].teacher] != ps[rounds[j].teacher]
  {
    var rounds := [first] + rest;
    forall i, j | 0 <= i < j < |rounds| ensures ps[rounds[i].teacher] != ps[rounds[j].teacher] {
      assert rounds[j] == rest[j - 1];
      if i > 0 {
        assert rounds[i] == rest[i - 1];
      }
    }
  }

  /** Round `i` is the greedy choice for what the rounds before it left uncovered. */
  ghost predicate RoundIsGreedy(ps: seq<Profile>, uncovered: set<Subject>, rounds: seq<Round>, i: nat)
    requires i < |rounds|
  {
    var left := uncovered - Covered(rounds[..i]);
    IsGreedyChoice(ps, left, |ps|, rounds[i].teacher) &&
    rounds[i].subjects == Available(ps[rounds[i].teacher], left)
  }

  lemma CoveredAfterFirst(first: Round, rest: seq<Round>, i: nat)
    requires 0 < i <= |rest| + 1
    ensures Covered(([first] + rest)[..i]) == first.subjects + Covered(rest[..i - 1])
  {
    assert ([first] + rest)[..i][1..] == rest[..i - 1];
  }

  /** A round that is greedy in the rest of a run is greedy in the whole run. */
  lemma GreedyAfterFirst(ps: seq<Profile>, uncovered: set<Subject>, first: Round, rest: seq<Round>, i: nat)
    requires 0 < i <= |rest|
    requires RoundIsGreedy(ps, uncovered - first.subjects, rest, i - 1)
    ensures RoundIsGreedy(ps, uncovered, [first] + rest, i)
  {
    CoveredAfterFirst(first, rest, i);
    assert ([first] + rest)[i] == rest[i - 1];
    assert uncovered - Covered(([first] + rest)[..i]) == (uncovered - first.subjects) - Covered(rest[..i - 1]);
  }

  /**
   * Each round picks the greedy choice for the subjects left uncovered by the
   * rounds before it, and assigns that teacher everything it can cover of them.
   */
  lemma {:induction false} PlanRoundsAreGreedy(ps: seq<Profile>, uncovered: set<Subject>)
    ensures var rounds := Plan(ps, uncovered).rounds;
      forall i :: 0 <= i < |rounds| ==> RoundIsGreedy(ps, uncovered, rounds, i)
    decreases uncovered
  {
    if uncovered != {} && BestUpTo(ps, uncovered, |ps|).Some? {
      var k := BestUpTo(ps, uncovered, |ps|).value;
      var coverage := Available(ps[k], uncovered);
      PlanStep(ps, uncovered, k);
      PlanRoundsAreGreedy(ps, uncovered - coverage);
      var rounds := Plan(ps, uncovered).rounds;
      var rest := Plan(ps, uncovered - coverage).rounds;
      forall i | 0 <= i < |rounds| ensures RoundIsGreedy(ps, uncovered, rounds, i) {
        if i == 0 {
          assert rounds[..0] == [];
          BestUpToIsGreedy(ps, uncovered, |ps|);
        } else {
          GreedyAfterFirst(ps, uncovered, Round(k, coverage), rest, i);
        }
      }
    }
  }

  /**
   * An incomplete run stops with subjects still uncovered and no teacher able
   * to cover any of them.
   */
  lemma {:induction false} PlanStopsOnlyWhenStuck(ps: seq<Profile>, uncovered: set<Subject>)
    ensures var r := Plan(ps, uncovered);
      var left := uncovered - Covered(r.rounds);
      !r.complete ==> left != {} && forall j :: 0 <= j < |ps| ==> Available(ps[j], left) == {}
    decreases uncovered
  {
    BestUpToNoneIff(ps, uncovered, |ps|);
    if uncovered != {} && BestUpTo(ps, uncovered, |ps|).Some? {
      var k := BestUpTo(ps, uncovered, |ps|).value;
      var coverage := Available(ps[k], uncovered);
      PlanStep(ps, uncovered, k);
      PlanStopsOnlyWhenStuck(ps, uncovered - coverage);
      var rounds := Plan(ps, uncovered).rounds;
      var rest := Plan(ps, uncovered - coverage).rounds;
      assert rounds[1..] == rest;
      assert uncovered - Covered(rounds) == (uncovered - coverage) - Covered(rest);
    }
  }

  /** A run fails exactly when some subject asked for is in no teacher's capabilities. */
  lemma {:induction false} PlanFailsIffUncoverable(ps: seq<Profile>, uncovered: set<Subject>)
    ensures !Plan(ps, uncovered).complete <==> exists s :: s in uncovered && !Teachable(ps, s)
    decreases uncovered
  {
    if uncovered != {} {
      match BestUpTo(ps, uncovered, |ps|)
      case None =>
        BestUpToNoneIff(ps, uncovered, |ps|);
        var s :| s in uncovered;
        forall j | 0 <= j < |ps| ensures s !in ps[j].canTeach {
          assert s in ps[j].canTeach ==> s in Available(ps[j], uncovered);
        }
        assert !Teachable(ps, s);
      case Some(k) =>
        var coverage := Available(ps[k], uncovered);
        PlanStep(ps, uncovered, k);
        PlanFailsIffUncoverable(ps, uncovered - coverage);
        forall s | s in coverage ensures Teachable(ps, s) {
          assert s in ps[k].canTeach;
        }
    }
  }

  /**
   * What a run promises its caller: valid, disjoint assignments whose union
   * is every requested subject when the run is complete, and failure exactly
   * when some requested subject is in no teacher's capabilities.
   */
  ghost predicate Guaranteed(ps: seq<Profile>, subjects: set<Subject>, r: Outcome)
  {
    (forall i :: 0 <= i < |r.rounds| ==>
      r.rounds[i].teacher < |ps| && r.rounds[i].subjects != {} &&
      r.rounds[i].subjects <= ps[r.rounds[i].teacher].canTeach * subjects) &&
    (forall i, j :: 0 <= i < j < |r.rounds| ==> r.rounds[i].subjects !! r.rounds[j].subjects) &&
    (r.complete ==> Covered(r.rounds) == subjects) &&
    (!r.complete <==> exists s :: s in subjects && forall j :: 0 <= j < |ps| ==> s !in ps[j].canTeach)
  }

  lemma PlanGuarantees(ps: seq<Profile>, subjects: set<Subject>)
    ensures Guaranteed(ps, subjects, Plan(ps, subjects))
  {
    PlanAssignmentsValid(ps, subjects);
    PlanDisjoint(ps, subjects);
    PlanCovers(ps, subjects);
    PlanFailsIffUncoverable(ps, subjects);
  }

  /**
   * A teacher as the scheduler sees it. The age and the capabilities are
   * fixed; the assigned subjects are written by `CreateSchedule`.
   */
  class Teacher {
    const age: int
    const canTeach: set<Subject>
    var assignedSubjects: set<Subject>

    constructor (age: int, canTeach: set<Subject>)
      ensures this.age == age && this.canTeach == canTeach && assignedSubjects == {}
    {
      this.age := age;
      this.canTeach := canTeach;
      assignedSubjects := {};
    }
  }

  /** The profiles of a list of teachers, in list order. */
  function Profiles(teachers: seq<Teacher>): (ps: seq<Profile>)
    ensures |ps| == |teachers|
    ensures forall i :: 0 <= i < |teachers| ==> ps[i] == Profile(teachers[i].age, teachers[i].canTeach)
  {
    if teachers == [] then []
    else [Profile(teachers[0].age, teachers[0].canTeach)] + Profiles(teachers[1..])
  }

  /**
   * `done` is how the loop of `create_schedule` begins when it starts from
   * the subjects `left` and gets to `uncovered`: every round selects the
   * greedy choice for what is still uncovered and takes out what that
   * teacher can cover of it.
   */
  ghost predicate Trace(ps: seq<Profile>, left: set<Subject>, done: seq<Round>, uncovered: set<Subject>)
    decreases |done|
  {
    if done == [] then uncovered == left
    else
      left != {} && BestUpTo(ps, left, |ps|) == Some(done[0].teacher) &&
      done[0].subjects == Available(ps[done[0].teacher], left) &&
      Trace(ps, left - done[0].subjects, done[1..], uncovered)
  }

  /**
   * A round of the loop extends the trace by the greedy choice on what is
   * left, and the teacher it selects has a profile none of the teachers
   * picked before has: those have nothing left to cover.
   */
  lemma {:induction false} TraceExtends(ps: seq<Profile>, left: set<Subject>, done: seq<Round>, uncovered: set<Subject>, k: nat)
    requires Trace(ps, left, done, uncovered)
    requires uncovered != {} && BestUpTo(ps, uncovered, |ps|) == Some(k)
    ensures var coverage := Available(ps[k], uncovered);
      coverage != {} && coverage <= uncovered &&
      Trace(ps, left, done + [Round(k, coverage)], uncovered - coverage) &&
      forall i :: 0 <= i < |done| ==> done[i].teacher < |ps| && ps[done[i].teacher] != ps[k]
    decreases |done|
  {
    if done == [] {
      assert ([] + [Round(k, Available(ps[k], uncovered))])[1..] == [];
    } else {
      var first := done[0];
      TraceExtends(ps, left - first.subjects, done[1..], uncovered, k);
      assert (done + [Round(k, Available(ps[k], uncovered))])[1..] == done[1..] + [Round(k, Available(ps[k], uncovered))];
      TraceShrinks(ps, left - first.subjects, done[1..], uncovered);
      forall i | 0 <= i < |done| ensures done[i].teacher < |ps| && ps[done[i].teacher] != ps[k] {
        if i == 0 {
          assert Available(ps[k], uncovered) <= Available(ps[k], left);
        } else {
          assert done[i] == done[1..][i - 1];
        }
      }
    }
  }

  /** A trace only ever takes subjects out. */
  lemma {:induction false} TraceShrinks(ps: seq<Profile>, left: set<Subject>, done: seq<Round>, uncovered: set<Subject>)
    requires Trace(ps, left, done, uncovered)
    ensures uncovered <= left
    decreases |done|
  {
    if done != [] {
      TraceShrinks(ps, left - done[0].subjects, done[1..], uncovered);
    }
  }

  /** When the loop stops, the trace is the whole run from where it started. */
  lemma {:induction false} TraceEnds(ps: seq<Profile>, left: set<Subject>, done: seq<Round>, uncovered: set<Subject>)
    requires Trace(ps, left, done, uncovered)
    requires uncovered == {} || BestUpTo(ps, uncovered, |ps|).None?
    ensures Plan(ps, left) == Outcome(done, uncovered == {})
    decreases |done|
  {
    if done != [] {
      TraceEnds(ps, left - done[0].subjects, done[1..], uncovered);
      PlanStep(ps, left, done[0].teacher);
      assert done == [done[0]] + done[1..];
    }
  }

  /** The teachers that `rounds` select, in selection order. */
  function TeachersOf(teachers: seq<Teacher>, rounds: seq<Round>): (r: seq<Teacher>)
    requires forall i :: 0 <= i < |rounds| ==> rounds[i].teacher < |teachers|
    ensures |r| == |rounds| && forall i :: 0 <= i < |rounds| ==> r[i] == teachers[rounds[i].teacher]
  {
    if rounds == [] then []
    else TeachersOf(teachers, rounds[..|rounds| - 1]) + [teachers[rounds[|rounds| - 1].teacher]]
  }


  /** The teachers a run selects are distinct objects: two picks never share a profile. */
  lemma PlanPicksDistinctTeachers(teachers: seq<Teacher>, subjects: set<Subject>)
    ensures var picked := TeachersOf(teachers, Plan(Profiles(teachers), subjects).rounds);
      forall i, j :: 0 <= i < j < |picked| ==> picked[i] != picked[j]
  {
    var ps := Profiles(teachers);
    var rounds := Plan(ps, subjects).rounds;
    PlanPicksEachTeacherOnce(ps, subjects);
    forall i, j | 0 <= i < j < |rounds| ensures teachers[rounds[i].teacher] != teachers[rounds[j].teacher] {
      assert ps[rounds[i].teacher] != ps[rounds[j].teacher];
    }
  }

  /**
   * `Guaranteed` read on the teacher objects: when the teachers of a run
   * hold the subjects of their rounds, their assignments are valid and
   * disjoint, cover every subject of a complete run, and the run fails
   * exactly when some subject is in no teacher's capabilities.
   */
  lemma PickedGuarantees(teachers: seq<Teacher>, ps: seq<Profile>, subjects: set<Subject>, picked: seq<Teacher>, r: Outcome)
    requires |ps| == |teachers| && forall j :: 0 <= j < |ps| ==> ps[j].canTeach == teachers[j].canTeach
    requires Guaranteed(ps, subjects, r)
    requires |picked| == |r.rounds|
    requires forall i :: 0 <= i < |picked| ==>
      picked[i] == teachers[r.rounds[i].teacher] && picked[i].assignedSubjects == r.rounds[i].subjects
    ensures forall i :: 0 <= i < |picked| ==>
      picked[i].assignedSubjects != {} && picked[i].assignedSubjects <= picked[i].canTeach * subjects
    ensures forall i, j :: 0 <= i < j < |picked| ==> picked[i].assignedSubjects !! picked[j].assignedSubjects
    ensures r.complete ==> Assigned(picked) == subjects
    ensures !r.complete <==>
      exists s :: s in subjects && forall j :: 0 <= j < |teachers| ==> s !in teachers[j].canTeach
  {
    AssignedIsCovered(picked, r.rounds);
  }

  /** The union of the subjects the teachers in `picked` hold. */
  ghost function Assigned(picked: seq<Teacher>): set<Subject>
    reads picked
  {
    if picked == [] then {} else picked[0].assignedSubjects + Assigned(picked[1..])
  }

  /** Teachers holding the subjects of the rounds, in order, hold what the rounds cover. */
  lemma {:induction false} AssignedIsCovered(picked: seq<Teacher>, rounds: seq<Round>)
    requires |picked| == |rounds|
    requires forall i :: 0 <= i < |picked| ==> picked[i].assignedSubjects == rounds[i].subjects
    ensures Assigned(picked) == Covered(rounds)
  {
    if picked != [] {
      AssignedIsCovered(picked[1..], rounds[1..]);
    }
  }

  /**
   * The inner `for` loop of `create_schedule`: scan the teachers in order and
   * keep the best candidate under the strict replacement rule. `index` is the
   * position of the chosen teacher in the list.
   */
  method SelectBest(teachers: seq<Teacher>, uncovered: set<Subject>)
    returns (best: Option<Teacher>, coverage: set<Subject>, ghost index: nat)
    ensures best.None? <==> forall j :: 0 <= j < |teachers| ==> teachers[j].canTeach * uncovered == {}
    ensures best.None? ==> coverage == {} && BestUpTo(Profiles(teachers), uncovered, |teachers|) == None
    ensures best.Some? ==>
      BestUpTo(Profiles(teachers), uncovered, |teachers|) == Some(index) &&
      best.value == teachers[index] && coverage == best.value.canTeach * uncovered
  {
    ghost var ps := Profiles(teachers);
    best, coverage, index := None, {}, 0;
    for i := 0 to |teachers|
      invariant best.None? <==> BestUpTo(ps, uncovered, i).None?
      invariant best.None? ==> coverage == {}
      invariant best.Some? ==>
        BestUpTo(ps, uncovered, i) == Some(index) &&
        best.value == teachers[index] && coverage == Available(ps[index], uncovered)
    {
      var teacher := teachers[i];
      var available := teacher.canTeach * uncovered;
      if available == {} {
        continue;
      }
      if best.None? || |available| > |coverage| || (|available| == |coverage| && teacher.age < best.value.age) {
        best, coverage, index := Some(teacher), available, i;
      }
    }
    BestUpToNoneIff(ps, uncovered, |teachers|);
    assert forall j :: 0 <= j < |teachers| ==> Available(ps[j], uncovered) == teachers[j].canTeach * uncovered;
  }

  /**
   * One pass of the `while` loop of `create_schedule`: select the best
   * teacher for what is uncovered and, when there is one, assign it the
   * subjects it covers. `done` and `chosen` are the rounds and the teachers
   * of the passes before; the teacher selected is none of them.
   */
  method AssignBest(teachers: seq<Teacher>, uncovered: set<Subject>,
                    ghost subjects: set<Subject>, ghost done: seq<Round>, ghost chosen: seq<Teacher>)
    returns (best: Option<Teacher>, coverage: set<Subject>, ghost k: nat)
    requires uncovered != {} && Trace(Profiles(teachers), subjects, done, uncovered)
    requires forall i :: 0 <= i < |done| ==> done[i].teacher < |teachers|
    requires chosen == TeachersOf(teachers, done)
    requires forall i :: 0 <= i < |chosen| ==> chosen[i].assignedSubjects == done[i].subjects
    modifies teachers
    ensures forall i :: 0 <= i < |chosen| ==> chosen[i].assignedSubjects == done[i].subjects
    ensures best.None? ==>
      BestUpTo(Profiles(teachers), uncovered, |teachers|) == None &&
      forall t :: t in teachers ==> t.assignedSubjects == old(t.assignedSubjects)
    ensures best.Some? ==>
      k < |teachers| && best.value == teachers[k] && best.value !in chosen &&
      coverage != {} && coverage <= uncovered &&
      Trace(Profiles(teachers), subjects, done + [Round(k, coverage)], uncovered - coverage) &&
      best.value.assignedSubjects == coverage &&
      forall t :: t in teachers && t != best.value ==> t.assignedSubjects == old(t.assignedSubjects)
  {
    best, coverage, k := SelectBest(teachers, uncovered);
    if best.Some? {
      TraceExtends(Profiles(teachers), subjects, done, uncovered, k);
      assert forall i :: 0 <= i < |chosen| ==> chosen[i] != best.value;
      best.value.assignedSubjects := coverage;
    }
  }

  /**
   * The `while` loop of `create_schedule`: passes of selection and assignment
   * until every subject is covered or no teacher can cover any of the rest.
   * `done` records the rounds, `chosen` the teachers in selection order, and
   * `uncovered` what is left.
   */
  method AssignRounds(subjects: set<Subject>, teachers: seq<Teacher>)
    returns (uncovered: set<Subject>, chosen: seq<Teacher>, ghost done: seq<Round>)
    modifies teachers
    ensures Trace(Profiles(teachers), subjects, done, uncovered)
    ensures uncovered == {} || BestUpTo(Profiles(teachers), uncovered, |teachers|).None?
    ensures forall i :: 0 <= i < |done| ==> done[i].teacher < |teachers|
    ensures chosen == TeachersOf(teachers, done)
    ensures forall i :: 0 <= i < |chosen| ==> chosen[i].assignedSubjects == done[i].subjects
    ensures forall t :: t in teachers && t !in chosen ==> t.assignedSubjects == old(t.assignedSubjects)
  {
    ghost var ps := Profiles(teachers);
    uncovered, chosen, done := subjects, [], [];
    while uncovered != {}
      invariant Trace(ps, subjects, done, uncovered)
      invariant forall i :: 0 <= i < |done| ==> done[i].teacher < |teachers|
      invariant chosen == TeachersOf(teachers, done)
      invariant forall i :: 0 <= i < |chosen| ==> chosen[i].assignedSubjects == done[i].subjects
      invariant forall t :: t in teachers && t !in chosen ==> t.assignedSubjects == old(t.assignedSubjects)
      decreases uncovered
    {
      var best, coverage, k := AssignBest(teachers, uncovered, subjects, done, chosen);
      if best.None? {
        break;
      }
      uncovered := uncovered - coverage;
      chosen := chosen + [best.value];
      done := done + [Round(k, coverage)];
    }
  }

  /**
   * `create_schedule`. Returns the selected teachers in selection order, or
   * None when some subjects can be covered by no teacher. `picked` lists the
   * teachers selected before the run stopped, on either outcome: each holds
   * the subjects of its round, no teacher is selected twice and no other
   * teacher is touched.
   */
  method CreateSchedule(subjects: set<Subject>, teachers: seq<Teacher>)
    returns (schedule: Option<seq<Teacher>>, ghost picked: seq<Teacher>)
    modifies teachers
    ensures var plan := Plan(Profiles(teachers), subjects);
      (schedule.Some? <==> plan.complete) &&
      (schedule.Some? ==> schedule.value == picked) &&
      picked == TeachersOf(teachers, plan.rounds) &&
      (forall i :: 0 <= i < |picked| ==> picked[i].assignedSubjects == plan.rounds[i].subjects)
    ensures forall i, j :: 0 <= i < j < |picked| ==> picked[i] != picked[j]
    ensures forall t :: t in teachers && t !in picked ==> t.assignedSubjects == old(t.assignedSubjects)
    ensures forall i :: 0 <= i < |picked| ==>
      picked[i].assignedSubjects != {} && picked[i].assignedSubjects <= picked[i].canTeach * subjects
    ensures forall i, j :: 0 <= i < j < |picked| ==> picked[i].assignedSubjects !! picked[j].assignedSubjects
    ensures schedule.Some? ==> Assigned(picked) == subjects
    ensures schedule.None? <==>
      exists s :: s in subjects && forall j :: 0 <= j < |teachers| ==> s !in teachers[j].canTeach
  {
    var uncovered, chosen, done := AssignRounds(subjects, teachers);
    ghost var ps := Profiles(teachers);
    TraceEnds(ps, subjects, done, uncovered);
    PlanPicksDistinctTeachers(teachers, subjects);
    schedule := if uncovered == {} then Some(chosen) else None;
    picked := chosen;
    PlanGuarantees(ps, subjects);
    PickedGuarantees(teachers, ps, subjects, picked, Plan(ps, subjects));
  }
}
