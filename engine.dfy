/**
 * The assignment step of `applyTests`, as values: for each relevant test the
 * visitor's existing assignment is reused, or a variant is drawn and a new
 * assignment appended. The class `Tracker.Session` runs the loop in place and
 * is proved to follow `ApplyAll`; the properties of the loop are proved here.
 */
module Engine {
  import opened Common

  /** `visitor.assignments.find(a => a.testId === testId)`. */
  function FindAssignment(a: seq<Assignment>, testId: int): (r: Option<Assignment>)
    ensures r.None? <==> testId !in AssignedIds(a)
    ensures r.Some? ==> r.value in a && r.value.testId == testId
  {
    if a == [] then None
    else if a[0].testId == testId then Some(a[0])
    else
      assert AssignedIds(a) == {a[0].testId} + AssignedIds(a[1..]) by {
        assert forall e :: e in a <==> e == a[0] || e in a[1..];
      }
      FindAssignment(a[1..], testId)
  }

  /** Appending never hides an assignment that was already found: `find` returns the first match. */
  lemma {:induction false} FindInExtended(a: seq<Assignment>, b: seq<Assignment>, testId: int)
    ensures FindAssignment(a + b, testId) ==
      if FindAssignment(a, testId).Some? then FindAssignment(a, testId) else FindAssignment(b, testId)
  {
    if a == [] {
      assert a + b == b;
    } else {
      assert (a + b)[1..] == a[1..] + b;
      FindInExtended(a[1..], b, testId);
    }
  }

  /** A value of `Math.random()`. */
  predicate ValidRoll(x: real) {
    0.0 <= x < 1.0
  }

  predicate ValidRolls(rolls: seq<real>) {
    forall i :: 0 <= i < |rolls| ==> ValidRoll(rolls[i])
  }

  /** `Math.floor(roll * n)`: a valid index for `n` variants (no weights are used). */
  function PickIndex(roll: real, n: nat): (i: nat)
    requires ValidRoll(roll) && n > 0
    ensures i < n
  {
    var x := roll * n as real;
    assert x < n as real by {
      assert roll * n as real < 1.0 * n as real;
    }
    x.Floor
  }

  /**
   * The outcome for one test: the suffix of an existing assignment, a new
   * assignment, or the `TypeError` raised when a test with no variants has to
   * be assigned (`test.variants[0]` is `undefined`).
   */
  datatype Resolution = Reused(suffix: string) | Assigned(entry: Assignment) | NoVariants

  /** The body of the loop of `applyTests`, up to the call of `applyVariant`. */
  function Resolve(a: seq<Assignment>, test: Test, roll: real, now: string): (r: Resolution)
    requires ValidRoll(roll)
    ensures r.Reused? <==> test.id in AssignedIds(a)
    ensures r.Reused? ==> r.suffix == FindAssignment(a, test.id).value.variantSuffix
    ensures r.Assigned? ==> r.entry.testId == test.id && r.entry.assignedAt == now
    ensures r.Assigned? ==> r.entry.variantSuffix in Suffixes(test.variants)
    ensures r.NoVariants? <==> test.id !in AssignedIds(a) && test.variants == []
  {
    match FindAssignment(a, test.id)
    case Some(e) => Reused(e.variantSuffix)
    case None =>
      if test.variants == [] then NoVariants
      else
        var v := test.variants[PickIndex(roll, |test.variants|)];
        assert v in test.variants;
        Assigned(Assignment(test.id, v.suffix, now))
  }

  /**
   * Once a test has been assigned, resolving it again, with any draw at any
   * time, reuses the stored suffix and appends nothing.
   */
  lemma ResolveAgainReuses(a: seq<Assignment>, test: Test, roll: real, now: string, roll': real, later: string)
    requires ValidRoll(roll) && ValidRoll(roll')
    requires Resolve(a, test, roll, now).Assigned?
    ensures var e := Resolve(a, test, roll, now).entry;
      Resolve(a + [e], test, roll', later) == Reused(e.variantSuffix)
  {
    var e := Resolve(a, test, roll, now).entry;
    FindInExtended(a, [e], test.id);
    assert [e][1..] == [];
  }

  /**
   * The state of the loop of `applyTests`: the visitor's assignments, the
   * suffix handed to `applyVariant` for each test processed, and whether a
   * `TypeError` has ended the loop.
   */
  datatype Run = Run(assignments: seq<Assignment>, suffixes: seq<string>, crashed: bool)

  /**
   * One iteration of the loop of `applyTests`, up to the call of
   * `applyVariant`: nothing happens once the loop has ended; otherwise the
   * test's suffix is recorded and a new assignment, if any, appended.
   */
  function Step(prev: Run, test: Test, roll: real, now: string): (next: Run)
    requires ValidRoll(roll)
    ensures prev.crashed ==> next == prev
    ensures !prev.crashed && next.crashed ==> next.assignments == prev.assignments && next.suffixes == prev.suffixes
  {
    if prev.crashed then prev
    else
      match Resolve(prev.assignments, test, roll, now)
      case Reused(s) => Run(prev.assignments, prev.suffixes + [s], false)
      case Assigned(e) => Run(prev.assignments + [e], prev.suffixes + [e.variantSuffix], false)
      case NoVariants => prev.(crashed := true)
  }

  /**
   * The loop of `applyTests` over `tests`, starting from the assignments `a`;
   * test `i` is given the draw `rolls[i]` if it needs one.
   */
  function ApplyAll(a: seq<Assignment>, tests: seq<Test>, rolls: seq<real>, now: string): (r: Run)
    requires |tests| <= |rolls| && ValidRolls(rolls)
    ensures |r.suffixes| <= |tests|
    ensures !r.crashed ==> |r.suffixes| == |tests|
    decreases |tests|
  {
    if tests == [] then Run(a, [], false)
    else
      var n := |tests| - 1;
      Step(ApplyAll(a, tests[..n], rolls, now), tests[n], rolls[n], now)
  }

  /** Existing assignments are never changed or removed: the old list is a prefix of the new one. */
  lemma {:induction false} ApplyAllExtends(a: seq<Assignment>, tests: seq<Test>, rolls: seq<real>, now: string)
    requires |tests| <= |rolls| && ValidRolls(rolls)
    ensures var r := ApplyAll(a, tests, rolls, now);
      |a| <= |r.assignments| && r.assignments[..|a|] == a
    decreases |tests|
  {
    if tests != [] {
      var n := |tests| - 1;
      ApplyAllExtends(a, tests[..n], rolls, now);
      var prev := ApplyAll(a, tests[..n], rolls, now);
      if !prev.crashed {
        match Resolve(prev.assignments, tests[n], rolls[n], now)
        case Assigned(e) => assert (prev.assignments + [e])[..|a|] == prev.assignments[..|a|];
        case _ =>
      }
    }
  }

  /**
   * The runs after each prefix of `tests`, in loop order: `trace[k]` is the
   * state before test `k`, each entry is one `Step` from the previous one, a
   * run that has crashed stays as it is, and the last entry is `ApplyAll`.
   */
  lemma {:induction false} Trace(a: seq<Assignment>, tests: seq<Test>, rolls: seq<real>, now: string)
    returns (trace: seq<Run>)
    requires |tests| <= |rolls| && ValidRolls(rolls)
    ensures |trace| == |tests| + 1 && trace[0] == Run(a, [], false)
    ensures forall k :: 0 <= k < |tests| ==> trace[k + 1] == Step(trace[k], tests[k], rolls[k], now)
    ensures forall k :: 0 <= k <= |tests| && trace[k].crashed ==> trace[|tests|] == trace[k]
    ensures trace[|tests|] == ApplyAll(a, tests, rolls, now)
    decreases |tests|
  {
    if tests == [] {
      trace := [Run(a, [], false)];
    } else {
      var n := |tests| - 1;
      var t := Trace(a, tests[..n], rolls, now);
      trace := t + [Step(t[n], tests[n], rolls[n], now)];
      forall k | 0 <= k < |tests|
        ensures trace[k + 1] == Step(trace[k], tests[k], rolls[k], now)
      {
        if k < n {
          assert tests[..n][k] == tests[k];
        }
      }
    }
  }

  /**
   * The `TypeError` ends the loop: once a prefix of the tests has crashed, the
   * later tests add no assignment and no suffix.
   */
  lemma {:induction false} ApplyAllStopsAtCrash(a: seq<Assignment>, tests: seq<Test>, rolls: seq<real>, now: string, j: nat)
    requires |tests| <= |rolls| && ValidRolls(rolls) && j <= |tests|
    requires ApplyAll(a, tests[..j], rolls, now).crashed
    ensures ApplyAll(a, tests, rolls, now) == ApplyAll(a, tests[..j], rolls, now)
    decreases |tests|
  {
    if j == |tests| {
      assert tests[..j] == tests;
    } else {
      var n := |tests| - 1;
      assert tests[..n][..j] == tests[..j];
      ApplyAllStopsAtCrash(a, tests[..n], rolls, now, j);
    }
  }

  /** `e` records a suffix offered by a test of `tests` with the same id. */
  predicate FromTests(e: Assignment, tests: seq<Test>) {
    exists i :: 0 <= i < |tests| && tests[i].id == e.testId && e.variantSuffix in Suffixes(tests[i].variants)
  }

  /**
   * What the loop may append to `a`: assignments made now for tests of
   * `tests` the visitor had no assignment for, at most one per test id.
   */
  predicate FreshEntries(added: seq<Assignment>, a: seq<Assignment>, tests: seq<Test>, now: string) {
    && (forall k :: 0 <= k < |added| ==>
          added[k].testId !in AssignedIds(a) && added[k].assignedAt == now && FromTests(added[k], tests))
    && UniqueTestIds(added)
  }

  /**
   * The new assignments are for tests of `tests` the visitor had no assignment
   * for, each with a suffix its test offers and the current time; no test gets
   * two of them, even when `tests` repeats an id.
   */
  lemma {:induction false} ApplyAllNewEntries(a: seq<Assignment>, tests: seq<Test>, rolls: seq<real>, now: string)
    requires |tests| <= |rolls| && ValidRolls(rolls)
    ensures var r := ApplyAll(a, tests, rolls, now);
      |a| <= |r.assignments| && FreshEntries(r.assignments[|a|..], a, tests, now)
    decreases |tests|
  {
    ApplyAllExtends(a, tests, rolls, now);
    if tests != [] {
      var n := |tests| - 1;
      ApplyAllNewEntries(a, tests[..n], rolls, now);
      ApplyAllExtends(a, tests[..n], rolls, now);
      var prev := ApplyAll(a, tests[..n], rolls, now);
      var p := prev.assignments;
      var added := p[|a|..];
      assert p == a + added;
      FreshEntriesWiden(added, a, tests, n, now);
      var r := ApplyAll(a, tests, rolls, now);
      assert r == Step(prev, tests[n], rolls[n], now);
      if !prev.crashed && Resolve(p, tests[n], rolls[n], now).Assigned? {
        var e := Resolve(p, tests[n], rolls[n], now).entry;
        assert r.assignments == p + [e];
        assert FromTests(e, tests) by { assert tests[n].id == e.testId; }
        FreshEntriesAppend(added, a, e, tests, now);
        assert (p + [e])[|a|..] == added + [e];
      } else {
        assert r.assignments == p;
      }
    }
  }

  lemma FreshEntriesWiden(added: seq<Assignment>, a: seq<Assignment>, tests: seq<Test>, n: nat, now: string)
    requires n <= |tests| && FreshEntries(added, a, tests[..n], now)
    ensures FreshEntries(added, a, tests, now)
  {
    forall k | 0 <= k < |added| ensures FromTests(added[k], tests) {
      var i :| 0 <= i < n && tests[..n][i].id == added[k].testId && added[k].variantSuffix in Suffixes(tests[..n][i].variants);
      assert tests[..n][i] == tests[i];
    }
  }

  lemma FreshEntriesAppend(added: seq<Assignment>, a: seq<Assignment>, e: Assignment, tests: seq<Test>, now: string)
    requires FreshEntries(added, a, tests, now)
    requires e.testId !in AssignedIds(a + added) && e.assignedAt == now && FromTests(e, tests)
    ensures FreshEntries(added + [e], a, tests, now)
  {
    var q := added + [e];
    assert forall x :: x in a ==> x in a + added;
    assert forall x :: x in added ==> x in a + added;
    forall k | 0 <= k < |q|
      ensures q[k].testId !in AssignedIds(a) && q[k].assignedAt == now && FromTests(q[k], tests)
    {
      if k < |added| { assert q[k] == added[k]; }
    }
    forall k, l | 0 <= k < l < |q| ensures q[k].testId != q[l].testId {
      assert q[k] == added[k];
      if l == |added| {
        assert added[k] in a + added;
      } else {
        assert q[l] == added[l];
      }
    }
  }

  /** The invariant of the visitor record: at most one assignment per test id stays true. */
  lemma ApplyAllKeepsUnique(a: seq<Assignment>, tests: seq<Test>, rolls: seq<real>, now: string)
    requires |tests| <= |rolls| && ValidRolls(rolls)
    requires UniqueTestIds(a)
    ensures UniqueTestIds(ApplyAll(a, tests, rolls, now).assignments)
  {
    var r := ApplyAll(a, tests, rolls, now).assignments;
    ApplyAllNewEntries(a, tests, rolls, now);
    ApplyAllExtends(a, tests, rolls, now);
    var added := r[|a|..];
    forall i, j | 0 <= i < j < |r| ensures r[i].testId != r[j].testId {
      if j < |a| {
        assert r[i] == a[i] && r[j] == a[j];
      } else if i < |a| {
        assert r[i] == a[i] && r[j] == added[j - |a|];
        assert r[i].testId in AssignedIds(a);
      } else {
        assert r[i] == added[i - |a|] && r[j] == added[j - |a|];
      }
    }
  }

  /**
   * When the loop completes, every processed test has an assignment, and the
   * first assignment `find` meets for it carries the suffix that was handed
   * to `applyVariant` for it.
   */
  lemma {:induction false} ApplyAllRecall(a: seq<Assignment>, tests: seq<Test>, rolls: seq<real>, now: string)
    requires |tests| <= |rolls| && ValidRolls(rolls)
    ensures var r := ApplyAll(a, tests, rolls, now);
      !r.crashed ==> Recalls(r.assignments, tests, r.suffixes)
    decreases |tests|
  {
    if tests != [] {
      var n := |tests| - 1;
      ApplyAllRecall(a, tests[..n], rolls, now);
      var prev := ApplyAll(a, tests[..n], rolls, now);
      if !prev.crashed {
        RecallsAfterResolve(prev.assignments, tests, prev.suffixes, rolls[n], now);
      }
    }
  }

  lemma RecallsAfterResolve(p: seq<Assignment>, tests: seq<Test>, suffixes: seq<string>, roll: real, now: string)
    requires |tests| > 0 && |suffixes| == |tests| - 1 && ValidRoll(roll)
    requires Recalls(p, tests[..|tests| - 1], suffixes)
    ensures match Resolve(p, tests[|tests| - 1], roll, now)
      case Reused(s) => Recalls(p, tests, suffixes + [s])
      case Assigned(e) => Recalls(p + [e], tests, suffixes + [e.variantSuffix])
      case NoVariants => true
  {
    var n := |tests| - 1;
    match Resolve(p, tests[n], roll, now)
    case Reused(s) =>
      RecallsStep(p, p, tests, suffixes, s);
    case Assigned(e) =>
      forall i | 0 <= i < n ensures FindAssignment(p + [e], tests[i].id) == FindAssignment(p, tests[i].id) {
        FindInExtended(p, [e], tests[i].id);
      }
      FindInExtended(p, [e], e.testId);
      assert [e][1..] == [];
      RecallsStep(p, p + [e], tests, suffixes, e.variantSuffix);
    case NoVariants =>
  }

  /**
   * For each test, the first assignment `find` meets for it exists and holds
   * the suffix resolved for it.
   */
  predicate Recalls(assignments: seq<Assignment>, tests: seq<Test>, suffixes: seq<string>)
    requires |suffixes| == |tests|
  {
    forall i :: 0 <= i < |tests| ==>
      FindAssignment(assignments, tests[i].id).Some? &&
      FindAssignment(assignments, tests[i].id).value.variantSuffix == suffixes[i]
  }

  lemma RecallsStep(p: seq<Assignment>, q: seq<Assignment>, tests: seq<Test>, suffixes: seq<string>, s: string)
    requires |tests| > 0 && |suffixes| == |tests| - 1
    requires Recalls(p, tests[..|tests| - 1], suffixes)
    requires forall i :: 0 <= i < |tests| - 1 ==> FindAssignment(q, tests[i].id) == FindAssignment(p, tests[i].id)
    requires FindAssignment(q, tests[|tests| - 1].id).Some?
    requires FindAssignment(q, tests[|tests| - 1].id).value.variantSuffix == s
    ensures Recalls(q, tests, suffixes + [s])
  {
    var n := |tests| - 1;
    forall i | 0 <= i < |tests|
      ensures FindAssignment(q, tests[i].id).Some?
      ensures FindAssignment(q, tests[i].id).value.variantSuffix == (suffixes + [s])[i]
    {
      if i < n { assert tests[..n][i] == tests[i]; }
    }
    assert Recalls(q, tests, suffixes + [s]);
  }

  /** Every processed test's id appears among the assignments. */
  lemma ApplyAllCovers(a: seq<Assignment>, tests: seq<Test>, rolls: seq<real>, now: string)
    requires |tests| <= |rolls| && ValidRolls(rolls)
    ensures var r := ApplyAll(a, tests, rolls, now);
      !r.crashed ==> forall i :: 0 <= i < |tests| ==> tests[i].id in AssignedIds(r.assignments)
  {
    ApplyAllRecall(a, tests, rolls, now);
    var r := ApplyAll(a, tests, rolls, now);
    if !r.crashed {
      forall i | 0 <= i < |tests| ensures tests[i].id in AssignedIds(r.assignments) {
        assert FindAssignment(r.assignments, tests[i].id).Some?;
      }
    }
  }

  /**
   * Running the loop again over the same tests, with any draws at any later
   * time, appends nothing and resolves every test to the same suffix: a
   * visitor's bucket for a test never changes.
   */
  lemma ApplyAllStable(a: seq<Assignment>, tests: seq<Test>, rolls: seq<real>, now: string,
                       rolls': seq<real>, later: string)
    requires |tests| <= |rolls| && ValidRolls(rolls)
    requires |tests| <= |rolls'| && ValidRolls(rolls')
    requires !ApplyAll(a, tests, rolls, now).crashed
    ensures var r := ApplyAll(a, tests, rolls, now);
      ApplyAll(r.assignments, tests, rolls', later) == Run(r.assignments, r.suffixes, false)
  {
    var r := ApplyAll(a, tests, rolls, now);
    ApplyAllRecall(a, tests, rolls, now);
    ReplayPrefix(r.assignments, tests, r.suffixes, rolls', later, |tests|);
    assert tests[..|tests|] == tests;
    assert r.suffixes[..|tests|] == r.suffixes;
  }

  lemma {:induction false} ReplayPrefix(done: seq<Assignment>, tests: seq<Test>, suffixes: seq<string>,
                                        rolls: seq<real>, now: string, j: nat)
    requires |tests| <= |rolls| && ValidRolls(rolls)
    requires j <= |tests| == |suffixes|
    requires Recalls(done, tests, suffixes)
    ensures ApplyAll(done, tests[..j], rolls, now) == Run(done, suffixes[..j], false)
  {
    if j > 0 {
      ReplayPrefix(done, tests, suffixes, rolls, now, j - 1);
      assert tests[..j][..j - 1] == tests[..j - 1];
      assert suffixes[..j - 1] + [suffixes[j - 1]] == suffixes[..j];
    }
  }

  /**
   * Two tests with different ids that the visitor has no assignment for, both
   * offering variants: the visitor ends with exactly two new assignments, one
   * per test, in order.
   */
  lemma TwoNewTests(a: seq<Assignment>, t1: Test, t2: Test, rolls: seq<real>, now: string)
    requires |rolls| >= 2 && ValidRolls(rolls)
    requires t1.id != t2.id && t1.id !in AssignedIds(a) && t2.id !in AssignedIds(a)
    requires t1.variants != [] && t2.variants != []
    ensures var r := ApplyAll(a, [t1, t2], rolls, now);
      && !r.crashed
      && |r.assignments| == |a| + 2
      && r.assignments[|a|].testId == t1.id && r.assignments[|a| + 1].testId == t2.id
  {
    var tests := [t1, t2];
    assert tests[..1] == [t1];
    assert [t1][..0] == [];
    var e1 := Resolve(a, t1, rolls[0], now);
    assert e1.Assigned?;
    var first := ApplyAll(a, [t1], rolls, now);
    assert ApplyAll(a, [], rolls, now) == Run(a, [], false);
    assert [] + [e1.entry.variantSuffix] == [e1.entry.variantSuffix];
    assert first == Run(a + [e1.entry], [e1.entry.variantSuffix], false);
    assert t2.id !in AssignedIds(a + [e1.entry]) by {
      assert forall e :: e in a + [e1.entry] ==> e in a || e == e1.entry;
    }
    var e2 := Resolve(a + [e1.entry], t2, rolls[1], now);
    assert e2.Assigned?;
  }
}
