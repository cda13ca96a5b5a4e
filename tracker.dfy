/**
 * The page-level state of the snippet in `dist/output.js`: the visitor
 * object `init` loads and `applyTests` changes in place, the local-storage
 * slot it is saved to, and the events the loop of `applyTests` emits. `init`
 * loads the visitor, selects the tests of the page and applies them.
 */
module Tracker {
  import opened Common
  import opened Uuid
  import opened Engine
  import opened Reconciler
  import Selector
  import Identity

  class Session {
    /** The object `visitor` that `init` loads and hands to `applyTests`. */
    var visitor: Visitor
    /**
     * The local-storage slot `ab.one_visitor`. `None` stands for an empty
     * slot, which `JSON.parse(... || "{}")` reads as a record without an id.
     */
    var storage: Option<Visitor>
    /**
     * The assignments announced so far by a `variant_assigned` event, in
     * order; each event carries the entry's `variantSuffix`.
     */
    ghost var published: seq<Assignment>

    /** The page's state once `loadVisitor` has returned `visitor`: nothing emitted yet. */
    constructor (storage: Option<Visitor>, visitor: Visitor)
      ensures this.storage == storage && this.visitor == visitor && published == []
    {
      this.visitor := visitor;
      this.storage := storage;
      published := [];
    }

    /** `saveVisitor(visitor)`: overwrite the slot with the whole record. */
    method Save()
      modifies this
      ensures storage == Some(visitor)
      ensures visitor == old(visitor) && published == old(published)
    {
      storage := Some(visitor);
    }

    /** `abone.reset()`: empty the slot; the page's `visitor` is kept. */
    method Reset()
      modifies this
      ensures storage == None
      ensures visitor == old(visitor) && published == old(published)
    {
      storage := None;
    }

    /**
     * The page reflects `run`, reached from the state `(v0, s0, p0)` in which
     * `applyTests` started: the visitor holds the run's assignments and is
     * otherwise `v0`; every assignment made since is announced, in order;
     * storage holds the visitor once anything was assigned and is `s0`
     * otherwise.
     */
    ghost predicate Follows(run: Run, v0: Visitor, s0: Option<Visitor>, p0: seq<Assignment>)
      reads this
    {
      && |v0.assignments| <= |run.assignments| && run.assignments[..|v0.assignments|] == v0.assignments
      && visitor == v0.(assignments := run.assignments)
      && published == p0 + run.assignments[|v0.assignments|..]
      && storage == if |run.assignments| == |v0.assignments| then s0 else Some(visitor)
    }

    /**
     * The body of the loop of `applyTests` for one test, up to `applyVariant`:
     * reuse the visitor's assignment for the test (`Resolve` gives `Reused`),
     * or draw a variant, append the assignment, save the visitor and emit
     * `variant_assigned` (`Assigned`). `ok` is false when the test has no
     * variant to draw (`test.variants[0]` is `undefined` and reading its
     * `suffix` throws). The page moves with the run from `prev` to
     * `Step(prev, ...)`.
     */
    method ApplyTest(test: Test, roll: real, now: string,
                     ghost prev: Run, ghost v0: Visitor, ghost s0: Option<Visitor>, ghost p0: seq<Assignment>)
      returns (suffix: string, ok: bool)
      requires ValidRoll(roll) && !prev.crashed && Follows(prev, v0, s0, p0)
      modifies this
      ensures var next := Step(prev, test, roll, now);
        && ok == !next.crashed
        && (ok ==> next.suffixes == prev.suffixes + [suffix])
        && Follows(next, v0, s0, p0)
    {
      var existing := FindAssignment(visitor.assignments, test.id);
      if existing.Some? {
        return existing.value.variantSuffix, true;
      }
      if |test.variants| == 0 {
        return "", false;
      }
      var variant := test.variants[PickIndex(roll, |test.variants|)];
      suffix := variant.suffix;
      var entry := Assignment(test.id, suffix, now);
      visitor := visitor.(assignments := visitor.assignments + [entry]);
      Save();
      published := published + [entry];
      ok := true;
      ghost var n := |v0.assignments|;
      assert (prev.assignments + [entry])[..n] == prev.assignments[..n];
      assert (prev.assignments + [entry])[n..] == prev.assignments[n..] + [entry];
    }

    /**
     * `applyTests(relevantTests)`: the loop follows `ApplyAll` step by step,
     * and the page ends reflecting the run `ApplyAll` makes: see `Follows`.
     * `applyVariant` is called with the suffix of each test processed. A test
     * without variants that needs an assignment ends the loop (`completed` is
     * false). An empty list, where the source returns early after logging
     * "No relevant tests found.", runs no iteration and changes nothing.
     */
    method ApplyTests(relevantTests: seq<Test>, rolls: seq<real>, now: string, view: string)
      returns (actions: seq<ViewAction>, completed: bool)
      requires |relevantTests| <= |rolls| && ValidRolls(rolls)
      modifies this
      ensures Follows(ApplyAll(old(visitor.assignments), relevantTests, rolls, now), old(visitor), old(storage), old(published))
      ensures actions == Actions(view, ApplyAll(old(visitor.assignments), relevantTests, rolls, now).suffixes)
      ensures completed == !ApplyAll(old(visitor.assignments), relevantTests, rolls, now).crashed
    {
      ghost var v0, s0, p0 := visitor, storage, published;
      ghost var trace := Trace(visitor.assignments, relevantTests, rolls, now);
      assert visitor.assignments[..|v0.assignments|] == v0.assignments;
      assert visitor.assignments[|v0.assignments|..] == [];
      actions := [];
      completed := true;
      ghost var run := trace[0];
      var i := 0;
      while i < |relevantTests| && completed
        invariant 0 <= i <= |relevantTests| && run == trace[i]
        invariant completed == !run.crashed
        invariant Follows(run, v0, s0, p0)
        invariant actions == Actions(view, run.suffixes)
      {
        var suffix, ok := ApplyTest(relevantTests[i], rolls[i], now, run, v0, s0, p0);
        if ok {
          ActionsStep(view, run.suffixes, suffix);
          actions := actions + [ApplyVariant(view, suffix)];
        }
        completed := ok;
        i := i + 1;
        run := trace[i];
      }
    }
  }

  lemma ActionsStep(view: string, suffixes: seq<string>, s: string)
    ensures Actions(view, suffixes + [s]) == Actions(view, suffixes) + [ApplyVariant(view, s)]
  {
    assert (suffixes + [s])[..|suffixes|] == suffixes;
  }

  /**
   * `init()` (outside design mode): load the visitor, select the tests of the
   * page for the visitor's device and apply them. A new visitor is written to
   * storage only when some test assigns it a variant.
   */
  method Init(stored: Option<Visitor>, tests: seq<Test>, templateName: string, env: Environment,
              draws: seq<Nibble>, rolls: seq<real>, view: string)
    returns (session: Session, actions: seq<ViewAction>, completed: bool)
    requires |draws| == Draws && |tests| <= |rolls| && ValidRolls(rolls)
    ensures fresh(session)
    ensures var loaded := if Identity.HasId(stored) then stored.value else Identity.FreshVisitor(env, draws);
      var run := ApplyAll(loaded.assignments, Selector.RelevantTests(tests, templateName, loaded.device), rolls, env.now);
      && session.Follows(run, loaded, stored, [])
      && actions == Actions(view, run.suffixes)
      && completed == !run.crashed
  {
    var visitor, found := Identity.LoadVisitor(stored, env, draws);
    session := new Session(stored, visitor);
    var relevantTests := Selector.RelevantTests(tests, templateName, visitor.device);
    actions, completed := session.ApplyTests(relevantTests, rolls, env.now, view);
  }

  /**
   * What `init` saves is what the next page load reuses: once a test was newly
   * assigned, the slot holds a record with an id (so `loadVisitor` returns it
   * unchanged) and the same device (so the same tests are selected), and
   * applying those tests again, with any draws at any later time, assigns
   * nothing new and applies the same suffixes.
   */
  lemma SavedVisitorKeepsBuckets(session: Session, loaded: Visitor, stored: Option<Visitor>,
                                 relevantTests: seq<Test>, rolls: seq<real>, now: string,
                                 rolls': seq<real>, later: string)
    requires |relevantTests| <= |rolls| && ValidRolls(rolls)
    requires |relevantTests| <= |rolls'| && ValidRolls(rolls')
    requires loaded.id != ""
    requires !ApplyAll(loaded.assignments, relevantTests, rolls, now).crashed
    requires session.Follows(ApplyAll(loaded.assignments, relevantTests, rolls, now), loaded, stored, [])
    ensures var run := ApplyAll(loaded.assignments, relevantTests, rolls, now);
      |run.assignments| > |loaded.assignments| ==>
        && Identity.HasId(session.storage)
        && session.storage.value.device == loaded.device
        && ApplyAll(session.storage.value.assignments, relevantTests, rolls', later) == Run(run.assignments, run.suffixes, false)
  {
    ApplyAllStable(loaded.assignments, relevantTests, rolls, now, rolls', later);
  }

  /** A visitor created on this page is never bucketed into a tablet-only test. */
  lemma FreshVisitorSkipsTabletTests(tests: seq<Test>, templateName: string, env: Environment, draws: seq<Nibble>)
    requires |draws| == Draws
    ensures forall t :: t in Selector.RelevantTests(tests, templateName, Identity.FreshVisitor(env, draws).device) ==>
      t.deviceType != Only(Tablet)
  {
  }
}
