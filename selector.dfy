/**
 * `getRelevantTests(tests, templateName, visitor)`: the tests of the catalogue
 * that run on the current page for this visitor. Only the visitor's
 * `device.type` is read, so it is passed in place of the visitor.
 */
module Selector {
  import opened Common

  /**
   * The callback given to `tests.filter`, with its two early `return false`s:
   * together they keep a test exactly when it runs on the device (or on all
   * devices) and belongs to the page's template.
   */
  predicate Keep(test: Test, templateName: string, device: Device)
    ensures Keep(test, templateName, device) <==>
      (test.deviceType == Only(device) || test.deviceType == AllDevices) && test.category == templateName
  {
    if test.deviceType != Only(device) && test.deviceType != AllDevices then false
    else if test.category != templateName then false
    else true
  }

  /** `tests.filter(Keep)`: the kept tests, left to right. */
  function Filter(tests: seq<Test>, templateName: string, device: Device): (r: seq<Test>)
    ensures |r| <= |tests|
  {
    if tests == [] then []
    else
      var rest := Filter(tests[1..], templateName, device);
      if Keep(tests[0], templateName, device) then [tests[0]] + rest else rest
  }

  lemma {:induction false} FilterMembers(tests: seq<Test>, templateName: string, device: Device)
    ensures forall t :: t in Filter(tests, templateName, device) <==> t in tests && Keep(t, templateName, device)
  {
    if tests != [] {
      FilterMembers(tests[1..], templateName, device);
      assert forall t :: t in tests <==> t == tests[0] || t in tests[1..];
    }
  }

  /**
   * `getRelevantTests`: empty for an empty catalogue; otherwise a test is in
   * the result exactly when it targets the visitor's device or all devices and
   * its category is the page's template name.
   */
  function RelevantTests(tests: seq<Test>, templateName: string, device: Device): (r: seq<Test>)
    ensures |tests| == 0 ==> r == []
    ensures |r| <= |tests|
    ensures forall t :: t in r <==>
      t in tests && (t.deviceType == Only(device) || t.deviceType == AllDevices) && t.category == templateName
  {
    FilterMembers(tests, templateName, device);
    if |tests| == 0 then [] else Filter(tests, templateName, device)
  }

  /** The survivors keep their catalogue order: they sit at increasing positions of `tests`. */
  lemma RelevantTestsInOrder(tests: seq<Test>, templateName: string, device: Device)
    ensures exists positions :: Embeds(positions, RelevantTests(tests, templateName, device), tests)
  {
    var positions := FilterPositions(tests, templateName, device);
    assert RelevantTests(tests, templateName, device) == Filter(tests, templateName, device);
  }

  /** `positions` are increasing positions of `whole` at which the elements of `part` stand. */
  predicate Embeds(positions: seq<nat>, part: seq<Test>, whole: seq<Test>) {
    && |positions| == |part|
    && (forall k :: 0 <= k < |part| ==> positions[k] < |whole| && part[k] == whole[positions[k]])
    && (forall k, l :: 0 <= k < l < |positions| ==> positions[k] < positions[l])
  }

  lemma {:induction false} FilterPositions(tests: seq<Test>, templateName: string, device: Device)
    returns (positions: seq<nat>)
    ensures Embeds(positions, Filter(tests, templateName, device), tests)
  {
    if tests == [] {
      positions := [];
    } else {
      var rest := FilterPositions(tests[1..], templateName, device);
      var tail := Filter(tests[1..], templateName, device);
      var shifted := EmbedsInTail(rest, tail, tests);
      if Keep(tests[0], templateName, device) {
        positions := EmbedsWithHead(shifted, tail, tests);
      } else {
        positions := shifted;
      }
    }
  }

  lemma EmbedsInTail(positions: seq<nat>, part: seq<Test>, whole: seq<Test>) returns (shifted: seq<nat>)
    requires whole != [] && Embeds(positions, part, whole[1..])
    ensures Embeds(shifted, part, whole)
    ensures forall k :: 0 <= k < |shifted| ==> shifted[k] >= 1
  {
    shifted := seq(|positions|, k requires 0 <= k < |positions| => positions[k] + 1);
    forall k | 0 <= k < |part| ensures shifted[k] < |whole| && part[k] == whole[shifted[k]] {
      assert part[k] == whole[1..][positions[k]];
    }
  }

  lemma EmbedsWithHead(positions: seq<nat>, part: seq<Test>, whole: seq<Test>) returns (extended: seq<nat>)
    requires whole != [] && Embeds(positions, part, whole)
    requires forall k :: 0 <= k < |positions| ==> positions[k] >= 1
    ensures Embeds(extended, [whole[0]] + part, whole)
  {
    extended := [0] + positions;
    var r := [whole[0]] + part;
    forall k | 0 <= k < |r| ensures extended[k] < |whole| && r[k] == whole[extended[k]] {
      if k > 0 { assert r[k] == part[k - 1] && extended[k] == positions[k - 1]; }
    }
    forall k, l | 0 <= k < l < |extended| ensures extended[k] < extended[l] {
      if k > 0 { assert extended[k] == positions[k - 1]; }
      assert extended[l] == positions[l - 1];
    }
  }

  /**
   * Selecting from a catalogue made of two parts selects from each part and
   * keeps the parts in order; with the one-test case this pins the result
   * down completely.
   */
  lemma {:induction false} RelevantTestsAppend(front: seq<Test>, back: seq<Test>, templateName: string, device: Device)
    ensures RelevantTests(front + back, templateName, device) ==
      RelevantTests(front, templateName, device) + RelevantTests(back, templateName, device)
  {
    FilterAppend(front, back, templateName, device);
    if front == [] { assert front + back == back; }
    if back == [] { assert front + back == front; }
  }

  lemma {:induction false} FilterAppend(front: seq<Test>, back: seq<Test>, templateName: string, device: Device)
    ensures Filter(front + back, templateName, device) == Filter(front, templateName, device) + Filter(back, templateName, device)
  {
    if front == [] {
      assert front + back == back;
    } else {
      assert (front + back)[1..] == front[1..] + back;
      FilterAppend(front[1..], back, templateName, device);
    }
  }

  /**
   * A test of the catalogue for all devices is selected for visitors on every
   * device once its category matches, and only then.
   */
  lemma AllDevicesTestSelected(tests: seq<Test>, test: Test, templateName: string)
    requires test in tests && test.deviceType == AllDevices
    ensures (forall device :: test in RelevantTests(tests, templateName, device)) <==> test.category == templateName
  {
    if test.category != templateName {
      assert test !in RelevantTests(tests, templateName, Desktop);
    }
  }

  /** Selecting again from the selection changes nothing. */
  lemma {:induction false} RelevantTestsIdempotent(tests: seq<Test>, templateName: string, device: Device)
    ensures var r := RelevantTests(tests, templateName, device);
      RelevantTests(r, templateName, device) == r
  {
    FilterIdempotent(tests, templateName, device);
  }

  lemma {:induction false} FilterIdempotent(tests: seq<Test>, templateName: string, device: Device)
    ensures Filter(Filter(tests, templateName, device), templateName, device) == Filter(tests, templateName, device)
  {
    if tests != [] {
      FilterIdempotent(tests[1..], templateName, device);
      var rest := Filter(tests[1..], templateName, device);
      if Keep(tests[0], templateName, device) {
        assert ([tests[0]] + rest)[1..] == rest;
      }
    }
  }
}
