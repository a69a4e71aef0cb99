/** The retry loop of `main`: a test is run again, on the same text, while its speed or
    accuracy is below a configured minimum; and the permutation mode, which runs its tests
    one after the other. Speed and accuracy are floating-point figures computed from a
    result; they are supplied by a `measure` function. */
module Retry {
  import opened Basics
  import opened Session

  /** The optional minimums `--min-wpm` and `--min-accuracy` (a percentage). */
  datatype Thresholds = Thresholds(minWpm: Option<real>, minAccuracy: Option<real>)

  /** The figures of one result: words per minute, and accuracy as a fraction of 1. */
  datatype Metrics = Metrics(wpm: real, accuracy: real)

  /** The guard of the retry `while`: a minimum that is set and not reached. */
  predicate ShouldRetry(th: Thresholds, m: Metrics)
    ensures ShouldRetry(th, m) ==> th.minWpm.Some? || th.minAccuracy.Some?
  {
    || (th.minWpm.Some? && m.wpm < th.minWpm.value)
    || (th.minAccuracy.Some? && m.accuracy < th.minAccuracy.value / 100.0)
  }

  /** A result passes when it reaches every minimum that is set. */
  predicate Passes(th: Thresholds, m: Metrics)
  {
    && (th.minWpm.None? || m.wpm >= th.minWpm.value)
    && (th.minAccuracy.None? || m.accuracy * 100.0 >= th.minAccuracy.value)
  }

  /** The loop retries exactly when the result does not pass; with no minimum set it never retries. */
  lemma RetryUnlessPassed(th: Thresholds, m: Metrics)
    ensures ShouldRetry(th, m) <==> !Passes(th, m)
    ensures th.minWpm.None? && th.minAccuracy.None? ==> !ShouldRetry(th, m)
  {
  }

  /** A result at 30 words per minute and 80% accuracy is retried under `--min-wpm 40`, and
      passes under `--min-accuracy 70` alone. */
  lemma ThresholdExamples()
    ensures ShouldRetry(Thresholds(Some(40.0), None), Metrics(30.0, 0.8))
    ensures !ShouldRetry(Thresholds(None, Some(70.0)), Metrics(30.0, 0.8))
  {
  }

  /** How a test with its retries ends: every run (the last one passed, all before it did
      not) and the position of the first key not read; cancelled; or waiting for keys. */
  datatype Practice = Passed(runs: seq<TestResult>, next: nat) | Aborted(error: Error) | Pending

  /** `runs` in front of the runs of `p`. */
  function Prepend(runs: seq<TestResult>, p: Practice): Practice
  {
    if p.Passed? then Passed(runs + p.runs, p.next) else p
  }

  /** A test and its retries, reading the key stream from `pos`: each retry runs on the text
      of the result before it. */
  function PracticeFrom(test: string, input: seq<Key>, clock: seq<int>, th: Thresholds,
                        measure: TestResult -> Metrics, pos: nat): (p: Practice)
    requires |test| > 0 && |clock| == |input| && pos <= |input|
    ensures p.Passed? ==> |p.runs| >= 1 && pos < p.next <= |input|
    decreases |input| - pos
  {
    RunFromFacts(test, Start(), input, clock, pos);
    match RunFrom(test, Start(), input, clock, pos)
    case Cancelled(error) => Aborted(error)
    case Waiting(_) => Pending
    case Finished(result, next) =>
      if ShouldRetry(th, measure(result)) then
        Prepend([result], PracticeFrom(result.test, input, clock, th, measure, next))
      else
        Passed([result], next)
  }

  /** The runs of one test: at least one, all on the text `test`, the last passing the
      thresholds and every one before it failing them. */
  predicate RetriedUntilPassed(test: string, runs: seq<TestResult>, th: Thresholds, measure: TestResult -> Metrics)
  {
    && |runs| >= 1
    && (forall k :: 0 <= k < |runs| ==> runs[k].test == test)
    && !ShouldRetry(th, measure(runs[|runs| - 1]))
    && (forall k :: 0 <= k < |runs| - 1 ==> ShouldRetry(th, measure(runs[k])))
  }

  /** A failing run on `test` in front of runs on `test` that end by passing. */
  lemma RetriedCons(test: string, run: TestResult, runs: seq<TestResult>, th: Thresholds,
                    measure: TestResult -> Metrics)
    requires run.test == test && ShouldRetry(th, measure(run))
    requires RetriedUntilPassed(test, runs, th, measure)
    ensures RetriedUntilPassed(test, [run] + runs, th, measure)
  {
    var all := [run] + runs;
    assert forall k :: 1 <= k < |all| ==> all[k] == runs[k - 1];
  }

  /** With neither minimum set, a test is run exactly once. */
  lemma NoThresholdsOneRun(test: string, runs: seq<TestResult>, th: Thresholds, measure: TestResult -> Metrics)
    requires RetriedUntilPassed(test, runs, th, measure)
    requires th.minWpm.None? && th.minAccuracy.None?
    ensures |runs| == 1
  {
    assert !ShouldRetry(th, measure(runs[0]));
  }

  /** Every retry runs on the very same text; the last run passes the thresholds and every
      run before it does not; with no threshold set there is exactly one run; a test is
      aborted only by an Escape or a Ctrl-C in the stream. */
  lemma {:induction false} PracticeFacts(test: string, input: seq<Key>, clock: seq<int>, th: Thresholds,
                                         measure: TestResult -> Metrics, pos: nat)
    requires |test| > 0 && |clock| == |input| && pos <= |input|
    ensures var p := PracticeFrom(test, input, clock, th, measure, pos);
      && (p.Passed? ==>
            && pos < p.next <= |input|
            && RetriedUntilPassed(test, p.runs, th, measure)
            && (th.minWpm.None? && th.minAccuracy.None? ==> |p.runs| == 1))
      && (p.Aborted? ==> p.error == CancelError)
      && (p.Aborted? ==> exists k :: pos <= k < |input| && (input[k] == Escape || input[k] == CtrlC))
    decreases |input| - pos
  {
    PracticeUnfold(test, input, clock, th, measure, pos);
    var run := RunFrom(test, Start(), input, clock, pos);
    var p := PracticeFrom(test, input, clock, th, measure, pos);
    if run.Cancelled? {
      RunCancelled(test, Start(), input, clock, pos);
    } else if run.Finished? && ShouldRetry(th, measure(run.result)) {
      PracticeFacts(test, input, clock, th, measure, run.next);
      var rest := PracticeFrom(test, input, clock, th, measure, run.next);
      if rest.Passed? {
        RetriedCons(test, run.result, rest.runs, th, measure);
      }
    }
    if p.Passed? && th.minWpm.None? && th.minAccuracy.None? {
      NoThresholdsOneRun(test, p.runs, th, measure);
    }
  }

  /** One run of a test, seen from the retry loop: a finished run that does not pass is
      followed by the runs from where it stopped; a run that did not finish ends the test. */
  lemma PracticeUnfold(test: string, input: seq<Key>, clock: seq<int>, th: Thresholds,
                       measure: TestResult -> Metrics, pos: nat)
    requires |test| > 0 && |clock| == |input| && pos <= |input|
    ensures var run := RunFrom(test, Start(), input, clock, pos);
      && (run.Cancelled? ==> PracticeFrom(test, input, clock, th, measure, pos) == Aborted(run.error))
      && (run.Waiting? ==> PracticeFrom(test, input, clock, th, measure, pos) == Pending)
      && (run.Finished? ==>
            && pos < run.next <= |input|
            && run.result.test == test
            && PracticeFrom(test, input, clock, th, measure, pos)
               == if ShouldRetry(th, measure(run.result))
                  then Prepend([run.result], PracticeFrom(test, input, clock, th, measure, run.next))
                  else Passed([run.result], run.next))
  {
    RunFromFacts(test, Start(), input, clock, pos);
  }

  lemma PrependTwice(a: seq<TestResult>, b: seq<TestResult>, p: Practice)
    ensures Prepend(a, Prepend(b, p)) == Prepend(a + b, p)
  {
    if p.Passed? {
      assert a + (b + p.runs) == (a + b) + p.runs;
    }
  }

  /** The first run of a test and the `while` loop that runs it again on `result.test`
      while the thresholds are not reached. */
  method RunPractice(test: string, input: seq<Key>, clock: seq<int>, th: Thresholds,
                  measure: TestResult -> Metrics, pos: nat) returns (p: Practice)
    requires |test| > 0 && |clock| == |input| && pos <= |input|
    ensures p == PracticeFrom(test, input, clock, th, measure, pos)
    ensures p.Passed? ==> RetriedUntilPassed(test, p.runs, th, measure)
    ensures p.Passed? && th.minWpm.None? && th.minAccuracy.None? ==> |p.runs| == 1
    ensures p.Aborted? ==> p.error == CancelError
  {
    PracticeFacts(test, input, clock, th, measure, pos);
    PracticeUnfold(test, input, clock, th, measure, pos);
    var run := RunTest(test, input, clock, pos);
    if !run.Finished? {
      return if run.Cancelled? then Aborted(run.error) else Pending;
    }
    var result, start, next := run.result, pos, run.next;
    var earlier: seq<TestResult> := [];
    while ShouldRetry(th, measure(result))
      invariant pos <= start < next <= |input|
      invariant result.test == test
      invariant RunFrom(test, Start(), input, clock, start) == Finished(result, next)
      invariant PracticeFrom(test, input, clock, th, measure, pos)
             == Prepend(earlier, PracticeFrom(test, input, clock, th, measure, start))
      decreases |input| - start
    {
      PracticeUnfold(test, input, clock, th, measure, start);
      PracticeUnfold(test, input, clock, th, measure, next);
      PrependTwice(earlier, [result], PracticeFrom(test, input, clock, th, measure, next));
      run := RunTest(result.test, input, clock, next);
      if !run.Finished? {
        return if run.Cancelled? then Aborted(run.error) else Pending;
      }
      earlier := earlier + [result];
      result, start, next := run.result, next, run.next;
    }
    PracticeUnfold(test, input, clock, th, measure, start);
    p := Passed(earlier + [result], next);
  }

  /** How the permutation mode ends: the runs of every test, in test order; cancelled; or
      waiting for keys. */
  datatype Drive = Completed(groups: seq<seq<TestResult>>, next: nat) | Stopped(error: Error) | Stalled

  /** `groups` in front of the groups of `d`. */
  function PrependGroups(groups: seq<seq<TestResult>>, d: Drive): Drive
  {
    if d.Completed? then Completed(groups + d.groups, d.next) else d
  }

  /** The tests from the `k`-th on, each with its retries, reading the key stream from `pos`. */
  function DriveFrom(tests: seq<string>, k: nat, input: seq<Key>, clock: seq<int>, th: Thresholds,
                     measure: TestResult -> Metrics, pos: nat): (d: Drive)
    requires k <= |tests| && (forall t :: t in tests ==> |t| > 0)
    requires |clock| == |input| && pos <= |input|
    ensures d.Completed? ==> |d.groups| == |tests| - k && pos <= d.next <= |input|
    decreases |tests| - k
  {
    if k == |tests| then Completed([], pos)
    else
      PracticeFacts(tests[k], input, clock, th, measure, pos);
      match PracticeFrom(tests[k], input, clock, th, measure, pos)
      case Aborted(error) => Stopped(error)
      case Pending => Stalled
      case Passed(runs, next) => PrependGroups([runs], DriveFrom(tests, k + 1, input, clock, th, measure, next))
  }

  /** One group of runs per test, in test order: each group runs on its test's text and ends
      with a run that passes. */
  predicate AllPassed(tests: seq<string>, groups: seq<seq<TestResult>>, th: Thresholds,
                      measure: TestResult -> Metrics)
  {
    && |groups| == |tests|
    && forall g :: 0 <= g < |tests| ==> RetriedUntilPassed(tests[g], groups[g], th, measure)
  }

  /** Every test is practised, in order, each until it passes and always on its own text;
      the mode stops only on an Escape or a Ctrl-C in the stream. */
  lemma {:induction false} DriveFacts(tests: seq<string>, k: nat, input: seq<Key>, clock: seq<int>,
                                      th: Thresholds, measure: TestResult -> Metrics, pos: nat)
    requires k <= |tests| && (forall t :: t in tests ==> |t| > 0)
    requires |clock| == |input| && pos <= |input|
    ensures var d := DriveFrom(tests, k, input, clock, th, measure, pos);
      && (d.Completed? ==> AllPassed(tests[k..], d.groups, th, measure))
      && (d.Stopped? ==> d.error == CancelError)
      && (d.Stopped? ==> exists j :: pos <= j < |input| && (input[j] == Escape || input[j] == CtrlC))
    decreases |tests| - k
  {
    if k < |tests| {
      PracticeFacts(tests[k], input, clock, th, measure, pos);
      DriveUnfold(tests, k, input, clock, th, measure, pos);
      var p := PracticeFrom(tests[k], input, clock, th, measure, pos);
      if p.Passed? {
        DriveFacts(tests, k + 1, input, clock, th, measure, p.next);
        var rest := DriveFrom(tests, k + 1, input, clock, th, measure, p.next);
        if rest.Completed? {
          assert tests[k..] == [tests[k]] + tests[k + 1..];
          AllPassedCons(tests[k], p.runs, tests[k + 1..], rest.groups, th, measure);
        }
      }
    }
  }

  /** A test whose runs pass, in front of tests whose runs pass. */
  lemma AllPassedCons(test: string, runs: seq<TestResult>, tests: seq<string>, groups: seq<seq<TestResult>>,
                      th: Thresholds, measure: TestResult -> Metrics)
    requires RetriedUntilPassed(test, runs, th, measure)
    requires AllPassed(tests, groups, th, measure)
    ensures AllPassed([test] + tests, [runs] + groups, th, measure)
  {
    var all, gs := [test] + tests, [runs] + groups;
    assert forall g :: 1 <= g < |all| ==> gs[g] == groups[g - 1] && all[g] == tests[g - 1];
  }

  /** One test, seen from the permutation mode's loop. */
  lemma DriveUnfold(tests: seq<string>, k: nat, input: seq<Key>, clock: seq<int>, th: Thresholds,
                    measure: TestResult -> Metrics, pos: nat)
    requires k < |tests| && (forall t :: t in tests ==> |t| > 0)
    requires |clock| == |input| && pos <= |input|
    ensures var p := PracticeFrom(tests[k], input, clock, th, measure, pos);
      && (p.Aborted? ==> DriveFrom(tests, k, input, clock, th, measure, pos) == Stopped(p.error))
      && (p.Pending? ==> DriveFrom(tests, k, input, clock, th, measure, pos) == Stalled)
      && (p.Passed? ==>
            && p.next <= |input|
            && DriveFrom(tests, k, input, clock, th, measure, pos)
               == PrependGroups([p.runs], DriveFrom(tests, k + 1, input, clock, th, measure, p.next)))
  {
    PracticeFacts(tests[k], input, clock, th, measure, pos);
  }

  lemma PrependGroupsTwice(a: seq<seq<TestResult>>, b: seq<seq<TestResult>>, d: Drive)
    ensures PrependGroups(a, PrependGroups(b, d)) == PrependGroups(a + b, d)
  {
    if d.Completed? {
      assert a + (b + d.groups) == (a + b) + d.groups;
    }
  }

  /** The permutation mode of `main`: the tests in order, each run until it passes. */
  method PermutationMode(tests: seq<string>, input: seq<Key>, clock: seq<int>, th: Thresholds,
                         measure: TestResult -> Metrics) returns (d: Drive)
    requires forall t :: t in tests ==> |t| > 0
    requires |clock| == |input|
    ensures d == DriveFrom(tests, 0, input, clock, th, measure, 0)
    ensures d.Completed? ==> AllPassed(tests, d.groups, th, measure)
    ensures d.Stopped? ==> d.error == CancelError
  {
    var groups: seq<seq<TestResult>> := [];
    var pos: nat := 0;
    for k := 0 to |tests|
      invariant pos <= |input|
      invariant DriveFrom(tests, 0, input, clock, th, measure, 0)
             == PrependGroups(groups, DriveFrom(tests, k, input, clock, th, measure, pos))
    {
      assert tests[k] in tests;
      DriveUnfold(tests, k, input, clock, th, measure, pos);
      var p := RunPractice(tests[k], input, clock, th, measure, pos);
      if !p.Passed? {
        return if p.Aborted? then Stopped(p.error) else Stalled;
      }
      PrependGroupsTwice(groups, [p.runs], DriveFrom(tests, k + 1, input, clock, th, measure, p.next));
      groups := groups + [p.runs];
      pos := p.next;
    }
    assert groups + [] == groups;
    d := Completed(groups, pos);
    DriveFacts(tests, 0, input, clock, th, measure, 0);
    assert tests[0..] == tests;
  }
}
