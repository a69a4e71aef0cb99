/** One typing test (`run_test`): the key loop as a state machine over a stream of keys,
    the recorded result, and its elapsed time (`TestResult::len`).

    The terminal is replaced by its inputs: `input` is the stream of keys `read_key`
    returns, and `clock[j]` is the time `Instant::now()` reads while key `j` is handled.
    A test reads the stream from position `pos` on; several tests read one stream in turn. */
module Session {
  import Basics

  /** A key as the terminal reports it; every key the loop ignores is `Other`. */
  datatype Key = Char(c: char) | Backspace | Escape | CtrlC | Other

  /** One entry of the key log: when a character was typed, and which. */
  datatype Keystroke = Keystroke(time: int, ch: char)

  /** `TestResult`: the target text, the key log, and the two counters. */
  datatype TestResult = TestResult(test: string, keys: seq<Keystroke>, correct: nat, incorrect: nat)

  /** The loop's variables: cursor `i`, key log, counters. */
  datatype State = State(i: nat, keys: seq<Keystroke>, correct: nat, incorrect: nat)

  /** What one key does: the loop goes on, the loop ends, or the test is cancelled. */
  datatype Turn = Continue(next: State) | Done(last: State) | Interrupted

  /** How a test ends: with a result (and the position of the first key it did not read),
      cancelled by Escape or Ctrl-C (`Err(Interrupted)`), or still waiting for a key
      when the stream runs out (`read_key` would block). */
  datatype Run = Finished(result: TestResult, next: nat) | Cancelled(error: Basics.Error) | Waiting(state: State)

  /** The error `run_test` returns on Escape or Ctrl-C. */
  const CancelError: Basics.Error := Basics.Interrupted(Basics.CanceledMessage)

  function Start(): State
  {
    State(0, [], 0, 0)
  }

  /** The invariant of the loop: the cursor is on a character of the target, every logged
      key was counted once, and the cursor never runs ahead of the log. */
  ghost predicate Valid(test: string, st: State)
  {
    && st.i < |test|
    && st.correct + st.incorrect == |st.keys|
    && st.i <= |st.keys|
  }

  /** One turn of the loop of `run_test` on key `key` read at time `now`. */
  function Step(test: string, st: State, key: Key, now: int): (t: Turn)
    requires st.i < |test|
    ensures t.Interrupted? <==> key == Escape || key == CtrlC
    ensures t.Done? ==> key.Char? && st.i + 1 == |test|
    ensures t.Continue? ==> t.next.i < |test|
  {
    match key
    case Escape => Interrupted
    case CtrlC => Interrupted
    case Backspace => Continue(if st.i > 0 then st.(i := st.i - 1) else st)
    case Char(c) =>
      var hit := c == test[st.i];
      var next := State(st.i + 1, st.keys + [Keystroke(now, c)],
                        if hit then st.correct + 1 else st.correct,
                        if hit then st.incorrect else st.incorrect + 1);
      if next.i == |test| then Done(next) else Continue(next)
    case Other => Continue(st)
  }

  /** A typed character logs exactly one keystroke `(now, c)`, adds one to exactly one
      counter — `correct` exactly when `c` is the target character under the cursor —
      and moves the cursor on by one; the test ends exactly when that reaches the end. */
  lemma StepChar(test: string, st: State, c: char, now: int)
    requires Valid(test, st)
    ensures var s := Step(test, st, Char(c), now);
      var next := if s.Done? then s.last else s.next;
      && !s.Interrupted?
      && (s.Done? <==> st.i + 1 == |test|)
      && next.keys == st.keys + [Keystroke(now, c)]
      && next.i == st.i + 1
      && (next.correct - st.correct) + (next.incorrect - st.incorrect) == 1
      && next.correct >= st.correct && next.incorrect >= st.incorrect
      && (next.correct == st.correct + 1 <==> c == test[st.i])
  {
  }

  /** Backspace moves the cursor back one place unless it is at the start, and changes
      nothing else; an ignored key changes nothing; Escape and Ctrl-C cancel. */
  lemma StepOtherKeys(test: string, st: State, key: Key, now: int)
    requires Valid(test, st) && !key.Char?
    ensures key == Backspace ==>
      Step(test, st, key, now) == Continue(st.(i := if st.i > 0 then st.i - 1 else 0))
    ensures key == Other ==> Step(test, st, key, now) == Continue(st)
    ensures key == Escape || key == CtrlC <==> Step(test, st, key, now) == Interrupted
  {
  }

  /** Every step keeps the loop invariant, and when the loop ends the cursor is at the end
      of the target and every logged key has been counted. */
  lemma StepValid(test: string, st: State, key: Key, now: int)
    requires Valid(test, st)
    ensures Step(test, st, key, now).Continue? ==> Valid(test, Step(test, st, key, now).next)
    ensures Step(test, st, key, now).Done? ==>
      var last := Step(test, st, key, now).last;
      last.i == |test| && last.correct + last.incorrect == |last.keys| && last.i <= |last.keys|
  {
  }

  /** The rest of the test from state `st`, reading the stream from position `pos`. */
  function RunFrom(test: string, st: State, input: seq<Key>, clock: seq<int>, pos: nat): (r: Run)
    requires Valid(test, st) && |clock| == |input| && pos <= |input|
    ensures r.Finished? ==> r.result.test == test && pos < r.next <= |input|
    ensures r.Cancelled? ==> r.error == CancelError && pos < |input|
    ensures r.Waiting? ==> r.state.i < |test|
    decreases |input| - pos
  {
    if pos == |input| then Waiting(st)
    else
      match Step(test, st, input[pos], clock[pos])
      case Interrupted => Cancelled(CancelError)
      case Done(last) => Finished(TestResult(test, last.keys, last.correct, last.incorrect), pos + 1)
      case Continue(next) =>
        StepValid(test, st, input[pos], clock[pos]);
        RunFrom(test, next, input, clock, pos + 1)
  }

  /** The keystrokes a stretch of the stream logs: its characters with their times. */
  function Typed(input: seq<Key>, clock: seq<int>, from: nat, to: nat): seq<Keystroke>
    requires |clock| == |input| && from <= to <= |input|
    decreases (to as int) - from
  {
    if from == to then []
    else (if input[from].Char? then [Keystroke(clock[from], input[from].c)] else [])
         + Typed(input, clock, from + 1, to)
  }

  /** The backspaces of the rest of the test that move the cursor (those read at place 0
      do nothing). */
  function Erasures(test: string, st: State, input: seq<Key>, clock: seq<int>, pos: nat): nat
    requires Valid(test, st) && |clock| == |input| && pos <= |input|
    decreases |input| - pos
  {
    if pos == |input| then 0
    else
      match Step(test, st, input[pos], clock[pos])
      case Continue(next) =>
        StepValid(test, st, input[pos], clock[pos]);
        (if input[pos] == Backspace && st.i > 0 then 1 else 0) + Erasures(test, next, input, clock, pos + 1)
      case _ => 0
  }

  /** A finished test keeps its target text, logs every character read — backspaces remove
      nothing from the log — and reads at least as many keys as characters were left to type. */
  lemma {:induction false} RunFinishedLog(test: string, st: State, input: seq<Key>, clock: seq<int>, pos: nat)
    requires Valid(test, st) && |clock| == |input| && pos <= |input|
    requires RunFrom(test, st, input, clock, pos).Finished?
    ensures var r := RunFrom(test, st, input, clock, pos);
      && r.result.test == test
      && pos + (|test| - st.i) <= r.next <= |input|
      && r.result.keys == st.keys + Typed(input, clock, pos, r.next)
    decreases |input| - pos
  {
    var key, now := input[pos], clock[pos];
    StepValid(test, st, key, now);
    if Step(test, st, key, now).Continue? {
      var next := Step(test, st, key, now).next;
      RunFinishedLog(test, next, input, clock, pos + 1);
      var r := RunFrom(test, next, input, clock, pos + 1);
      assert Typed(input, clock, pos, r.next)
          == (if key.Char? then [Keystroke(now, key.c)] else []) + Typed(input, clock, pos + 1, r.next);
    } else {
      assert Typed(input, clock, pos, pos + 1) == [Keystroke(now, key.c)];
    }
  }

  /** A finished test counts each logged key once, and logs as many keys as the target is long
      plus one for every backspace that moved the cursor. */
  lemma {:induction false} RunFinishedCounts(test: string, st: State, input: seq<Key>, clock: seq<int>, pos: nat)
    requires Valid(test, st) && |clock| == |input| && pos <= |input|
    requires RunFrom(test, st, input, clock, pos).Finished?
    ensures var r := RunFrom(test, st, input, clock, pos).result;
      && r.correct + r.incorrect == |r.keys|
      && |r.keys| == |test| + (|st.keys| - st.i) + Erasures(test, st, input, clock, pos)
    decreases |input| - pos
  {
    var key, now := input[pos], clock[pos];
    StepValid(test, st, key, now);
    if Step(test, st, key, now).Continue? {
      RunFinishedCounts(test, Step(test, st, key, now).next, input, clock, pos + 1);
    }
  }

  /** A test that runs out of keys keeps the loop invariant and has logged every character read. */
  lemma {:induction false} RunWaitingLog(test: string, st: State, input: seq<Key>, clock: seq<int>, pos: nat)
    requires Valid(test, st) && |clock| == |input| && pos <= |input|
    requires RunFrom(test, st, input, clock, pos).Waiting?
    ensures var w := RunFrom(test, st, input, clock, pos).state;
      Valid(test, w) && w.keys == st.keys + Typed(input, clock, pos, |input|)
    decreases |input| - pos
  {
    if pos < |input| {
      var key, now := input[pos], clock[pos];
      StepValid(test, st, key, now);
      var next := Step(test, st, key, now).next;
      RunWaitingLog(test, next, input, clock, pos + 1);
      var logged := if key.Char? then [Keystroke(now, key.c)] else [];
      assert next.keys == st.keys + logged;
      assert Typed(input, clock, pos, |input|) == logged + Typed(input, clock, pos + 1, |input|);
    }
  }

  /** The log of a test that runs out of keys is as long as the cursor's place plus the
      backspaces that moved it. */
  lemma {:induction false} RunWaitingCounts(test: string, st: State, input: seq<Key>, clock: seq<int>, pos: nat)
    requires Valid(test, st) && |clock| == |input| && pos <= |input|
    requires RunFrom(test, st, input, clock, pos).Waiting?
    ensures var w := RunFrom(test, st, input, clock, pos).state;
      |w.keys| == w.i + (|st.keys| - st.i) + Erasures(test, st, input, clock, pos)
    decreases |input| - pos
  {
    if pos < |input| {
      var key, now := input[pos], clock[pos];
      StepValid(test, st, key, now);
      RunWaitingCounts(test, Step(test, st, key, now).next, input, clock, pos + 1);
    }
  }

  /** A test is cancelled only by an Escape or a Ctrl-C in the stream. */
  lemma {:induction false} RunCancelled(test: string, st: State, input: seq<Key>, clock: seq<int>, pos: nat)
    requires Valid(test, st) && |clock| == |input| && pos <= |input|
    requires RunFrom(test, st, input, clock, pos).Cancelled?
    ensures RunFrom(test, st, input, clock, pos).error == CancelError
    ensures exists k :: pos <= k < |input| && (input[k] == Escape || input[k] == CtrlC)
    decreases |input| - pos
  {
    var key, now := input[pos], clock[pos];
    StepValid(test, st, key, now);
    if Step(test, st, key, now).Continue? {
      RunCancelled(test, Step(test, st, key, now).next, input, clock, pos + 1);
    }
  }

  /** What the rest of a test promises, whichever way it ends. */
  lemma RunFromFacts(test: string, st: State, input: seq<Key>, clock: seq<int>, pos: nat)
    requires Valid(test, st) && |clock| == |input| && pos <= |input|
    ensures var r := RunFrom(test, st, input, clock, pos);
      && (r.Finished? ==>
            && r.result.test == test
            && pos + (|test| - st.i) <= r.next <= |input|
            && r.result.keys == st.keys + Typed(input, clock, pos, r.next)
            && r.result.correct + r.result.incorrect == |r.result.keys|
            && |r.result.keys| == |test| + (|st.keys| - st.i) + Erasures(test, st, input, clock, pos))
      && (r.Waiting? ==>
            && Valid(test, r.state)
            && r.state.keys == st.keys + Typed(input, clock, pos, |input|)
            && |r.state.keys| == r.state.i + (|st.keys| - st.i) + Erasures(test, st, input, clock, pos))
      && (r.Cancelled? ==> r.error == CancelError)
      && (r.Cancelled? ==> exists k :: pos <= k < |input| && (input[k] == Escape || input[k] == CtrlC))
  {
    var r := RunFrom(test, st, input, clock, pos);
    if r.Finished? {
      RunFinishedLog(test, st, input, clock, pos);
      RunFinishedCounts(test, st, input, clock, pos);
    } else if r.Waiting? {
      RunWaitingLog(test, st, input, clock, pos);
      RunWaitingCounts(test, st, input, clock, pos);
    } else {
      RunCancelled(test, st, input, clock, pos);
    }
  }

  /** `run_test` on `test`, reading the key stream from position `pos`: the loop of the source
      over the variables `i`, `keys`, `correct` and `incorrect`. */
  method RunTest(test: string, input: seq<Key>, clock: seq<int>, pos: nat) returns (r: Run)
    requires |test| > 0 && |clock| == |input| && pos <= |input|
    ensures r == RunFrom(test, Start(), input, clock, pos)
    ensures r.Finished? ==>
      && r.result.test == test
      && pos + |test| <= r.next <= |input|
      && r.result.keys == Typed(input, clock, pos, r.next)
      && r.result.correct + r.result.incorrect == |r.result.keys|
      && |r.result.keys| == |test| + Erasures(test, Start(), input, clock, pos)
    ensures r.Cancelled? ==> r.error == CancelError
    ensures r.Cancelled? ==> exists k :: pos <= k < |input| && (input[k] == Escape || input[k] == CtrlC)
  {
    RunFromFacts(test, Start(), input, clock, pos);
    var i: nat, keys: seq<Keystroke>, correct: nat, incorrect: nat := 0, [], 0, 0;
    var j := pos;
    while true
      invariant pos <= j <= |input|
      invariant Valid(test, State(i, keys, correct, incorrect))
      invariant RunFrom(test, State(i, keys, correct, incorrect), input, clock, j)
             == RunFrom(test, Start(), input, clock, pos)
      decreases |input| - j
    {
      if j == |input| {
        return Waiting(State(i, keys, correct, incorrect));
      }
      var key, now := input[j], clock[j];
      j := j + 1;
      match key
      case Escape =>
        return Cancelled(CancelError);
      case CtrlC =>
        return Cancelled(CancelError);
      case Backspace =>
        if i > 0 {
          i := i - 1;
        }
      case Char(c) =>
        keys := keys + [Keystroke(now, c)];
        if c == test[i] {
          correct := correct + 1;
        } else {
          incorrect := incorrect + 1;
        }
        i := i + 1;
        if i == |test| {
          return Finished(TestResult(test, keys, correct, incorrect), j);
        }
      case Other =>
    }
  }

  /** The timestamps of a key log, in log order. */
  function Times(keys: seq<Keystroke>): seq<int>
  {
    seq(|keys|, k requires 0 <= k < |keys| => keys[k].time)
  }

  /** Each timestamp is no earlier than the one before it (a monotonic clock). */
  predicate NonDecreasing(ts: seq<int>)
  {
    forall k :: 0 <= k < |ts| - 1 ==> ts[k] <= ts[k + 1]
  }

  /** `TestResult::len`: the time from the first to the last logged keystroke, zero for an
      empty log. A `Duration` cannot be negative: a span that would be is zero. */
  function Elapsed(result: TestResult): (d: nat)
    ensures |result.keys| <= 1 ==> d == 0
  {
    if |result.keys| == 0 then 0
    else
      var span := result.keys[|result.keys| - 1].time - result.keys[0].time;
      if span < 0 then 0 else span
  }

  /** A log read off a monotonic clock is ordered by time, and none of its times is earlier
      than the clock's reading when the stretch began. */
  lemma {:induction false} TypedInOrder(input: seq<Key>, clock: seq<int>, from: nat, to: nat)
    requires |clock| == |input| && from <= to <= |input|
    requires NonDecreasing(clock)
    ensures NonDecreasing(Times(Typed(input, clock, from, to)))
    ensures forall t :: t in Times(Typed(input, clock, from, to)) ==> from < |clock| && clock[from] <= t
    decreases (to as int) - from
  {
    if from < to {
      TypedInOrder(input, clock, from + 1, to);
      var head := if input[from].Char? then [Keystroke(clock[from], input[from].c)] else [];
      var tail := Typed(input, clock, from + 1, to);
      var rest := Times(tail);
      assert Typed(input, clock, from, to) == head + tail;
      TimesAppend(head, tail);
      assert forall u :: u in rest ==> clock[from] <= u by {
        if from + 1 < to {
          assert clock[from] <= clock[from + 1];
        }
      }
      if input[from].Char? {
        assert Times(head) == [clock[from]];
        PrependOrdered(clock[from], rest);
      }
    }
  }

  lemma TimesAppend(a: seq<Keystroke>, b: seq<Keystroke>)
    ensures Times(a + b) == Times(a) + Times(b)
  {
  }

  /** A time no later than any of an ordered sequence's times can go in front of it. */
  lemma PrependOrdered(t: int, ts: seq<int>)
    requires NonDecreasing(ts)
    requires forall u :: u in ts ==> t <= u
    ensures NonDecreasing([t] + ts)
  {
    if |ts| > 0 {
      assert ts[0] in ts;
    }
  }

  /** On an ordered log, the elapsed time is exactly the span from the first keystroke to the
      last, and every keystroke lies within it. */
  lemma {:induction false} ElapsedSpansLog(result: TestResult)
    requires |result.keys| >= 1 && NonDecreasing(Times(result.keys))
    ensures Elapsed(result) == result.keys[|result.keys| - 1].time - result.keys[0].time
    ensures forall k :: 0 <= k < |result.keys| ==>
      result.keys[0].time <= result.keys[k].time <= result.keys[0].time + Elapsed(result)
  {
    var ts := Times(result.keys);
    OrderedBetween(ts);
    assert ts[0] == result.keys[0].time && ts[|ts| - 1] == result.keys[|ts| - 1].time;
    forall k | 0 <= k < |result.keys|
      ensures result.keys[0].time <= result.keys[k].time <= result.keys[|ts| - 1].time
    {
      assert ts[k] == result.keys[k].time;
    }
  }

  /** In a non-decreasing sequence every element lies between the first and the last. */
  lemma {:induction false} OrderedBetween(ts: seq<int>)
    requires |ts| >= 1 && NonDecreasing(ts)
    ensures forall k :: 0 <= k < |ts| ==> ts[0] <= ts[k] <= ts[|ts| - 1]
  {
    if |ts| > 1 {
      OrderedBetween(ts[1..]);
      assert ts[0] <= ts[1];
    }
  }

  /** A finished test read off a monotonic clock has an ordered log, so its elapsed time is the
      span from its first to its last keystroke. */
  lemma FinishedInOrder(test: string, input: seq<Key>, clock: seq<int>, pos: nat)
    requires |test| > 0 && |clock| == |input| && pos <= |input|
    requires NonDecreasing(clock)
    requires RunFrom(test, Start(), input, clock, pos).Finished?
    ensures var result := RunFrom(test, Start(), input, clock, pos).result;
      && |result.keys| >= |test|
      && NonDecreasing(Times(result.keys))
      && Elapsed(result) == result.keys[|result.keys| - 1].time - result.keys[0].time
  {
    var r := RunFrom(test, Start(), input, clock, pos);
    RunFinishedLog(test, Start(), input, clock, pos);
    RunFinishedCounts(test, Start(), input, clock, pos);
    TypedInOrder(input, clock, pos, r.next);
    assert r.result.keys == Typed(input, clock, pos, r.next);
    ElapsedSpansLog(r.result);
  }
}
