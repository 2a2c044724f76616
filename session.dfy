/**
 * Sequential goal progression of the continuous mode: the session's fields,
 * their initialisation, one pass of the monitoring loop and the loop itself
 * (`ContinuousVimSession`, src/continuous_session.rs).
 */
module ContinuousSession {
  import opened Wrappers
  import opened VimState
  import opened GoalCompiler
  import opened StatusLine

  datatype FlowType = Sequential | AnyOrder | Parallel

  datatype ContinuousExercise = ContinuousExercise(
    title: string,
    description: string,
    sampleCode: seq<string>,
    goals: seq<ExerciseGoal>,
    flowType: FlowType)

  datatype ExerciseResult = Completed | Incomplete | Failed(message: string)

  /** What the loop writes to the progress file: the 1-based number of the new current goal, or `completed`. */
  datatype Progress = NextGoal(number: nat) | AllCompleted

  /** How far a run of the sequential policy got, and the compile error that stopped it, if any. */
  datatype Run = Run(advanced: nat, failure: Option<GoalError>)

  /**
   * The sequential policy as a function of the goals still ahead and the
   * snapshots to come: each snapshot is checked against the first goal ahead
   * only, which is compiled at that moment; a satisfied goal moves the run on
   * to the next goal and the next snapshot; a goal that does not compile
   * stops the run.
   */
  function Advance(goals: seq<ExerciseGoal>, states: seq<State>): (r: Run)
    ensures r.advanced <= |goals| && r.advanced <= |states|
    ensures r.failure.Some? ==>
      r.advanced < |goals| && ConvertGoalDefinition(goals[r.advanced]) == Err(r.failure.value)
    decreases |states|
  {
    if goals == [] || states == [] then Run(0, None)
    else
      match ConvertGoalDefinition(goals[0])
      case Err(e) => Run(0, Some(e))
      case Ok(g) =>
        if CheckGoal(g, states[0]) then
          var rest := Advance(goals[1..], states[1..]);
          Run(rest.advanced + 1, rest.failure)
        else Advance(goals, states[1..])
  }

  /**
   * The goals can be matched, in their order, to snapshots each strictly later
   * than the one matched before.
   */
  ghost predicate InOrder(goals: seq<ExerciseGoal>, states: seq<State>)
    decreases |goals|
  {
    goals == [] ||
    (ConvertGoalDefinition(goals[0]).Ok? &&
     exists i :: 0 <= i < |states| &&
       CheckGoal(ConvertGoalDefinition(goals[0]).value, states[i]) && InOrder(goals[1..], states[i + 1..]))
  }

  /** A later start of the snapshots still matches what a suffix matches. */
  lemma {:induction false} InOrderExtend(goals: seq<ExerciseGoal>, states: seq<State>, k: nat)
    requires k <= |states| && InOrder(goals, states[k..])
    ensures InOrder(goals, states)
  {
    if goals != [] {
      var suffix := states[k..];
      var i :| 0 <= i < |suffix| &&
        CheckGoal(ConvertGoalDefinition(goals[0]).value, suffix[i]) && InOrder(goals[1..], suffix[i + 1..]);
      assert suffix[i] == states[k + i];
      assert suffix[i + 1..] == states[k + i + 1..];
    }
  }

  /** A run that gets through every goal has matched them in order. */
  lemma {:induction false} AdvanceCompleteSound(goals: seq<ExerciseGoal>, states: seq<State>)
    requires Advance(goals, states).advanced == |goals|
    ensures InOrder(goals, states)
    decreases |states|
  {
    if goals != [] {
      var g := ConvertGoalDefinition(goals[0]).value;
      if CheckGoal(g, states[0]) {
        AdvanceCompleteSound(goals[1..], states[1..]);
        assert states[0 + 1..] == states[1..];
      } else {
        AdvanceCompleteSound(goals, states[1..]);
        InOrderExtend(goals, states, 1);
      }
    }
  }

  /** Goals that can be matched in order are all got through: checking greedily loses nothing. */
  lemma {:induction false} AdvanceCompleteComplete(goals: seq<ExerciseGoal>, states: seq<State>)
    requires InOrder(goals, states)
    ensures Advance(goals, states).advanced == |goals|
    decreases |states|
  {
    if goals != [] {
      var g := ConvertGoalDefinition(goals[0]).value;
      var i :| 0 <= i < |states| && CheckGoal(g, states[i]) && InOrder(goals[1..], states[i + 1..]);
      if CheckGoal(g, states[0]) {
        assert states[i + 1..] == states[1..][i..];
        InOrderExtend(goals[1..], states[1..], i);
        AdvanceCompleteComplete(goals[1..], states[1..]);
      } else {
        assert states[1..][i - 1] == states[i];
        assert states[1..][i - 1 + 1..] == states[i + 1..];
        AdvanceCompleteComplete(goals, states[1..]);
      }
    }
  }

  /** The sequential policy completes exactly when the goals are satisfied in order by successive snapshots. */
  lemma CompletesIffInOrder(goals: seq<ExerciseGoal>, states: seq<State>)
    ensures Advance(goals, states).advanced == |goals| <==> InOrder(goals, states)
  {
    if Advance(goals, states).advanced == |goals| {
      AdvanceCompleteSound(goals, states);
    }
    if InOrder(goals, states) {
      AdvanceCompleteComplete(goals, states);
    }
  }

  /**
   * One more snapshot moves a run that neither failed nor got through every
   * goal by at most the goal it stopped at: that goal is compiled, and
   * checked against the new snapshot.
   */
  lemma {:induction false} AdvanceSnoc(goals: seq<ExerciseGoal>, states: seq<State>, s: State)
    ensures var r := Advance(goals, states);
      Advance(goals, states + [s]) ==
        if r.failure.Some? || r.advanced == |goals| then r
        else
          match ConvertGoalDefinition(goals[r.advanced])
          case Err(e) => Run(r.advanced, Some(e))
          case Ok(g) => if CheckGoal(g, s) then Run(r.advanced + 1, None) else r
    decreases |states|
  {
    if states == [] {
      assert [s][1..] == [];
      if goals != [] {
        assert Advance(goals[1..], []) == Run(0, None);
      }
    } else if goals != [] {
      assert (states + [s])[0] == states[0];
      assert (states + [s])[1..] == states[1..] + [s];
      match ConvertGoalDefinition(goals[0])
      case Err(e) =>
      case Ok(g) =>
        if CheckGoal(g, states[0]) {
          AdvanceSnoc(goals[1..], states[1..], s);
          var r := Advance(goals[1..], states[1..]);
          if r.advanced < |goals[1..]| {
            assert goals[1..][r.advanced] == goals[r.advanced + 1];
          }
        } else {
          AdvanceSnoc(goals, states[1..], s);
        }
    }
  }

  /** One pass of the monitoring loop: keep polling, possibly after a progress signal; finished; or a compile error. */
  datatype StepResult = Continue(signal: Option<Progress>) | Finish | Abort(error: GoalError)

  /**
   * What one pass of the loop does with snapshot `s` when goal `index` of
   * `goals` is current: the new index and the pass's result.
   */
  function StepOn(goals: seq<ExerciseGoal>, index: nat, s: State): (r: (nat, StepResult))
    ensures index <= r.0 <= index + 1
    ensures index <= |goals| ==> r.0 <= |goals|
    ensures r.0 == index + 1 <==> r.1 == Finish || (r.1.Continue? && r.1.signal.Some?)
    ensures r.1 == Finish ==> r.0 == |goals|
    ensures r.1.Continue? && r.1.signal.Some? ==> r.0 < |goals| && r.1.signal.value == NextGoal(r.0 + 1)
  {
    if index >= |goals| then (index, Continue(None))
    else
      match ConvertGoalDefinition(goals[index])
      case Err(e) => (index, Abort(e))
      case Ok(g) =>
        if !CheckGoal(g, s) then (index, Continue(None))
        else if index + 1 >= |goals| then (index + 1, Finish)
        else (index + 1, Continue(Some(NextGoal(index + 2))))
  }

  /** Goals before the index are completed and none from it on: the sequential progress invariant. */
  predicate SequentialProgress(completed: seq<bool>, index: nat)
  {
    index <= |completed| && forall i :: 0 <= i < |completed| ==> (completed[i] <==> i < index)
  }

  /** The signal written when the index becomes `index` among `count` goals. */
  function SignalFor(index: nat, count: nat): Progress
  {
    if index == count then AllCompleted else NextGoal(index + 1)
  }

  /** The progress signals written while the index moves from `from` to `to` among `count` goals. */
  function Published(from: nat, to: nat, count: nat): (signals: seq<Progress>)
    requires from <= to
    ensures |signals| == to - from
  {
    if to == from then [] else Published(from, to - 1, count) + [SignalFor(to, count)]
  }

  /** Completing the current goal and moving to the next keeps the sequential progress invariant. */
  lemma SequentialProgressAdvance(completed: seq<bool>, index: nat)
    requires SequentialProgress(completed, index) && index < |completed|
    ensures SequentialProgress(completed[index := true], index + 1)
  {
  }

  /** How `monitor_progress` left, or that it was still polling when the polls given ran out. */
  datatype Monitoring = Returned(result: ExerciseResult) | Errored(error: GoalError) | Polling

  /** Where a run of the monitoring loop ended: how it left, the goal index, the signals written and the polls read. */
  datatype Monitored = Monitored(outcome: Monitoring, index: nat, published: seq<Progress>, polled: nat, kept: Option<State>)

  /** The signal a pass writes, as a sequence of at most one element. */
  function Signals(signal: Option<Progress>): seq<Progress>
  {
    if signal.Some? then [signal.value] else []
  }

  /** The snapshot kept after the first `n` polls went on polling: the last one read, or `before` when none was. */
  function LastSnapshot(before: Option<State>, snapshots: seq<State>, n: nat): Option<State>
    requires n <= |snapshots|
  {
    if n == 0 then before else Some(snapshots[n - 1])
  }

  /**
   * One pass of the monitoring loop over snapshot `s`, unless the loop has
   * already left: the index and result are StepOn's, a progress signal is
   * written when a goal is satisfied, and one more poll is counted.
   */
  function Poll(goals: seq<ExerciseGoal>, m: Monitored, s: State): (next: Monitored)
    requires m.index <= |goals|
    ensures m.index <= next.index <= |goals| && next.polled <= m.polled + 1
    ensures !m.outcome.Polling? ==> next == m
    ensures m.outcome.Polling? ==> next.polled == m.polled + 1 && m.published <= next.published
  {
    if !m.outcome.Polling? then m
    else
      var (j, r) := StepOn(goals, m.index, s);
      match r
      case Finish => Monitored(Returned(Completed), j, m.published + [AllCompleted], m.polled + 1, m.kept)
      case Abort(e) => Monitored(Errored(e), j, m.published, m.polled + 1, m.kept)
      case Continue(signal) => Monitored(Polling, j, m.published + Signals(signal), m.polled + 1, Some(s))
  }

  /**
   * The monitoring loop after the first `n` polls of the status file, from
   * goal `index` on: one pass per poll, until a pass finishes the exercise or
   * meets a goal that does not compile; the polls after that are not read.
   */
  function MonitorAfter(goals: seq<ExerciseGoal>, index: nat, last: Option<State>, snapshots: seq<State>, n: nat): (m: Monitored)
    requires index <= |goals| && n <= |snapshots|
    ensures index <= m.index <= |goals| && m.polled <= n
    ensures m.outcome.Polling? ==> m.polled == n && m.kept == LastSnapshot(last, snapshots, n)
    ensures !m.outcome.Polling? ==>
      (m.outcome == Returned(Completed) || m.outcome.Errored?) &&
      1 <= m.polled && m.kept == LastSnapshot(last, snapshots, m.polled - 1)
    decreases n
  {
    if n == 0 then Monitored(Polling, index, [], 0, last)
    else Poll(goals, MonitorAfter(goals, index, last, snapshots, n - 1), snapshots[n - 1])
  }

  /** Once the loop has left, more polls change nothing: the rest are never read. */
  lemma {:induction false} StoppedStays(goals: seq<ExerciseGoal>, index: nat, last: Option<State>, snapshots: seq<State>, n: nat, n': nat)
    requires index <= |goals| && n <= n' <= |snapshots|
    requires !MonitorAfter(goals, index, last, snapshots, n).outcome.Polling?
    ensures MonitorAfter(goals, index, last, snapshots, n') == MonitorAfter(goals, index, last, snapshots, n)
    decreases n'
  {
    if n < n' {
      StoppedStays(goals, index, last, snapshots, n, n' - 1);
    }
  }

  /** One pass publishes exactly the signals for the goals it moved past. */
  lemma PollPublished(goals: seq<ExerciseGoal>, i: nat, m: Monitored, s: State)
    requires i <= m.index <= |goals| && m.published == Published(i, m.index, |goals|)
    ensures var next := Poll(goals, m, s);
      i <= next.index && next.published == Published(i, next.index, |goals|)
  {
  }

  /** One progress signal per goal satisfied: the loop has written the signals for every index it moved to. */
  lemma {:induction false} MonitorPublished(goals: seq<ExerciseGoal>, i: nat, last: Option<State>, snapshots: seq<State>, n: nat)
    requires i <= |goals| && n <= |snapshots|
    ensures var m := MonitorAfter(goals, i, last, snapshots, n);
      m.published == Published(i, m.index, |goals|)
    decreases n
  {
    if n > 0 {
      MonitorPublished(goals, i, last, snapshots, n - 1);
      PollPublished(goals, i, MonitorAfter(goals, i, last, snapshots, n - 1), snapshots[n - 1]);
    }
  }

  /**
   * The loop from goal `i` is at run `run` of the sequential policy: the same
   * index, `Completed` exactly when the last goal was satisfied by the loop,
   * and an error exactly when the run stopped on one.
   */
  ghost predicate Follows(goals: seq<ExerciseGoal>, i: nat, m: Monitored, run: Run)
  {
    && m.index == i + run.advanced
    && (m.outcome == Returned(Completed) <==> i < |goals| == m.index)
    && (m.outcome.Errored? <==> run.failure.Some?)
    && (m.outcome.Errored? ==> m.outcome.error == run.failure.value)
  }

  /** A pass keeps the loop in step with the run given one more snapshot. */
  lemma PollFollows(goals: seq<ExerciseGoal>, i: nat, m: Monitored, states: seq<State>, s: State)
    requires i <= m.index <= |goals|
    requires !m.outcome.Polling? ==> m.outcome == Returned(Completed) || m.outcome.Errored?
    requires Follows(goals, i, m, Advance(goals[i..], states))
    ensures Follows(goals, i, Poll(goals, m, s), Advance(goals[i..], states + [s]))
  {
    AdvanceSnoc(goals[i..], states, s);
    if m.outcome.Polling? && m.index < |goals| {
      assert goals[i..][m.index - i] == goals[m.index];
    }
  }

  /**
   * The monitoring loop follows the sequential policy over the snapshots it
   * read: the index moves exactly as far as Advance gets, one progress signal
   * is written per goal satisfied, the loop returns `Completed` exactly when
   * it satisfies the last goal, and leaves with an error exactly when Advance
   * stops on one, and then with that error.
   */
  lemma {:induction false} MonitorFollowsAdvance(goals: seq<ExerciseGoal>, i: nat, last: Option<State>, snapshots: seq<State>, n: nat)
    requires i <= |goals| && n <= |snapshots|
    ensures Follows(goals, i, MonitorAfter(goals, i, last, snapshots, n), Advance(goals[i..], snapshots[..n]))
    decreases n
  {
    if n > 0 {
      MonitorFollowsAdvance(goals, i, last, snapshots, n - 1);
      assert snapshots[..n] == snapshots[..n - 1] + [snapshots[n - 1]];
      PollFollows(goals, i, MonitorAfter(goals, i, last, snapshots, n - 1), snapshots[..n - 1], snapshots[n - 1]);
    }
    assert Follows(goals, i, MonitorAfter(goals, i, last, snapshots, n), Advance(goals[i..], snapshots[..n]));
  }

  /**
   * From the first goal, the loop returns `Completed` within the snapshots
   * given exactly when the goals are satisfied in their order by successive
   * snapshots.
   */
  lemma MonitorCompletesIffInOrder(goals: seq<ExerciseGoal>, last: Option<State>, snapshots: seq<State>)
    requires |goals| > 0
    ensures MonitorAfter(goals, 0, last, snapshots, |snapshots|).outcome == Returned(Completed) <==>
      InOrder(goals, snapshots)
  {
    MonitorFollowsAdvance(goals, 0, last, snapshots, |snapshots|);
    assert goals[0..] == goals && snapshots[..|snapshots|] == snapshots;
    CompletesIffInOrder(goals, snapshots);
  }

  class Session {
    var currentExercise: Option<ContinuousExercise>
    var currentGoalIndex: nat
    var completedGoals: seq<bool>
    var lastState: Option<State>
    var monitoringActive: bool

    ghost predicate Valid()
      reads this
    {
      match currentExercise
      case None => currentGoalIndex == 0 && completedGoals == [] && !monitoringActive
      case Some(exercise) =>
        |completedGoals| == |exercise.goals| && SequentialProgress(completedGoals, currentGoalIndex)
    }

    /** `ContinuousVimSession::new`: no exercise, index 0, nothing completed, not monitoring. */
    constructor ()
      ensures Valid()
      ensures currentExercise == None && currentGoalIndex == 0 && completedGoals == []
      ensures lastState == None && !monitoringActive
    {
      currentExercise := None;
      currentGoalIndex := 0;
      completedGoals := [];
      lastState := None;
      monitoringActive := false;
    }

    /**
     * The progress part of `start_exercise`. `launch` is the error with which starting
     * the editor failed, if it did (the tmux session, or Neovim when tmux is missing):
     * that error is returned and nothing changes. Otherwise every goal is not completed,
     * the first one is current and monitoring is on. The source then reads the first
     * goal's description, so a launched exercise needs at least one goal.
     */
    method StartExercise(exercise: ContinuousExercise, launch: Option<string>) returns (r: Result<(), string>)
      requires launch.None? ==> |exercise.goals| > 0
      modifies this`currentExercise, this`completedGoals, this`currentGoalIndex, this`monitoringActive
      ensures launch.Some? ==> r == Err(launch.value) && unchanged(this)
      ensures launch.None? ==> r == Ok(()) && Valid()
      ensures launch.None? ==> currentExercise == Some(exercise)
      ensures launch.None? ==> completedGoals == seq(|exercise.goals|, _ => false)
      ensures launch.None? ==> currentGoalIndex == 0 && monitoringActive
    {
      if launch.Some? {
        return Err(launch.value);
      }
      currentExercise := Some(exercise);
      completedGoals := seq(|exercise.goals|, _ => false);
      currentGoalIndex := 0;
      monitoringActive := true;
      r := Ok(());
    }

    /** The progress part of `stop_exercise`: monitoring off, progress kept. */
    method StopExercise()
      requires Valid()
      modifies this`monitoringActive
      ensures Valid() && !monitoringActive
    {
      monitoringActive := false;
    }

    /**
     * One pass of the body of `monitor_progress`'s loop, after the status file
     * was read as the snapshot `s`: only the current goal is compiled and checked; if
     * it holds it is marked completed and the next goal becomes current.
     */
    method Step(s: State) returns (r: StepResult)
      requires Valid()
      modifies this`currentGoalIndex, this`completedGoals, this`lastState
      ensures Valid()
      ensures currentExercise.Some? ==>
        var step := StepOn(currentExercise.value.goals, old(currentGoalIndex), s);
        currentGoalIndex == step.0 && r == step.1
      ensures currentExercise.None? ==> r == Continue(None) && currentGoalIndex == old(currentGoalIndex)
      ensures completedGoals ==
        if currentGoalIndex == old(currentGoalIndex) then old(completedGoals)
        else old(completedGoals)[old(currentGoalIndex) := true]
      ensures lastState == if r.Continue? then Some(s) else old(lastState)
    {
      r := Continue(None);
      if currentExercise.Some? {
        var exercise := currentExercise.value;
        if currentGoalIndex < |exercise.goals| {
          var compiled := ConvertGoalDefinition(exercise.goals[currentGoalIndex]);
          if compiled.Err? {
            return Abort(compiled.error);
          }
          if CheckGoal(compiled.value, s) {
            SequentialProgressAdvance(completedGoals, currentGoalIndex);
            completedGoals := completedGoals[currentGoalIndex := true];
            currentGoalIndex := currentGoalIndex + 1;
            if currentGoalIndex >= |exercise.goals| {
              return Finish;
            }
            r := Continue(Some(NextGoal(currentGoalIndex + 1)));
          }
        }
      }
      lastState := Some(s);
    }

    /**
     * `monitor_progress` over the snapshots the status file was read as on
     * successive polls: `polled` of them were used. Not monitoring gives
     * `Incomplete` at once; otherwise the loop is where MonitorAfter says after
     * those polls, and it is still polling only when every snapshot was used.
     * The snapshot kept is that of the last pass that went on polling.
     */
    method MonitorProgress(snapshots: seq<State>) returns (outcome: Monitoring, published: seq<Progress>, polled: nat)
      requires Valid()
      modifies this`currentGoalIndex, this`completedGoals, this`lastState
      ensures Valid()
      ensures !monitoringActive ==>
        outcome == Returned(Incomplete) && published == [] && polled == 0 &&
        currentGoalIndex == old(currentGoalIndex) && completedGoals == old(completedGoals) &&
        lastState == old(lastState)
      ensures monitoringActive ==>
        polled <= |snapshots| && (outcome.Polling? ==> polled == |snapshots|) &&
        Monitored(outcome, currentGoalIndex, published, polled, lastState) ==
          MonitorAfter(currentExercise.value.goals, old(currentGoalIndex), old(lastState), snapshots, polled)
    {
      published, polled := [], 0;
      if !monitoringActive {
        return Returned(Incomplete), published, polled;
      }
      var goals := currentExercise.value.goals;
      ghost var start := currentGoalIndex;
      while monitoringActive && polled < |snapshots|
        invariant Valid() && goals == currentExercise.value.goals
        invariant polled <= |snapshots| && start <= |goals|
        invariant MonitorAfter(goals, start, old(lastState), snapshots, polled) ==
          Monitored(Polling, currentGoalIndex, published, polled, lastState)
      {
        var r := Step(snapshots[polled]);
        polled := polled + 1;
        match r {
          case Finish =>
            published := published + [AllCompleted];
            return Returned(Completed), published, polled;
          case Abort(e) =>
            return Errored(e), published, polled;
          case Continue(signal) =>
            published := published + Signals(signal);
        }
      }
      outcome := Polling;
    }
  }
}
