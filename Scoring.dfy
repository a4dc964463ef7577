/** The session counters: answers right and wrong since the last restart,
    and the current run of right answers. */
module Scoring {

  datatype Score = Score(correct: nat, incorrect: nat, streak: nat)

  const Zero := Score(0, 0, 0)

  /** The update one submitted answer makes: a right answer adds to the
      right count and lengthens the run, a wrong one adds to the wrong count
      and ends the run. */
  function Step(s: Score, isRight: bool): Score {
    if isRight then Score(s.correct + 1, s.incorrect, s.streak + 1)
    else Score(s.correct, s.incorrect + 1, 0)
  }

  /** The counters after the answers of log, oldest first, from zero. */
  function Replay(log: seq<bool>): Score {
    if log == [] then Zero else Step(Replay(log[..|log| - 1]), log[|log| - 1])
  }

  /** Scoring one more answer is one more step of the fold. */
  lemma ReplaySnoc(log: seq<bool>, isRight: bool)
    ensures Replay(log + [isRight]) == Step(Replay(log), isRight)
  {
    assert (log + [isRight])[..|log|] == log;
  }

  /** The counters count the right and the wrong answers of the log. */
  lemma {:induction false} ReplayCounts(log: seq<bool>)
    ensures Replay(log).correct == multiset(log)[true]
    ensures Replay(log).incorrect == multiset(log)[false]
    ensures Replay(log).correct + Replay(log).incorrect == |log|
  {
    if log != [] {
      var init := log[..|log| - 1];
      ReplayCounts(init);
      assert log == init + [log[|log| - 1]];
      assert multiset(log) == multiset(init) + multiset{log[|log| - 1]};
    }
  }

  /** The streak is the length of the run of right answers that ends the
      log: all of its last streak answers are right, and the one before them,
      if any, is wrong. */
  lemma {:induction false} ReplayStreak(log: seq<bool>)
    ensures Replay(log).streak <= |log|
    ensures forall j :: |log| - Replay(log).streak <= j < |log| ==> log[j]
    ensures Replay(log).streak < |log| ==> !log[|log| - 1 - Replay(log).streak]
  {
    if log != [] {
      var init := log[..|log| - 1];
      ReplayStreak(init);
      assert forall j :: 0 <= j < |init| ==> init[j] == log[j];
    }
  }

  /** A run of right answers never exceeds the right answers counted. */
  lemma {:induction false} StreakAtMostCorrect(log: seq<bool>)
    ensures Replay(log).streak <= Replay(log).correct
  {
    if log != [] {
      StreakAtMostCorrect(log[..|log| - 1]);
    }
  }

  /** Right, right, wrong, right: three right, one wrong, a run of one. */
  lemma ReplayExample()
    ensures Replay([true, true, false, true]) == Score(3, 1, 1)
  {
    var log := [true, true, false, true];
    assert log[..3] == [true, true, false];
    assert log[..3][..2] == [true, true];
    assert log[..3][..2][..1] == [true];
    assert Replay([true]) == Score(1, 0, 1);
    assert Replay([true, true]) == Score(2, 0, 2);
    assert Replay([true, true, false]) == Score(2, 1, 0);
  }
}
