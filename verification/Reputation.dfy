/** Reputation as an exponential moving average of feedback, each record applied once. */
module Reputation {
  import opened Wrappers

  const ALPHA := 0.1
  const INITIAL := 0.5

  datatype Feedback = Feedback(feedbackId: string, executionId: string, agentId: string, score: real,
                               normalized: real, applied: bool)

  /** What an execution row keeps of its latest feedback. */
  datatype FeedbackCopy = FeedbackCopy(feedbackId: string, score: real, normalized: real)
  datatype ExecutionRow = ExecutionRow(agentId: string, feedback: Option<FeedbackCopy>)

  datatype Score = Score(score: real, count: nat)

  function Clamp(value: real): (r: real)
    ensures 0.0 <= r <= 1.0 && (0.0 <= value <= 1.0 ==> r == value)
    ensures value < r ==> r == 0.0
    ensures value > r ==> r == 1.0
  {
    if value < 0.0 then 0.0 else if value > 1.0 then 1.0 else value
  }

  /** One step of the average. */
  function Blend(score: real, s: real): real {
    ALPHA * s + (1.0 - ALPHA) * score
  }

  function Fold(score: real, scores: seq<real>): real {
    if scores == [] then score else Blend(Fold(score, scores[..|scores| - 1]), scores[|scores| - 1])
  }

  /** The scores of an agent's records, in stored order. */
  function ScoresOf(rows: seq<Feedback>, agentId: string): seq<real> {
    if rows == [] then [] else
      var front, f := ScoresOf(rows[..|rows| - 1], agentId), rows[|rows| - 1];
      if f.agentId == agentId then front + [f.normalized] else front
  }

  /** The scores of an agent's records not applied yet. */
  function PendingOf(rows: seq<Feedback>, agentId: string): seq<real> {
    if rows == [] then [] else
      var front, f := PendingOf(rows[..|rows| - 1], agentId), rows[|rows| - 1];
      if f.agentId == agentId && !f.applied then front + [f.normalized] else front
  }

  /** An agent without a row has the initial reputation. */
  function ScoreFor(table: map<string, Score>, agentId: string): Score {
    if agentId in table then table[agentId] else Score(INITIAL, 0)
  }

  /** Every agent's score is the fold of all its feedback, and every record has been applied. */
  ghost predicate Settled(rows: seq<Feedback>, table: map<string, Score>) {
    && (forall i | 0 <= i < |rows| :: rows[i].applied && 0.0 <= rows[i].normalized <= 1.0)
    && forall agent {:trigger ScoreFor(table, agent)} ::
         ScoreFor(table, agent) == Score(Fold(INITIAL, ScoresOf(rows, agent)), |ScoresOf(rows, agent)|)
  }

  // ----- The closed form

  function Decay(k: nat): real {
    if k == 0 then 1.0 else 0.9 * Decay(k - 1)
  }

  /** The sum of 0.1 * 0.9^(k-i) * s_i over the scores, the latest with weight 0.1. */
  function WeightedSum(scores: seq<real>): real {
    if scores == [] then 0.0 else ALPHA * Decay(|scores| - 1) * scores[0] + WeightedSum(scores[1..])
  }

  lemma {:induction false} WeightedSumSnoc(scores: seq<real>, s: real)
    ensures WeightedSum(scores + [s]) == 0.9 * WeightedSum(scores) + ALPHA * s
  {
    if scores == [] {
      assert [] + [s] == [s] && WeightedSum([s][1..]) == 0.0;
    } else {
      WeightedSumSnoc(scores[1..], s);
      assert (scores + [s])[1..] == scores[1..] + [s];
      assert Decay(|scores|) == 0.9 * Decay(|scores| - 1);
    }
  }

  /** The score after k feedbacks is 0.9^k * start plus the weighted sum of the feedback scores. */
  lemma {:induction false} FoldClosedForm(score: real, scores: seq<real>)
    ensures Fold(score, scores) == Decay(|scores|) * score + WeightedSum(scores)
  {
    if scores == [] {
    } else {
      var front, last := scores[..|scores| - 1], scores[|scores| - 1];
      FoldClosedForm(score, front);
      WeightedSumSnoc(front, last);
      assert scores == front + [last];
    }
  }

  /** The score never leaves [0, 1]. */
  lemma {:induction false} FoldStaysInRange(score: real, scores: seq<real>)
    requires 0.0 <= score <= 1.0 && forall i | 0 <= i < |scores| :: 0.0 <= scores[i] <= 1.0
    ensures 0.0 <= Fold(score, scores) <= 1.0
  {
    if scores == [] {
    } else {
      FoldStaysInRange(score, scores[..|scores| - 1]);
    }
  }

  /** After k further feedbacks of one score s the distance to s has shrunk by exactly 0.9^k. */
  lemma {:induction false} DistanceShrinks(score: real, scores: seq<real>, s: real)
    requires forall i | 0 <= i < |scores| :: scores[i] == s
    ensures Fold(score, scores) - s == Decay(|scores|) * (score - s)
  {
    if scores == [] {
    } else {
      DistanceShrinks(score, scores[..|scores| - 1], s);
    }
  }

  // ----- The tables

  lemma {:induction false} NothingPending(rows: seq<Feedback>, agentId: string)
    requires forall i | 0 <= i < |rows| :: rows[i].applied
    ensures PendingOf(rows, agentId) == []
  {
    if rows == [] {
    } else {
      NothingPending(rows[..|rows| - 1], agentId);
    }
  }

  lemma OnlyNewPending(rows: seq<Feedback>, f: Feedback, score: real)
    requires !f.applied && forall i | 0 <= i < |rows| :: rows[i].applied
    ensures PendingOf(rows + [f], f.agentId) == [f.normalized]
    ensures Fold(score, [f.normalized]) == Blend(score, f.normalized)
  {
    NothingPending(rows, f.agentId);
    assert (rows + [f])[..|rows|] == rows;
    assert [f.normalized][..0] == [];
  }

  class LearningService {
    var feedback: seq<Feedback>
    var reputation: map<string, Score>
    var executions: map<string, ExecutionRow>

    /** The service beside an execution table, before any feedback. */
    constructor (executions: map<string, ExecutionRow>)
      ensures Settled(feedback, reputation) && feedback == [] && reputation == map[] && this.executions == executions
    {
      feedback, reputation, this.executions := [], map[], executions;
      new;
      assert forall agent :: ScoresOf([], agent) == [];
    }

    /** `updateReputation`: every pending record of the agent is folded in and marked, in stored order. */
    method UpdateReputation(agentId: string) returns (r: Score)
      modifies this`feedback, this`reputation
      ensures r == Score(Fold(old(ScoreFor(reputation, agentId)).score, PendingOf(old(feedback), agentId)),
                         old(ScoreFor(reputation, agentId)).count + |PendingOf(old(feedback), agentId)|)
      ensures reputation == old(reputation)[agentId := r]
      ensures |feedback| == |old(feedback)|
      ensures forall i | 0 <= i < |feedback| ::
                var f := old(feedback)[i];
                feedback[i] == f.(applied := f.applied || f.agentId == agentId)
    {
      var current := ScoreFor(reputation, agentId);
      var score, count := current.score, current.count;
      ghost var before := feedback;
      for i := 0 to |feedback|
        invariant |feedback| == |before| && reputation == old(reputation)
        invariant score == Fold(current.score, PendingOf(before[..i], agentId))
        invariant count == current.count + |PendingOf(before[..i], agentId)|
        invariant forall j | i <= j < |before| :: feedback[j] == before[j]
        invariant forall j | 0 <= j < i ::
                    feedback[j] == before[j].(applied := before[j].applied || before[j].agentId == agentId)
      {
        assert before[..i + 1][..i] == before[..i];
        var f := feedback[i];
        if f.agentId == agentId && !f.applied {
          ghost var pending := PendingOf(before[..i], agentId);
          assert (pending + [f.normalized])[..|pending|] == pending;
          score := ALPHA * f.normalized + (1.0 - ALPHA) * score;
          count := count + 1;
          feedback := feedback[i := f.(applied := true)];
        }
      }
      assert before[..|before|] == before;
      r := Score(score, count);
      reputation := reputation[agentId := r];
    }

    /**
      * `submitFeedback`: throws for an unknown execution and changes nothing; otherwise the new record
      * is applied to the agent of the execution, copied onto its row, and nothing is applied twice.
      */
    method SubmitFeedback(feedbackId: string, executionId: string, score: real) returns (r: Outcome<Feedback>)
      requires Settled(feedback, reputation)
      modifies this
      ensures Settled(feedback, reputation)
      ensures r.Returned? <==> executionId in old(executions)
      ensures r.Threw? ==>
                feedback == old(feedback) && reputation == old(reputation) && executions == old(executions)
      ensures r.Returned? ==>
                var agentId, s := old(executions)[executionId].agentId, Clamp(score / 5.0);
                && r.value == Feedback(feedbackId, executionId, agentId, score, s, true)
                && feedback == old(feedback) + [r.value]
                && ScoreFor(reputation, agentId)
                   == Score(Blend(old(ScoreFor(reputation, agentId)).score, s),
                            old(ScoreFor(reputation, agentId)).count + 1)
                && 0.0 <= ScoreFor(reputation, agentId).score <= 1.0
                && var copy := FeedbackCopy(feedbackId, score, s);
                && executions == old(executions)[executionId := ExecutionRow(agentId, Some(copy))]
      ensures forall other {:trigger ScoreFor(reputation, other)} :: r.Threw? || other != r.value.agentId ==>
                ScoreFor(reputation, other) == old(ScoreFor(reputation, other))
    {
      if executionId !in executions {
        return Threw;
      }
      var agentId := executions[executionId].agentId;
      ghost var before, table := feedback, reputation;
      var normalized := Clamp(score / 5.0);
      var f := Feedback(feedbackId, executionId, agentId, score, normalized, false);
      OnlyNewPending(before, f, ScoreFor(table, agentId).score);
      feedback := feedback + [f];
      var updated := UpdateReputation(agentId);
      assert feedback == before + [f.(applied := true)];
      SubmittedSettled(before, table, feedback, reputation, agentId, normalized);
      var copy := FeedbackCopy(feedbackId, score, normalized);
      executions := executions[executionId := executions[executionId].(feedback := Some(copy))];
      r := Returned(f.(applied := true));
    }
  }

  lemma {:induction false} ScoresInRange(rows: seq<Feedback>, agentId: string)
    requires forall i | 0 <= i < |rows| :: 0.0 <= rows[i].normalized <= 1.0
    ensures forall i | 0 <= i < |ScoresOf(rows, agentId)| :: 0.0 <= ScoresOf(rows, agentId)[i] <= 1.0
  {
    if rows == [] {
    } else {
      ScoresInRange(rows[..|rows| - 1], agentId);
    }
  }

  /** What every agent's reputation is, from its feedback alone. */
  lemma ReputationIs(rows: seq<Feedback>, table: map<string, Score>, agentId: string)
    requires Settled(rows, table)
    ensures var scores := ScoresOf(rows, agentId);
            && ScoreFor(table, agentId).count == |scores|
            && ScoreFor(table, agentId).score == Decay(|scores|) * 0.5 + WeightedSum(scores)
            && 0.0 <= ScoreFor(table, agentId).score <= 1.0
  {
    FoldClosedForm(INITIAL, ScoresOf(rows, agentId));
    ScoresInRange(rows, agentId);
    FoldStaysInRange(INITIAL, ScoresOf(rows, agentId));
  }

  lemma SubmittedSettled(before: seq<Feedback>, table: map<string, Score>, rows: seq<Feedback>,
                         table': map<string, Score>, agentId: string, s: real)
    requires Settled(before, table) && 0.0 <= s <= 1.0
    requires |rows| == |before| + 1 && rows[..|before|] == before
    requires rows[|before|].agentId == agentId && rows[|before|].normalized == s && rows[|before|].applied
    requires table' == table[agentId := Score(Blend(ScoreFor(table, agentId).score, s),
                                              ScoreFor(table, agentId).count + 1)]
    ensures Settled(rows, table') && 0.0 <= ScoreFor(table', agentId).score <= 1.0
  {
    forall agent
      ensures ScoreFor(table', agent) == Score(Fold(INITIAL, ScoresOf(rows, agent)), |ScoresOf(rows, agent)|)
    {
      assert ScoreFor(table, agent) == Score(Fold(INITIAL, ScoresOf(before, agent)), |ScoresOf(before, agent)|);
      var scores := ScoresOf(before, agent);
      assert (scores + [s])[..|scores|] == scores;
    }
    forall i | 0 <= i < |rows|
      ensures rows[i].applied && 0.0 <= rows[i].normalized <= 1.0
    {
      assert i < |before| ==> rows[i] == before[i];
    }
    ScoresInRange(rows, agentId);
    FoldStaysInRange(INITIAL, ScoresOf(rows, agentId));
  }
}
