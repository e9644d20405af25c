/** Feedback on receipts and the learning signals it emits. */
module VarrFeedback {
  import opened Wrappers
  import opened Text
  import opened MemoryStore
  import opened VarrPolicy
  import opened VarrRuntime

  datatype Label = Accepted | RejectedLabel | Corrected | Disputed | Unsafe | LowQuality

  datatype Feedback = Feedback(feedbackId: string, receiptId: string, verdict: Label, score: real)

  datatype PolicyResult = AllowedResult | Other(status: RunStatus)

  datatype Signal = Signal(signalId: string, receiptId: string, feedbackId: string, agentId: string, workflowId: string,
                           contextNamespace: string, outcome: Label, qualityScore: real, policyResult: PolicyResult,
                           level: RiskLevel)

  /** The signal `emit` builds from a receipt and the feedback on it. */
  function SignalFor(receipt: Receipt, feedback: Feedback, number: nat, namespace: string): Signal {
    Signal(NextId("learn", number), receipt.receiptId, feedback.feedbackId, receipt.agentId, receipt.workflowId,
           namespace, feedback.verdict, feedback.score,
           if receipt.status == Succeeded then AllowedResult else Other(receipt.status), receipt.level)
  }

  /** The i-th signal answers the i-th feedback, on an existing receipt with the same agent and workflow. */
  predicate Answers(signal: Signal, feedback: Feedback, number: nat, receipts: seq<Receipt>) {
    exists k | 0 <= k < |receipts| ::
      && receipts[k].receiptId == feedback.receiptId
      && signal == SignalFor(receipts[k], feedback, number, signal.contextNamespace)
  }

  /** Signals and feedback are in bijection, in order. */
  predicate Matched(feedback: seq<Feedback>, signals: seq<Signal>, receipts: seq<Receipt>) {
    |signals| == |feedback| && forall i | 0 <= i < |signals| :: Answers(signals[i], feedback[i], i + 1, receipts)
  }

  lemma SignalNumberIsFree(feedback: seq<Feedback>, signals: seq<Signal>, receipts: seq<Receipt>, i: nat)
    requires Matched(feedback, signals, receipts) && i < |signals|
    ensures signals[i].signalId != NextId("learn", |signals| + 1)
  {
    assert Answers(signals[i], feedback[i], i + 1, receipts);
    if signals[i].signalId == NextId("learn", |signals| + 1) {
      NextIdInjective("learn", i + 1, |signals| + 1);
    }
  }

  predicate UniqueFeedback(feedback: seq<Feedback>) {
    forall i, j | 0 <= i < j < |feedback| :: feedback[i].feedbackId != feedback[j].feedbackId
  }

  /** No feedback is counted twice and no signal answers two. */
  lemma SignalsAreDistinct(feedback: seq<Feedback>, signals: seq<Signal>, receipts: seq<Receipt>, i: nat, j: nat)
    requires Matched(feedback, signals, receipts) && UniqueFeedback(feedback)
    requires i < j < |signals|
    ensures signals[i].signalId != signals[j].signalId && signals[i].feedbackId != signals[j].feedbackId
  {
    assert Answers(signals[i], feedback[i], i + 1, receipts) && Answers(signals[j], feedback[j], j + 1, receipts);
    if signals[i].signalId == signals[j].signalId {
      NextIdInjective("learn", i + 1, j + 1);
    }
  }

  /** A further feedback with the signal that answers it. */
  lemma MatchedGrows(feedback: seq<Feedback>, signals: seq<Signal>, receipts: seq<Receipt>,
                     f: Feedback, signal: Signal, k: int)
    requires Matched(feedback, signals, receipts) && 0 <= k < |receipts| && receipts[k].receiptId == f.receiptId
    requires signal == SignalFor(receipts[k], f, |signals| + 1, signal.contextNamespace)
    ensures Matched(feedback + [f], signals + [signal], receipts)
  {
    forall i | 0 <= i <= |signals|
      ensures Answers((signals + [signal])[i], (feedback + [f])[i], i + 1, receipts)
    {
      assert i < |signals| ==> Answers(signals[i], feedback[i], i + 1, receipts);
    }
  }

  /** Later runs only add receipts, so earlier signals keep pointing to theirs. */
  lemma MatchedStays(feedback: seq<Feedback>, signals: seq<Signal>, receipts: seq<Receipt>, more: seq<Receipt>)
    requires Matched(feedback, signals, receipts) && receipts <= more
    ensures Matched(feedback, signals, more)
  {
  }

  /** The namespace of the receipt's first context, when it still exists. */
  function NamespaceFor(contexts: seq<Context>, idOf: Context -> string, receipt: Receipt): string {
    if receipt.contextRefs == [] || receipt.contextRefs[0] == "" then "unknown"
    else
      match Find(contexts, idOf, receipt.contextRefs[0])
      case Some(context) => context.namespace
      case None => "unknown"
  }

  /** A signal carries the namespace of the context that the receipt names first, if there is one. */
  lemma SignalNamespace(contexts: seq<Context>, idOf: Context -> string, receipt: Receipt, c: Context)
    requires UniqueIds(contexts, idOf) && receipt.contextRefs != [] && receipt.contextRefs[0] != ""
    ensures c in contexts && idOf(c) == receipt.contextRefs[0] ==> NamespaceFor(contexts, idOf, receipt) == c.namespace
    ensures (forall x | x in contexts :: idOf(x) != receipt.contextRefs[0]) ==>
              NamespaceFor(contexts, idOf, receipt) == "unknown"
  {
    var found := Find(contexts, idOf, receipt.contextRefs[0]);
    if c in contexts && idOf(c) == receipt.contextRefs[0] {
      assert found.Some?;
      OneRecordPerId(contexts, idOf, c, found.value);
    }
  }

  // ----- Runs that interleave intents and feedback

  /** The three evidence tables. */
  datatype Evidence = Evidence(receipts: seq<Receipt>, feedback: seq<Feedback>, signals: seq<Signal>)

  const NO_EVIDENCE := Evidence([], [], [])

  /** How the repositories read ids off their records. */
  datatype Ids = Ids(receipt: Receipt -> string, feedback: Feedback -> string, context: Context -> string)

  ghost predicate TrueIds(ids: Ids) {
    && (forall r :: ids.receipt(r) == r.receiptId)
    && (forall f :: ids.feedback(f) == f.feedbackId)
  }

  /** What `submit` answers, given the contexts of the moment. */
  function SubmitResult(e: Evidence, f: Feedback, contexts: seq<Context>, ids: Ids): Outcome<Option<Signal>> {
    var receipt := Find(e.receipts, ids.receipt, f.receiptId);
    if receipt.None? then Returned(None)
    else if IndexOf(e.feedback, ids.feedback, f.feedbackId) >= 0 then Threw
    else
      var namespace := NamespaceFor(contexts, ids.context, receipt.value);
      Returned(Some(SignalFor(receipt.value, f, |e.signals| + 1, namespace)))
  }

  function AfterSubmit(e: Evidence, f: Feedback, contexts: seq<Context>, ids: Ids): Evidence {
    var r := SubmitResult(e, f, contexts, ids);
    if r.Returned? && r.value.Some? then e.(feedback := e.feedback + [f], signals := e.signals + [r.value.value]) else e
  }

  /** A run of an intent appends a receipt of the next number, whatever it says; contexts may change between calls. */
  datatype EvidenceOp = RunIntent(outcome: Receipt) | SubmitFeedback(feedback: Feedback, contexts: seq<Context>)

  function StepEvidence(e: Evidence, op: EvidenceOp, ids: Ids): Evidence {
    match op
    case RunIntent(outcome) =>
      e.(receipts := e.receipts + [outcome.(receiptId := NextId("receipt", |e.receipts| + 1))])
    case SubmitFeedback(f, contexts) => AfterSubmit(e, f, contexts, ids)
  }

  function RunEvidence(e: Evidence, ops: seq<EvidenceOp>, ids: Ids): Evidence
    decreases |ops|
  {
    if ops == [] then e else RunEvidence(StepEvidence(e, ops[0], ids), ops[1..], ids)
  }

  /** Receipts are numbered, no feedback id is used twice, and signals answer the feedback one to one. */
  predicate EvidenceHolds(e: Evidence) {
    NumberedReceipts(e.receipts) && UniqueFeedback(e.feedback) && Matched(e.feedback, e.signals, e.receipts)
  }

  /** What `run` promises of the log, one more receipt and all numbered, is such a step. */
  lemma RunIsStep(e: Evidence, receipt: Receipt, ids: Ids)
    requires NumberedReceipts(e.receipts + [receipt])
    ensures StepEvidence(e, RunIntent(receipt), ids) == e.(receipts := e.receipts + [receipt])
  {
    assert (e.receipts + [receipt])[|e.receipts|] == receipt;
  }

  lemma SubmitKeeps(e: Evidence, f: Feedback, contexts: seq<Context>, ids: Ids)
    requires TrueIds(ids) && EvidenceHolds(e)
    ensures EvidenceHolds(AfterSubmit(e, f, contexts, ids))
  {
    var r := SubmitResult(e, f, contexts, ids);
    if r.Returned? && r.value.Some? {
      var k := IndexOf(e.receipts, ids.receipt, f.receiptId);
      MatchedGrows(e.feedback, e.signals, e.receipts, f, r.value.value, k);
      forall j | 0 <= j < |e.feedback|
        ensures e.feedback[j].feedbackId != f.feedbackId
      {
        assert ids.feedback(e.feedback[j]) == e.feedback[j].feedbackId;
      }
    }
  }

  lemma StepKeeps(e: Evidence, op: EvidenceOp, ids: Ids)
    requires TrueIds(ids) && EvidenceHolds(e)
    ensures EvidenceHolds(StepEvidence(e, op, ids))
    ensures e.receipts <= StepEvidence(e, op, ids).receipts
  {
    match op
    case RunIntent(outcome) => MatchedStays(e.feedback, e.signals, e.receipts, StepEvidence(e, op, ids).receipts);
    case SubmitFeedback(f, contexts) => SubmitKeeps(e, f, contexts, ids);
  }

  lemma {:induction false} RunKeeps(e: Evidence, ops: seq<EvidenceOp>, ids: Ids)
    requires TrueIds(ids) && EvidenceHolds(e)
    ensures EvidenceHolds(RunEvidence(e, ops, ids)) && e.receipts <= RunEvidence(e, ops, ids).receipts
    decreases |ops|
  {
    if ops == [] {
    } else {
      StepKeeps(e, ops[0], ids);
      RunKeeps(StepEvidence(e, ops[0], ids), ops[1..], ids);
    }
  }

  /**
    * The evidence of every run that interleaves intents and feedback from empty repositories: receipt
    * ids are nextId(1), nextId(2), ... and differ; the i-th signal answers the i-th feedback, on a
    * stored receipt, with its agent, workflow and level and the verdict and score given; and no two
    * signals or feedback share an id.
    */
  lemma EvidenceOverRuns(ops: seq<EvidenceOp>, ids: Ids)
    requires TrueIds(ids)
    ensures var e := RunEvidence(NO_EVIDENCE, ops, ids);
            && NumberedReceipts(e.receipts)
            && (forall i, j | 0 <= i < j < |e.receipts| :: e.receipts[i].receiptId != e.receipts[j].receiptId)
            && |e.signals| == |e.feedback|
            && (forall i | 0 <= i < |e.signals| ::
                  exists k | 0 <= k < |e.receipts| ::
                    var s, f, r := e.signals[i], e.feedback[i], e.receipts[k];
                    && s.signalId == NextId("learn", i + 1) && s.feedbackId == f.feedbackId
                    && s.receiptId == f.receiptId == r.receiptId
                    && s.agentId == r.agentId && s.workflowId == r.workflowId && s.level == r.level
                    && s.outcome == f.verdict && s.qualityScore == f.score
                    && s.policyResult == if r.status == Succeeded then AllowedResult else Other(r.status))
            && (forall i, j | 0 <= i < j < |e.signals| ::
                  e.signals[i].signalId != e.signals[j].signalId && e.signals[i].feedbackId != e.signals[j].feedbackId)
  {
    RunKeeps(NO_EVIDENCE, ops, ids);
    var e := RunEvidence(NO_EVIDENCE, ops, ids);
    forall i, j | 0 <= i < j < |e.receipts|
      ensures e.receipts[i].receiptId != e.receipts[j].receiptId
    {
      ReceiptIdsUnique(e.receipts, i, j);
    }
    forall i, j | 0 <= i < j < |e.signals|
      ensures e.signals[i].signalId != e.signals[j].signalId && e.signals[i].feedbackId != e.signals[j].feedbackId
    {
      SignalsAreDistinct(e.feedback, e.signals, e.receipts, i, j);
    }
    assert forall i | 0 <= i < |e.signals| :: Answers(e.signals[i], e.feedback[i], i + 1, e.receipts);
  }

  class FeedbackProcessor {
    const feedback: MemoryRepository<Feedback>
    const receipts: MemoryRepository<Receipt>
    const signals: MemoryRepository<Signal>
    const contexts: MemoryRepository<Context>

    constructor (feedback: MemoryRepository<Feedback>, receipts: MemoryRepository<Receipt>,
                 signals: MemoryRepository<Signal>, contexts: MemoryRepository<Context>)
      requires feedback.Valid() && signals.Valid() && receipts.Valid()
      requires (forall f :: feedback.idOf(f) == f.feedbackId) && (forall s :: signals.idOf(s) == s.signalId)
      requires forall r :: receipts.idOf(r) == r.receiptId
      requires feedback.records == [] && signals.records == []
      ensures this.feedback == feedback && this.receipts == receipts && this.signals == signals
              && this.contexts == contexts
      ensures Valid()
    {
      this.feedback := feedback;
      this.receipts := receipts;
      this.signals := signals;
      this.contexts := contexts;
    }

    ghost predicate Valid()
      reads this, feedback, receipts, signals
    {
      && feedback.Valid() && signals.Valid() && receipts.Valid()
      && (forall f :: feedback.idOf(f) == f.feedbackId) && (forall s :: signals.idOf(s) == s.signalId)
      && (forall r :: receipts.idOf(r) == r.receiptId)
      && Matched(feedback.records, signals.records, receipts.records)
    }

    ghost function View(): Evidence
      reads feedback, receipts, signals
    {
      Evidence(receipts.records, feedback.records, signals.records)
    }

    ghost function IdsOf(): Ids {
      Ids(receipts.idOf, feedback.idOf, contexts.idOf)
    }

    /** A run of the orchestrator on the same receipts leaves the processor as fit for feedback as it was. */
    twostate lemma RunsKeepValid(receipt: Receipt)
      requires old(Valid()) && receipts.Valid()
      requires receipts.records == old(receipts.records) + [receipt]
      requires feedback.records == old(feedback.records) && signals.records == old(signals.records)
      ensures Valid()
    {
      MatchedStays(feedback.records, signals.records, old(receipts.records), receipts.records);
    }

    /** `emit`: the signal of the next number, which is never taken. */
    method Emit(receipt: Receipt, f: Feedback, ghost before: seq<Feedback>) returns (signal: Signal)
      requires signals.Valid() && (forall s :: signals.idOf(s) == s.signalId)
      requires Matched(before, signals.records, receipts.records)
      modifies signals
      ensures signals.Valid()
      ensures signals.records == old(signals.records) + [signal]
      ensures signal == SignalFor(receipt, f, |old(signals.records)| + 1,
                                  NamespaceFor(old(contexts.records), contexts.idOf, receipt))
    {
      var existing := signals.List();
      var namespace := "unknown";
      if receipt.contextRefs != [] && receipt.contextRefs[0] != "" {
        var context := contexts.Get(receipt.contextRefs[0]);
        if context.Some? {
          namespace := context.value.namespace;
        }
      }
      signal := SignalFor(receipt, f, |existing| + 1, namespace);
      forall i | 0 <= i < |existing|
        ensures signals.idOf(existing[i]) != signal.signalId
      {
        SignalNumberIsFree(before, existing, receipts.records, i);
      }
      var stored := signals.Create(signal);
    }

    /**
      * `submit`, on validated feedback: None when the receipt is unknown, a throw when the
      * feedback id was used before, and otherwise one feedback and one signal that answers it.
      */
    method Submit(f: Feedback) returns (r: Outcome<Option<Signal>>)
      requires Valid()
      modifies feedback, signals
      ensures Valid()
      ensures r == Returned(None) <==> Find(old(receipts.records), receipts.idOf, f.receiptId).None?
      ensures r.Threw? <==> Find(old(receipts.records), receipts.idOf, f.receiptId).Some?
                            && IndexOf(old(feedback.records), feedback.idOf, f.feedbackId) >= 0
      ensures r.Returned? && r.value.Some? ==>
                var receipt := Find(old(receipts.records), receipts.idOf, f.receiptId).value;
                && feedback.records == old(feedback.records) + [f]
                && signals.records == old(signals.records) + [r.value.value]
                && r.value.value == SignalFor(receipt, f, |old(signals.records)| + 1,
                                              NamespaceFor(old(contexts.records), contexts.idOf, receipt))
      ensures !(r.Returned? && r.value.Some?) ==>
                feedback.records == old(feedback.records) && signals.records == old(signals.records)
      ensures receipts.records == old(receipts.records)
      ensures r == SubmitResult(old(View()), f, old(contexts.records), IdsOf())
      ensures View() == AfterSubmit(old(View()), f, old(contexts.records), IdsOf())
    {
      var receipt := receipts.Get(f.receiptId);
      if receipt.None? {
        return Returned(None);
      }
      ghost var before := feedback.records;
      var stored := feedback.Create(f);
      if stored.Threw? {
        return Threw;
      }
      ghost var earlier := signals.records;
      var signal := Emit(receipt.value, f, before);
      MatchedGrows(before, earlier, receipts.records, f, signal, IndexOf(receipts.records, receipts.idOf, f.receiptId));
      r := Returned(Some(signal));
    }
  }
}
