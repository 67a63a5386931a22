/** The agent's step: infer, then propose.  What the agent proposes, the kernel admits. */
module AgentLoop {
  import opened Bytes
  import opened Actions
  import Aimd
  import I = Inference
  import T = Transactions

  /** In any run, beside any other callers, with any model and any telemetry: a proposal of
      the agent made after the system became ready is never rejected; it ends committed or
      rolled back. */
  lemma AgentIsNeverRejected(events: seq<T.Event>, id: nat, h: Aimd.Header, t: I.Telemetry,
                             model: seq<Byte>, p: I.Preset)
    requires I.IsPreset(p)
    ensures var s := T.Run(T.Init(), events);
      id in s.calls && s.calls[id].action == I.Proposal(p, t, I.Score(h, t, model, p)) &&
      s.calls[id].bornReady && s.calls[id].pc.Done? ==>
        s.calls[id].pc.code == 0 || s.calls[id].pc.code == 5
  {
    hide I.Score, T.RecordsOf, I.Proposal;
    I.ProposalsAreAdmissible(p, t, I.Score(h, t, model, p));
    T.FinishedCallLeavesItsRecords(events, id);
  }

  /** `step` with a loaded model.  The kernel goes through the call of the action that the
      score calls for; once ready, the outcome is 0 or 5, and the new quantum is the proposed
      one if that was committed and the old one otherwise. */
  method Step(kernel: T.Kernel, h: Aimd.Header, t: I.Telemetry, scratch: array<I.I32>, model: seq<Byte>,
              p: I.Preset, selfTest: bool) returns (outcome: nat, a: Action)
    requires I.IsPreset(p) && I.IsTelemetry(t) && scratch.Length == 1024
    requires kernel.nextSeq !in kernel.calls
    modifies kernel, scratch
    ensures I.Answers(p, t, I.Score(h, t, model, p), a)
    ensures kernel.State() == T.Run(old(kernel.State()), T.Solo(old(kernel.nextSeq), a, selfTest))
    ensures outcome == if !old(kernel.ready) then 1 else if selfTest then 0 else 5
    ensures kernel.quantum == if outcome == 0 && a.kind == 1 then a.param1 else old(kernel.quantum)
    ensures kernel.quantum == old(kernel.quantum) ||
            100 <= kernel.quantum <= p.quantumBase + 127 * p.quantumScale
  {
    hide I.Score, I.Proposal, T.Expected, T.Run, T.Solo;
    a := I.InferAndPropose(h, t, scratch, model, p);
    var status, o := kernel.AiProposeAction(Some(a), false, selfTest);
    outcome := o.value;
  }
}
