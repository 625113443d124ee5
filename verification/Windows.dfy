/** The dedupe window of the network object: its history over a run is a run of an expiring map. */
module Windows {
  import opened Cache
  import opened Connections
  import opened Muxer
  import opened Network
  import opened Wire
  import opened Wrappers

  /** The message arrives on a topic that is joined, so the history takes note of it. */
  predicate Noted(before: Option<Net>, op: NetOp) {
    before.Some? && op.Received? && op.msg.topic in before.value.topics
  }

  /** What the events of a run do to the history: every noted arrival puts its digest, every tick prunes. */
  function Notes(cfg: Settings, ops: seq<NetOp>): seq<Op<nat, ()>> {
    if ops == [] then []
    else
      var front, op := ops[..|ops| - 1], ops[|ops| - 1];
      var before := RunOf(cfg, true, front).net;
      Notes(cfg, front) +
      if Noted(before, op) then [Put(cfg.digest(op.msg), (), op.at)]
      else if op.Ticking? then [Prune(op.at)]
      else []
  }

  lemma StepNotes(cfg: Settings, n: Net, op: NetOp)
    requires n.history.Some? && Step(cfg, n, op).Some?
    ensures var h, t := n.history.value, Step(cfg, n, op).value;
            && t.history.Some?
            && t.history.value ==
               if Noted(Some(n), op) then Cache.Apply(h, cfg.dedupe, Put(cfg.digest(op.msg), (), op.at))
               else if op.Ticking? then Cache.Apply(h, cfg.dedupe, Prune(op.at))
               else h
  {
    hide Get, CanDial, Register, Disconnect, Assign, MatchDial;
  }

  lemma {:induction false} HistoryIsRun(cfg: Settings, ops: seq<NetOp>)
    requires RunOf(cfg, true, ops).net.Some?
    ensures RunOf(cfg, true, ops).net.value.history == Some(Cache.Run(cfg.dedupe, Notes(cfg, ops)))
  {
    hide Step, Cache.Apply, Noted;
    if ops != [] {
      var front, op := ops[..|ops| - 1], ops[|ops| - 1];
      HistoryIsRun(cfg, front);
      var n := RunOf(cfg, true, front).net.value;
      StepNotes(cfg, n, op);
      var notes := Notes(cfg, ops);
      assert notes != Notes(cfg, front) ==> notes[..|notes| - 1] == Notes(cfg, front);
    }
  }

  lemma {:induction false} NotesAreOrdered(cfg: Settings, ops: seq<NetOp>, now: nat)
    requires MonotoneTimes(ops) && forall i :: 0 <= i < |ops| ==> ops[i].at <= now
    ensures Monotone(Notes(cfg, ops))
    ensures forall p :: 0 <= p < |Notes(cfg, ops)| ==> Notes(cfg, ops)[p].at <= now && !Notes(cfg, ops)[p].Take?
  {
    hide RunOf, Noted;
    if ops != [] {
      NotesAreOrdered(cfg, ops[..|ops| - 1], ops[|ops| - 1].at);
    }
  }

  ghost predicate NotedAt(cfg: Settings, ops: seq<NetOp>, i: nat)
    requires i < |ops|
  {
    Noted(Before(cfg, true, ops, i), ops[i])
  }

  lemma {:induction false} NoteOf(cfg: Settings, ops: seq<NetOp>, i: nat) returns (p: nat)
    requires i < |ops| && NotedAt(cfg, ops, i)
    ensures p < |Notes(cfg, ops)| && Notes(cfg, ops)[p] == Put(cfg.digest(ops[i].msg), (), ops[i].at)
  {
    hide RunOf;
    var last := |ops| - 1;
    if i < last {
      assert ops[..last][..i] == ops[..i];
      p := NoteOf(cfg, ops[..last], i);
    } else {
      p := |Notes(cfg, ops[..last])|;
    }
  }

  lemma {:induction false} NoteIsFrom(cfg: Settings, ops: seq<NetOp>, p: nat) returns (i: nat)
    requires p < |Notes(cfg, ops)| && Notes(cfg, ops)[p].Put?
    ensures i < |ops| && NotedAt(cfg, ops, i) && Notes(cfg, ops)[p] == Put(cfg.digest(ops[i].msg), (), ops[i].at)
  {
    hide RunOf;
    var last := |ops| - 1;
    if p < |Notes(cfg, ops[..last])| {
      i := NoteIsFrom(cfg, ops[..last], p);
      assert ops[..last][..i] == ops[..i];
    } else {
      i := last;
    }
  }

  /**
   * A message that is not taken for a duplicate comes at least the dedupe interval after every noted arrival of its
   * kind.
   */
  lemma AcceptedOutsideWindow(cfg: Settings, ops: seq<NetOp>, msg: Message, now: nat, i: nat)
    requires MonotoneTimes(ops) && (forall k :: 0 <= k < |ops| ==> ops[k].at <= now) && RunOf(cfg, true, ops).net.Some?
    requires !Duplicate(cfg, RunOf(cfg, true, ops).net.value, msg, now)
    requires i < |ops| && NotedAt(cfg, ops, i) && cfg.digest(ops[i].msg) == cfg.digest(msg)
    ensures now - ops[i].at >= cfg.dedupe
  {
    HistoryIsRun(cfg, ops);
    NotesAreOrdered(cfg, ops, now);
    var p := NoteOf(cfg, ops, i);
    hide RunOf, Notes, Cache.Run, NotedAt;
    var notes, put := Notes(cfg, ops), Put(cfg.digest(msg), (), now);
    assert (notes + [put])[..|notes|] == notes;
    AcceptedAfterSilence(cfg.dedupe, notes + [put], p, |notes|);
    assert (notes + [put])[p].at == ops[i].at;
  }

  /** And one that comes later than that after all of them is not taken for a duplicate. */
  lemma SilenceEndsWindow(cfg: Settings, ops: seq<NetOp>, msg: Message, now: nat)
    requires MonotoneTimes(ops) && (forall k :: 0 <= k < |ops| ==> ops[k].at <= now) && RunOf(cfg, true, ops).net.Some?
    requires forall i: nat :: i < |ops| && NotedAt(cfg, ops, i) && cfg.digest(ops[i].msg) == cfg.digest(msg) ==>
                                now - ops[i].at > cfg.dedupe
    ensures !Duplicate(cfg, RunOf(cfg, true, ops).net.value, msg, now)
  {
    HistoryIsRun(cfg, ops);
    NotesAreOrdered(cfg, ops, now);
    hide RunOf, Notes, Cache.Run, NotedAt;
    var notes := Notes(cfg, ops);
    forall p: nat | p < |notes| && notes[p].Put? && notes[p].key == cfg.digest(msg)
        ensures now - notes[p].at > cfg.dedupe {
      var i := NoteIsFrom(cfg, ops, p);
    }
    SilenceIsAccepted(cfg.dedupe, notes, cfg.digest(msg), now);
  }
}
