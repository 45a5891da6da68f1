/** When acknowledgement safety fails: a state that times out at the receiver between two
    acknowledgements makes the sender drop a message nobody has.  This can happen to every
    deliverable message of more than one fragment. */
module SsuExpiry {
  import opened Bytes
  import opened SsuPacket
  import opened SsuOutbound
  import opened SsuInbound
  import opened SsuReassembly
  import opened SsuAck
  import opened SsuProtocol

  ghost predicate Reaches(w: World, steps: seq<Step>, w': World) {
    CanRunAny(w, steps) && Run(w, steps) == w'
  }

  lemma ReachHere(w: World)
    ensures Reaches(w, [], w)
  {
  }

  lemma ReachBy(w: World, s: Step)
    requires Possible(w, s)
    ensures Reaches(w, [s], Next(w, s))
  {
    assert [s][1..] == [];
    assert Run(Next(w, s), []) == Next(w, s);
  }

  lemma {:induction false} ReachTrans(w: World, a: seq<Step>, w1: World, b: seq<Step>, w': World)
    requires Reaches(w, a, w1) && Reaches(w1, b, w')
    ensures Reaches(w, a + b, w')
    decreases a
  {
    if a == [] {
      assert a + b == b;
    } else {
      assert (a + b)[0] == a[0] && (a + b)[1..] == a[1..] + b;
      ReachTrans(Next(w, a[0]), a[1..], w1, b, w');
    }
  }

  // ------------------------------------------------------------- the message

  /** A message and its fragments. */
  datatype Message = Message(id: uint32, data: seq<byte>, cut: seq<Fragment>)

  /** The fragments can be numbered on the wire. */
  ghost predicate Sendable(c: Message) {
    && c.cut == Cut(c.id, c.data) && 1 <= |c.cut| <= 128
    && forall k :: 0 <= k < |c.cut| ==> c.cut[k].msgId == c.id && c.cut[k].fragNum == k && |c.cut[k].data| <= 1120
  }

  ghost predicate Several(c: Message) {
    Sendable(c) && GoodCut(c.id, c.cut) && |c.cut| >= 2
  }

  lemma CutInSeveral(id: uint32, data: seq<byte>) returns (c: Message)
    requires Deliverable(data) && |data| > 1120
    ensures Several(c) && c.id == id && c.data == data
  {
    c := Message(id, data, Cut(id, data));
    CutIsNumbered(id, data);
  }

  // ------------------------------------------------------------------ sending

  /** The first k fragments have been sent and none is acknowledged; before that the
      message need not have been cut. */
  ghost predicate SentFirst(c: Message, st: OutState, k: nat) {
    var st1 := Fragmented(st);
    && st.msgId == c.id && st.data == c.data && |st1.frags| == |c.cut|
    && forall i :: 0 <= i < |c.cut| ==> st1.frags[i] == OutFragment(c.cut[i], false, i < k)
  }

  lemma SendOne(c: Message, st: OutState, k: nat)
    requires Sendable(c) && SentFirst(c, st, k) && k < |c.cut|
    ensures SendNext(st).Ok? && SentFirst(c, SendNext(st).value.0, k + 1) && SendNext(st).value.1 == c.cut[k]
  {
    var st1 := Fragmented(st);
    assert !st1.frags[k].sent && forall i :: 0 <= i < k ==> st1.frags[i].sent;
    assert FirstUnsent(st1.frags) == k;
    assert MarkSent(st1, k).frags == st1.frags[k := OutFragment(c.cut[k], false, true)];
  }

  /** Nothing has reached the receiver; the first k fragments are on their way. */
  ghost predicate Underway(w: World, c: Message, k: nat) {
    && w.messages == map[c.id := c.data]
    && w.out.Keys == {c.id} && SentFirst(c, w.out[c.id], k)
    && w.inb == map[] && w.posts == [] && w.legible
    && forall i :: 0 <= i < k && i < |c.cut| ==> Data(c.cut[i]) in w.net
  }

  lemma BeginSending(c: Message) returns (w: World)
    requires Sendable(c)
    ensures Reaches(START, [SendData(c.id, c.data)], w) && Underway(w, c, 0)
  {
    w := Next(START, SendData(c.id, c.data));
    ReachBy(START, SendData(c.id, c.data));
    var st := w.out[c.id];
    assert Fragmented(st).frags == Unsent(c.cut);
  }

  lemma SendStep(w: World, c: Message, k: nat) returns (w': World)
    requires Sendable(c) && Underway(w, c, k) && k < |c.cut|
    ensures Reaches(w, [SendCallback(c.id)], w') && Underway(w', c, k + 1)
  {
    SendOne(c, w.out[c.id], k);
    ReachBy(w, SendCallback(c.id));
    w' := Sent(w, c.id);
  }

  lemma {:induction false} SendAll(w: World, c: Message, k: nat) returns (steps: seq<Step>, w': World)
    requires Sendable(c) && Underway(w, c, k) && k <= |c.cut|
    ensures Reaches(w, steps, w') && Underway(w', c, |c.cut|)
    ensures forall i :: 0 <= i < |steps| ==> steps[i] == SendCallback(c.id)
    decreases |c.cut| - k
  {
    if k == |c.cut| {
      steps, w' := [], w;
    } else {
      var w1 := SendStep(w, c, k);
      steps, w' := SendAll(w1, c, k + 1);
      ReachTrans(w, [SendCallback(c.id)], w1, steps, w');
      steps := [SendCallback(c.id)] + steps;
    }
  }

  // ---------------------------------------------------------------- receiving

  /** The receiver holds exactly the fragments of `got` and has posted nothing. */
  ghost predicate Holding(w: World, c: Message, got: set<nat>) {
    w.posts == [] && w.legible && Holds(w.inb, c, got)
  }

  ghost predicate Holds(inb: InTable, c: Message, got: set<nat>) {
    if got == {} then inb == map[]
    else inb.Keys == {c.id} && inb[c.id].hash == PEER && Knows(inb[c.id].state, c.cut, got)
  }

  /** Nothing but the receiver has changed. */
  ghost predicate SameSender(w: World, w': World) {
    w'.messages == w.messages && w'.out == w.out && w'.net == w.net
  }

  lemma UpdatedKnows(inb: InTable, c: Message, got: set<nat>, k: nat)
    requires Several(c) && k < |c.cut|
    requires Holds(inb, c, got)
    ensures var e := Updated(inb, PEER, c.cut[k]);
      e.hash == PEER && Knows(e.state, c.cut, got + {k}) && (AllReceived(e.state) <==> Whole(c.cut, got + {k}))
  {
    if got == {} {
      KnowsNothing(c.cut);
      KnowsOneMore(EMPTY, c.cut, got, k);
    } else {
      KnowsOneMore(inb[c.id].state, c.cut, got, k);
    }
    CompleteIffWhole(Updated(inb, PEER, c.cut[k]).state, c.cut, got + {k});
  }

  lemma HoldsMore(inb: InTable, c: Message, got: set<nat>, k: nat)
    requires Several(c) && Holds(inb, c, got) && k < |c.cut| && !Whole(c.cut, got + {k})
    ensures var e := Updated(inb, PEER, c.cut[k]);
      Posted(e, c.id) == [] && Holds(inb[c.id := e], c, got + {k})
  {
    UpdatedKnows(inb, c, got, k);
    assert k in got + {k};
  }

  lemma HoldingMore(w: World, c: Message, got: set<nat>, k: nat)
    requires Several(c) && Holding(w, c, got) && k < |c.cut| && !Whole(c.cut, got + {k})
    ensures var w' := Filed(w, c.cut[k], Updated(w.inb, PEER, c.cut[k]));
      Holding(w', c, got + {k}) && SameSender(w, w')
  {
    HoldsMore(w.inb, c, got, k);
    assert w.posts + [] == w.posts;
  }

  lemma DeliverOne(w: World, c: Message, got: set<nat>, k: nat) returns (w': World)
    requires Several(c) && Holding(w, c, got) && k < |c.cut| && !Whole(c.cut, got + {k}) && Data(c.cut[k]) in w.net
    ensures Reaches(w, [DeliverData(c.cut[k])], w') && Holding(w', c, got + {k}) && SameSender(w, w')
  {
    HoldingMore(w, c, got, k);
    DeliveredPiece(w, c.cut[k]);
    ReachBy(w, DeliverData(c.cut[k]));
    w' := Next(w, DeliverData(c.cut[k]));
  }

  /** All fragments but the first. */
  ghost function From1To(k: nat): set<nat> {
    Below(k) - {0}
  }

  lemma OneMore(cut: seq<Fragment>, k: nat)
    requires 1 <= k && cut != []
    ensures From1To(k) + {k} == From1To(k + 1) && !Whole(cut, From1To(k + 1))
  {
    assert 0 !in From1To(k + 1);
  }

  lemma {:induction false} DeliverRest(w: World, c: Message, k: nat) returns (steps: seq<Step>, w': World)
    requires Several(c) && 1 <= k <= |c.cut| && Holding(w, c, From1To(k))
    requires forall i :: 0 <= i < |c.cut| ==> Data(c.cut[i]) in w.net
    ensures Reaches(w, steps, w') && Holding(w', c, From1To(|c.cut|)) && SameSender(w, w')
    decreases |c.cut| - k
  {
    if k == |c.cut| {
      ReachHere(w);
      steps, w' := [], w;
    } else {
      OneMore(c.cut, k);
      var w1 := DeliverOne(w, c, From1To(k), k);
      steps, w' := DeliverRest(w1, c, k + 1);
      ReachTrans(w, [DeliverData(c.cut[k])], w1, steps, w');
      steps := [DeliverData(c.cut[k])] + steps;
    }
  }

  // ---------------------------------------------------- one round of acknowledgement

  /** The fragments of `acked` and no others are marked. */
  ghost predicate Marks(st: OutState, c: Message, acked: set<nat>) {
    |st.frags| == |c.cut| && forall k :: 0 <= k < |c.cut| ==> (st.frags[k].ackd <==> k in acked)
  }

  lemma FlushStep(w: World, id: uint32, e: Entry, a: PartialAck)
    requires w.inb == map[id := e] && !AllReceived(e.state) && a == PartialAck(id, FragmentsReceived(e.state))
    ensures Possible(w, Flush([], [a])) && Flushed(w, [], [a]) == w.(net := w.net + {Acks([], [a])})
  {
    assert Ids([a]) == [id];
    assert Ids([a])[0] == id;
    assert id in w.inb && Incomplete(w.inb) == w.inb;
  }

  lemma OneAckEvent(a: PartialAck)
    requires 1 <= |a.bits| <= 128
    ensures ReadData(DataBytes(false, [], [a], [])).events == [BitfieldAck(a.msgId, SetBits(a.bits, 0))]
  {
    DataRoundTrip(false, [], [a], []);
    assert PartialEvents([a]) == [BitfieldAck(a.msgId, SetBits(a.bits, 0))];
  }

  lemma AckEventStep(w: World, id: uint32, nums: seq<nat>, st: OutState)
    requires w.out == map[id := st]
    ensures var st' := MarkAllAckd(st, nums);
      AtSender(w, [BitfieldAck(id, nums)])
      == if AllAckd(st') then w.(out := map[], covered := w.covered + {id}) else w.(out := map[id := st'])
  {
    var es := [BitfieldAck(id, nums)];
    var r := Router(w.out, map[], []);
    assert es[1..] == [];
    assert OnEvents(r, PEER, es) == OnEvent(r, PEER, es[0]);
    var out' := OnAck(w.out, es[0]);
    assert out' == if AllAckd(MarkAllAckd(st, nums)) then map[] else map[id := MarkAllAckd(st, nums)];
    var (told, rest) := Dropped(w.out, out', es);
    assert told == {} && rest == if AllAckd(MarkAllAckd(st, nums)) then {id} else {};
    assert w.acked + {} == w.acked && w.covered + {} == w.covered;
  }

  lemma FieldNumbers(st: InState, cut: seq<Fragment>, got: set<nat>)
    requires Numbered(cut) && Knows(st, cut, got) && got != {}
    ensures var bits := FragmentsReceived(st);
      1 <= |bits| <= 128 && forall k: nat :: k in SetBits(bits, 0) <==> k in got
  {
    var bits := FragmentsReceived(st);
    var some :| some in got;
    forall k: nat ensures k in SetBits(bits, 0) <==> k in got {
      SetBitsMembers(bits, 0, k);
    }
  }

  lemma MarkNumbers(c: Message, st: OutState, acked: set<nat>, nums: seq<nat>, got: set<nat>)
    requires Marks(st, c, acked) && |c.cut| <= 128
    requires forall k: nat :: k in nums <==> k in got
    requires forall k: nat :: k in got ==> k < |c.cut|
    ensures Marks(MarkAllAckd(st, nums), c, acked + got)
    ensures AllAckd(MarkAllAckd(st, nums)) <==> Whole(c.cut, acked + got)
  {
    MarkAllKeeps(st, nums);
    forall k | 0 <= k < |c.cut| ensures MarkAllAckd(st, nums).frags[k].ackd <==> k in acked + got {
      forall i | 0 <= i < |nums| ensures nums[i] < 256 {
        assert nums[i] in nums;
      }
      MarkAllMarks(st, nums, k);
    }
  }

  /** A flush whose packet arrives. */
  ghost function Round(c: Message, bits: seq<bool>): seq<Step> {
    [Flush([], [PartialAck(c.id, bits)])] + [DeliverAcks([], [PartialAck(c.id, bits)])]
  }

  /** The worlds of one round. */
  ghost predicate After(w: World, c: Message, st': OutState, w': World) {
    && w'.messages == w.messages && w'.posts == w.posts && w'.inb == w.inb && w.net <= w'.net
    && w'.legible == w.legible && w'.seen == w.seen
    && (if AllAckd(st') then c.id in w'.covered else w'.out == map[c.id := st'])
  }

  lemma RoundSteps(w: World, c: Message, e: Entry, st: OutState) returns (w': World)
    requires w.inb == map[c.id := e] && !AllReceived(e.state) && w.out == map[c.id := st]
    requires 1 <= |FragmentsReceived(e.state)| <= 128
    ensures Reaches(w, Round(c, FragmentsReceived(e.state)), w')
    ensures After(w, c, MarkAllAckd(st, SetBits(FragmentsReceived(e.state), 0)), w')
  {
    var a := PartialAck(c.id, FragmentsReceived(e.state));
    FlushStep(w, c.id, e, a);
    ReachBy(w, Flush([], [a]));
    var w1 := Next(w, Flush([], [a]));
    OneAckEvent(a);
    AckEventStep(w1, c.id, SetBits(a.bits, 0), st);
    ReachBy(w1, DeliverAcks([], [a]));
    w' := Next(w1, DeliverAcks([], [a]));
    ReachTrans(w, [Flush([], [a])], w1, [DeliverAcks([], [a])], w');
  }

  lemma RoundMarks(c: Message, e: Entry, st: OutState, got: set<nat>, acked: set<nat>)
    requires Several(c) && Knows(e.state, c.cut, got) && got != {} && !Whole(c.cut, got) && Marks(st, c, acked)
    ensures !AllReceived(e.state) && 1 <= |FragmentsReceived(e.state)| <= 128
    ensures var st' := MarkAllAckd(st, SetBits(FragmentsReceived(e.state), 0));
      Marks(st', c, acked + got) && (AllAckd(st') <==> Whole(c.cut, acked + got))
  {
    CompleteIffWhole(e.state, c.cut, got);
    FieldNumbers(e.state, c.cut, got);
    MarkNumbers(c, st, acked, SetBits(FragmentsReceived(e.state), 0), got);
  }

  /** The receiver says what it holds, and the sender marks that as acknowledged. */
  lemma AckRound(w: World, c: Message, got: set<nat>, acked: set<nat>) returns (steps: seq<Step>, w': World)
    requires Several(c) && Holding(w, c, got) && got != {} && !Whole(c.cut, got)
    requires w.out.Keys == {c.id} && Marks(w.out[c.id], c, acked)
    ensures Reaches(w, steps, w') && Holding(w', c, got) && w'.messages == w.messages && w.net <= w'.net
    ensures if Whole(c.cut, acked + got) then c.id in w'.covered
            else w'.out.Keys == {c.id} && Marks(w'.out[c.id], c, acked + got)
  {
    var e, st := w.inb[c.id], w.out[c.id];
    assert w.inb == map[c.id := e] && w.out == map[c.id := st];
    RoundMarks(c, e, st, got, acked);
    w' := RoundSteps(w, c, e, st);
    steps := Round(c, FragmentsReceived(e.state));
  }

  lemma ExpireStep(w: World, c: Message, got: set<nat>)
    requires Several(c) && Holding(w, c, got)
    ensures Reaches(w, [Expire(c.id)], TimedOut(w, c.id))
    ensures Holding(TimedOut(w, c.id), c, {}) && SameSender(w, TimedOut(w, c.id))
  {
    ReachBy(w, Expire(c.id));
    assert w.inb - {c.id} == map[];
  }

  // ------------------------------------------------------------------- whole runs

  lemma NotAllAfterFirst(c: Message)
    requires |c.cut| >= 2
    ensures !Whole(c.cut, {0}) && !Whole(c.cut, {} + {0}) && !Whole(c.cut, From1To(|c.cut|))
    ensures Whole(c.cut, ({} + {0}) + From1To(|c.cut|))
  {
    var zero: set<nat> := {0};
    assert 1 !in zero;
    assert 0 !in From1To(|c.cut|);
  }

  /** All fragments are sent, the first arrives and is acknowledged. */
  lemma FirstHalf(c: Message) returns (steps: seq<Step>, w: World)
    requires Several(c)
    ensures Reaches(START, steps, w) && Holding(w, c, {0})
    ensures w.messages == map[c.id := c.data]
    ensures w.out.Keys == {c.id} && Marks(w.out[c.id], c, {} + {0})
    ensures forall i :: 0 <= i < |c.cut| ==> Data(c.cut[i]) in w.net
  {
    NotAllAfterFirst(c);
    var w0 := BeginSending(c);
    var s1, w1 := SendAll(w0, c, 0);
    ReachTrans(START, [SendData(c.id, c.data)], w0, s1, w1);
    assert Fragmented(w1.out[c.id]).frags[0].sent;
    assert Marks(w1.out[c.id], c, {});
    assert {} + {0} == {0 as nat};
    var w2 := DeliverOne(w1, c, {}, 0);
    ReachTrans(START, [SendData(c.id, c.data)] + s1, w1, [DeliverData(c.cut[0])], w2);
    var s3, w3 := AckRound(w2, c, {0}, {});
    w := w3;
    steps := ([SendData(c.id, c.data)] + s1 + [DeliverData(c.cut[0])]) + s3;
    ReachTrans(START, [SendData(c.id, c.data)] + s1 + [DeliverData(c.cut[0])], w2, s3, w);
  }

  /** The state times out; the other fragments arrive and are acknowledged. */
  lemma SecondHalf(w: World, c: Message) returns (steps: seq<Step>, w': World)
    requires Several(c) && Holding(w, c, {0}) && w.out.Keys == {c.id} && Marks(w.out[c.id], c, {} + {0})
    requires forall i :: 0 <= i < |c.cut| ==> Data(c.cut[i]) in w.net
    ensures Reaches(w, steps, w') && w'.messages == w.messages && c.id in w'.covered && w'.posts == [] && w'.legible
  {
    NotAllAfterFirst(c);
    ExpireStep(w, c, {0});
    var w1 := TimedOut(w, c.id);
    assert From1To(1) == {};
    var s2, w2 := DeliverRest(w1, c, 1);
    ReachTrans(w, [Expire(c.id)], w1, s2, w2);
    assert 1 in From1To(|c.cut|);
    var s3, w3 := AckRound(w2, c, From1To(|c.cut|), {} + {0});
    w' := w3;
    steps := ([Expire(c.id)] + s2) + s3;
    ReachTrans(w, [Expire(c.id)] + s2, w2, s3, w');
  }

  /** The sender has dropped the message because bitfields acknowledged all of it, and it
      was never posted. */
  ghost predicate Lost(w: World, id: uint32, data: seq<byte>) {
    id in w.messages && w.messages[id] == data && id in w.covered && Post(PEER, id, data) !in w.posts
  }

  /** In some run in which the sender finds the bitfields of every packet, and all other
      messages are deliverable. */
  ghost predicate CanBeLost(id: uint32, data: seq<byte>) {
    exists steps :: CanRunAny(START, steps) && AllLegible(steps) && OthersDeliverable(Run(START, steps), id)
      && Lost(Run(START, steps), id, data)
  }

  ghost predicate OthersDeliverable(w: World, id: uint32) {
    forall k :: k in w.messages && k != id ==> Deliverable(w.messages[k])
  }

  /** A run that ends like this is what `CanBeLost` asks for. */
  lemma LostBy(c: Message, steps: seq<Step>, w: World)
    requires Reaches(START, steps, w) && w.legible && w.messages == map[c.id := c.data] && c.id in w.covered
    requires w.posts == []
    ensures AllLegible(steps) && Lost(w, c.id, c.data) && CanBeLost(c.id, c.data)
  {
    LegibleRun(START, steps);
    assert OthersDeliverable(Run(START, steps), c.id) && Lost(Run(START, steps), c.id, c.data);
  }

  lemma {:induction false} SeveralCanBeLost(id: uint32, data: seq<byte>)
    requires Deliverable(data) && |data| > 1120
    ensures CanBeLost(id, data)
  {
    var c := CutInSeveral(id, data);
    var first, w := FirstHalf(c);
    var second, w' := SecondHalf(w, c);
    ReachTrans(START, first, w, second, w');
    LostBy(c, first + second, w');
  }
}
