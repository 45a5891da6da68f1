/** Messages whose length is a multiple of 1120.  No fragment of them is flagged last, so
    the receiver never posts them; the sender drops them as acknowledged all the same. */
module SsuUnflagged {
  import opened Bytes
  import opened SsuPacket
  import opened SsuOutbound
  import opened SsuInbound
  import opened SsuReassembly
  import opened SsuAck
  import opened SsuProtocol
  import opened SsuExpiry

  // ------------------------------------------------------------------ never posted

  /** A state sends fragments of its own message; none is flagged if its length is a
      multiple of 1120 and `flat` asks for it. */
  ghost predicate OwnFragments(st: OutState, k: uint32, flat: bool) {
    && st.msgId == k && (flat ==> |st.data| % 1120 == 0)
    && forall i :: 0 <= i < |st.frags| ==> st.frags[i].frag.msgId == k && (flat ==> !st.frags[i].frag.isLast)
  }

  ghost predicate OutSilent(out: OutTable, id: uint32) {
    forall k :: k in out ==> OwnFragments(out[k], k, k == id)
  }

  ghost predicate NetSilent(net: set<Packet>, id: uint32) {
    forall f :: Data(f) in net && f.msgId == id ==> !f.isLast
  }

  ghost predicate InbSilent(inb: InTable, id: uint32) {
    id in inb ==> !inb[id].state.gotLast
  }

  ghost predicate PostsSilent(posts: seq<Post>, id: uint32) {
    forall p :: p in posts ==> p.msgId != id
  }

  ghost predicate Silent(w: World, id: uint32) {
    OutSilent(w.out, id) && NetSilent(w.net, id) && InbSilent(w.inb, id) && PostsSilent(w.posts, id)
  }

  lemma FragmentedOwn(st: OutState, k: uint32, flat: bool)
    requires OwnFragments(st, k, flat)
    ensures OwnFragments(Fragmented(st), k, flat)
  {
    if st.frags == [] {
      CutFlags(k, st.data);
    }
  }

  lemma MarkSentOwn(st: OutState, k: uint32, flat: bool, num: byte)
    requires OwnFragments(st, k, flat)
    ensures OwnFragments(MarkSent(st, num), k, flat)
  {
  }

  lemma SendNextOwn(st: OutState, k: uint32, flat: bool)
    requires OwnFragments(st, k, flat) && SendNext(st).Ok?
    ensures var (st', f) := SendNext(st).value; OwnFragments(st', k, flat) && f.msgId == k && (flat ==> !f.isLast)
  {
    FragmentedOwn(st, k, flat);
    var st1 := Fragmented(st);
    MarkSentOwn(st1, k, flat, st1.frags[FirstUnsent(st1.frags)].frag.fragNum);
  }

  lemma ResendOwn(st: OutState, k: uint32, flat: bool)
    requires OwnFragments(st, k, flat) && OnTimer(st).Resend?
    ensures var r := OnTimer(st); OwnFragments(r.st, k, flat) && r.frag.msgId == k && (flat ==> !r.frag.isLast)
  {
    MarkSentOwn(st, k, flat, st.frags[FirstUnackd(st.frags)].frag.fragNum);
  }

  lemma TransmitSilent(w: World, id: uint32, k: uint32, st: OutState, f: Fragment)
    requires Silent(w, id) && OwnFragments(st, k, k == id) && f.msgId == k && (k == id ==> !f.isLast)
    ensures Silent(Transmit(w, k, st, f), id)
  {
  }

  lemma SentSilent(w: World, id: uint32, k: uint32)
    requires Silent(w, id)
    ensures Silent(Sent(w, k), id)
  {
    if k in w.out && SendNext(w.out[k]).Ok? {
      SendNextOwn(w.out[k], k, k == id);
      TransmitSilent(w, id, k, SendNext(w.out[k]).value.0, SendNext(w.out[k]).value.1);
    }
  }

  lemma ResentSilent(w: World, id: uint32, k: uint32)
    requires Silent(w, id)
    ensures Silent(Resent(w, k), id)
  {
    if k in w.out && OnTimer(w.out[k]).Resend? {
      ResendOwn(w.out[k], k, k == id);
      TransmitSilent(w, id, k, OnTimer(w.out[k]).st, OnTimer(w.out[k]).frag);
    }
  }

  lemma AckSilent(out: OutTable, e: Event, id: uint32)
    requires OutSilent(out, id)
    ensures OutSilent(OnAck(out, e), id)
  {
    if e.BitfieldAck? && e.msgId in out {
      MarkAllKeeps(out[e.msgId], e.nums);
    }
  }

  lemma {:induction false} AcksSilent(out: OutTable, es: seq<Event>, id: uint32)
    requires OutSilent(out, id)
    ensures OutSilent(OnAcks(out, es), id)
    decreases es
  {
    if es != [] {
      AckSilent(out, es[0], id);
      AcksSilent(OnAck(out, es[0]), es[1..], id);
    }
  }

  lemma AtSenderSilent(w: World, es: seq<Event>, id: uint32)
    requires Silent(w, id)
    ensures Silent(AtSender(w, es), id)
  {
    OutAfter(Router(w.out, map[], []), PEER, es);
    AcksSilent(w.out, es, id);
  }

  lemma FiledSilent(w: World, f: Fragment, id: uint32)
    requires Silent(w, id) && (f.msgId == id ==> !f.isLast)
    ensures Silent(Filed(w, f, Updated(w.inb, PEER, f)), id)
  {
    var e := Updated(w.inb, PEER, f);
    assert f.msgId == id ==> !e.state.gotLast && Posted(e, id) == [];
  }

  /** What a fragment is read as, if it is read at all. */
  lemma WireEvents(f: Fragment)
    ensures ReadData(Wire(f)).events == if |f.data| <= 16383 then [Received(OnWire(f))] else []
  {
    if |f.data| <= 16383 {
      FragmentAlone(f);
    }
  }

  lemma NoEvents(w: World)
    ensures AtReceiver(w, []) == w
  {
    assert FragmentsIn([]) == {};
  }

  lemma DeliverSilent(w: World, f: Fragment, id: uint32)
    requires Silent(w, id) && Data(f) in w.net
    ensures Silent(AtReceiver(w, ReadData(Wire(f)).events), id)
  {
    WireEvents(f);
    if |f.data| <= 16383 {
      OneEvent(w, OnWire(f));
      FiledSilent(w, OnWire(f), id);
    } else {
      NoEvents(w);
    }
  }

  lemma StepSilent(w: World, s: Step, id: uint32)
    requires Silent(w, id) && Possible(w, s) && (s.SendData? && s.id == id ==> |s.data| % 1120 == 0)
    ensures Silent(Next(w, s), id)
  {
    match s
    case SendData(_, _) =>
    case SendCallback(k) => SentSilent(w, id, k);
    case SendTimer(k) => ResentSilent(w, id, k);
    case DeliverData(f) => DeliverSilent(w, f, id);
    case DeliverAcks(c, p) => AtSenderSilent(w, ReadData(DataBytes(false, c, p, [])).events, id);
    case Flush(_, _) =>
    case Expire(_) =>
  }

  /** What is handed over under `id` has a length that is a multiple of 1120. */
  ghost predicate SendsFlat(steps: seq<Step>, id: uint32) {
    forall i :: 0 <= i < |steps| && steps[i].SendData? && steps[i].id == id ==> |steps[i].data| % 1120 == 0
  }

  lemma {:induction false} RunSilent(w: World, steps: seq<Step>, id: uint32)
    requires Silent(w, id) && CanRunAny(w, steps) && SendsFlat(steps, id)
    ensures Silent(Run(w, steps), id)
    decreases steps
  {
    if steps != [] {
      StepSilent(w, steps[0], id);
      RunSilent(Next(w, steps[0]), steps[1..], id);
    }
  }

  /** A message whose length is a multiple of 1120 is never posted, in no run, whatever the
      other messages are. */
  lemma {:induction false} NeverPosted(steps: seq<Step>, id: uint32)
    requires CanRunAny(START, steps) && SendsFlat(steps, id)
    ensures forall p :: p in Run(START, steps).posts ==> p.msgId != id
  {
    RunSilent(START, steps, id);
  }

  // ------------------------------------------------- and dropped as acknowledged

  ghost predicate Flat(c: Message) {
    Sendable(c) && forall k :: 0 <= k < |c.cut| ==> !c.cut[k].isLast
  }

  lemma CutFlat(id: uint32, data: seq<byte>) returns (c: Message)
    requires |data| % 1120 == 0 && 0 < |data| <= 128 * 1120
    ensures Flat(c) && c.id == id && c.data == data
  {
    c := Message(id, data, Cut(id, data));
    CutFlags(id, data);
    assert FragmentCount(|data|) == |data| / 1120;
  }

  /** The first k fragments have arrived, in order. */
  ghost predicate HasFirst(w: World, c: Message, k: nat) {
    && w.posts == [] && w.legible
    && (forall i :: 0 <= i < k ==> (c.id, i) in w.seen)
    && HoldsFirst(w.inb, c, k)
  }

  ghost predicate HoldsFirst(inb: InTable, c: Message, k: nat) {
    if k == 0 then inb == map[]
    else inb.Keys == {c.id} && inb[c.id].hash == PEER && FullPrefix(inb[c.id].state, k)
  }

  lemma NextHeld(inb: InTable, c: Message, k: nat)
    requires Flat(c) && HoldsFirst(inb, c, k) && k < |c.cut|
    ensures var e := Updated(inb, PEER, c.cut[k]);
      Posted(e, c.id) == [] && HoldsFirst(inb[c.id := e], c, k + 1)
  {
    NextSlot(if k == 0 then EMPTY else inb[c.id].state, k, c.cut[k]);
  }

  lemma NextFiled(w: World, c: Message, k: nat)
    requires Flat(c) && HasFirst(w, c, k) && k < |c.cut|
    ensures var w' := Filed(w, c.cut[k], Updated(w.inb, PEER, c.cut[k])); HasFirst(w', c, k + 1) && SameSender(w, w')
  {
    NextHeld(w.inb, c, k);
    assert w.posts + [] == w.posts;
  }

  lemma NextArrives(w: World, c: Message, k: nat) returns (w': World)
    requires Flat(c) && HasFirst(w, c, k) && k < |c.cut| && Data(c.cut[k]) in w.net
    ensures Reaches(w, [DeliverData(c.cut[k])], w') && HasFirst(w', c, k + 1) && SameSender(w, w')
  {
    NextFiled(w, c, k);
    DeliveredPiece(w, c.cut[k]);
    ReachBy(w, DeliverData(c.cut[k]));
    w' := Next(w, DeliverData(c.cut[k]));
  }

  lemma {:induction false} AllArrive(w: World, c: Message, k: nat) returns (steps: seq<Step>, w': World)
    requires Flat(c) && HasFirst(w, c, k) && k <= |c.cut|
    requires forall i :: 0 <= i < |c.cut| ==> Data(c.cut[i]) in w.net
    ensures Reaches(w, steps, w') && NoExpiry(steps) && HasFirst(w', c, |c.cut|) && SameSender(w, w')
    decreases |c.cut| - k
  {
    if k == |c.cut| {
      steps, w' := [], w;
    } else {
      var w1 := NextArrives(w, c, k);
      steps, w' := AllArrive(w1, c, k + 1);
      ReachTrans(w, [DeliverData(c.cut[k])], w1, steps, w');
      steps := [DeliverData(c.cut[k])] + steps;
    }
  }

  /** No state times out and nothing has to be sent again. */
  ghost predicate NoExpiry(steps: seq<Step>) {
    forall i :: 0 <= i < |steps| ==> !steps[i].Expire? && !steps[i].SendTimer?
  }

  lemma AllClaimed(st: InState, n: nat)
    requires FullPrefix(st, n) && 0 < n <= 128
    ensures !AllReceived(st) && |FragmentsReceived(st)| == n
    ensures forall k: nat :: k in SetBits(FragmentsReceived(st), 0) <==> k in Below(n)
  {
    forall k: nat ensures k in SetBits(FragmentsReceived(st), 0) <==> k in Below(n) {
      SetBitsMembers(FragmentsReceived(st), 0, k);
    }
  }

  lemma ClaimDrops(w: World, c: Message) returns (steps: seq<Step>, w': World)
    requires Flat(c) && HasFirst(w, c, |c.cut|) && w.out.Keys == {c.id} && Marks(w.out[c.id], c, {})
    ensures Reaches(w, steps, w') && NoExpiry(steps) && c.id in w'.covered
    ensures w'.messages == w.messages && w'.posts == [] && w'.legible && w'.seen == w.seen
  {
    var e, st := w.inb[c.id], w.out[c.id];
    assert w.inb == map[c.id := e] && w.out == map[c.id := st];
    AllClaimed(e.state, |c.cut|);
    var bits := FragmentsReceived(e.state);
    MarkNumbers(c, st, {}, SetBits(bits, 0), Below(|c.cut|));
    assert Whole(c.cut, {} + Below(|c.cut|));
    w' := RoundSteps(w, c, e, st);
    steps := Round(c, bits);
  }

  /** The run: all fragments are sent, arrive in order and are acknowledged. */
  lemma FlatRun(c: Message) returns (steps: seq<Step>, w: World)
    requires Flat(c)
    ensures Reaches(START, steps, w) && NoExpiry(steps)
    ensures c.id in w.covered && w.messages == map[c.id := c.data] && w.posts == [] && w.legible
    ensures forall i :: 0 <= i < |c.cut| ==> (c.id, i) in w.seen
  {
    var w0 := BeginSending(c);
    var s1, w1 := SendAll(w0, c, 0);
    ReachTrans(START, [SendData(c.id, c.data)], w0, s1, w1);
    assert Fragmented(w1.out[c.id]).frags[0].sent;
    assert Marks(w1.out[c.id], c, {});
    var s2, w2 := AllArrive(w1, c, 0);
    ReachTrans(START, [SendData(c.id, c.data)] + s1, w1, s2, w2);
    var s3, w3 := ClaimDrops(w2, c);
    ReachTrans(START, [SendData(c.id, c.data)] + s1 + s2, w2, s3, w3);
    steps, w := [SendData(c.id, c.data)] + s1 + s2 + s3, w3;
  }

  ghost predicate LostQuietly(steps: seq<Step>, id: uint32, data: seq<byte>) {
    && CanRunAny(START, steps) && AllLegible(steps) && NoExpiry(steps) && Lost(Run(START, steps), id, data)
    && AllSeen(Run(START, steps).cuts, Run(START, steps).seen, id)
  }

  /** A message of 1 to 128 full fragments: a run without timeout, loss or repetition ends
      with every fragment received, the message dropped as acknowledged and nothing posted. */
  lemma {:induction false} FlatDropped(id: uint32, data: seq<byte>)
    requires |data| % 1120 == 0 && 0 < |data| <= 128 * 1120
    ensures CanBeLost(id, data)
    ensures exists steps :: LostQuietly(steps, id, data)
  {
    var c := CutFlat(id, data);
    var steps, w := FlatRun(c);
    LostBy(c, steps, w);
    MessageCut(START, steps, id);
    assert LostQuietly(steps, id, data);
  }

  /** What is remembered of a message are its fragments. */
  lemma {:induction false} MessageCut(w: World, steps: seq<Step>, id: uint32)
    requires CanRunAny(w, steps) && w.cuts.Keys == w.messages.Keys
    requires forall k :: k in w.messages ==> w.cuts[k] == Cut(k, w.messages[k])
    ensures var w' := Run(w, steps); id in w'.messages ==> id in w'.cuts && w'.cuts[id] == Cut(id, w'.messages[id])
    decreases steps
  {
    if steps != [] {
      var w1 := Next(w, steps[0]);
      NextMessages(w, steps[0]);
      NextCuts(w, steps[0]);
      MessageCut(w1, steps[1..], id);
    }
  }

  // ------------------------------------------------------------- the exact condition

  lemma ShortIsSafe(steps: seq<Step>, id: uint32, data: seq<byte>)
    requires CanRunAny(START, steps) && AllLegible(steps) && OthersDeliverable(Run(START, steps), id)
    requires 0 < |data| < 1120
    ensures !Lost(Run(START, steps), id, data)
  {
    if Lost(Run(START, steps), id, data) {
      DeliverableRun(START, steps);
      AckSafety(steps, id);
    }
  }

  /** Exactly the messages with a full fragment can be lost behind bitfields: for every
      message of up to 128 fragments there is a run in which the sender drops it as
      acknowledged while it is never posted, if and only if it has at least 1120 bytes. */
  lemma {:induction false} LostIffFull(id: uint32, data: seq<byte>)
    requires 0 < |data| <= 128 * 1120
    ensures CanBeLost(id, data) <==> |data| >= 1120
  {
    if |data| < 1120 {
      forall steps | CanRunAny(START, steps) && AllLegible(steps) && OthersDeliverable(Run(START, steps), id)
        ensures !Lost(Run(START, steps), id, data)
      {
        ShortIsSafe(steps, id, data);
      }
    } else if |data| % 1120 == 0 {
      FlatDropped(id, data);
    } else {
      SeveralCanBeLost(id, data);
    }
  }
}
