/** The SSU message layer as a protocol between a sender and a receiver, over a
    network that may lose, repeat, delay and reorder packets. */
module SsuProtocol {
  import opened Bytes
  import opened SsuPacket
  import opened SsuOutbound
  import opened SsuInbound
  import opened SsuReassembly
  import opened SsuAck

  datatype Packet =
    | Data(frag: Fragment)
    | Acks(complete: seq<uint32>, partial: seq<PartialAck>)

  /** The sender's router hash, as the receiver files messages under it. */
  const PEER: RouterHash := []

  type Cuts = map<uint32, seq<Fragment>>

  type Seen = set<(uint32, nat)>

  /** `messages` and `cuts` remember what was handed to `sendData`; `net` every packet
      ever sent; `seen` every fragment that reached the receiver; `acked` the messages
      dropped on a complete acknowledgement and `covered` those dropped because
      bitfields acknowledged every fragment; `expired` the messages of which an
      incomplete state timed out at the receiver; `legible` says that every flush so far
      made a packet in which the sender finds the bitfields. */
  datatype World = World(
    messages: map<uint32, seq<byte>>, cuts: Cuts,
    out: OutTable, inb: InTable, posts: seq<Post>, net: set<Packet>,
    seen: Seen, acked: set<uint32>, covered: set<uint32>, expired: set<uint32>, legible: bool)

  const START: World := World(map[], map[], map[], map[], [], {}, {}, {}, {}, {}, true)

  datatype Step =
    | SendData(id: uint32, data: seq<byte>)
    | SendCallback(id: uint32)
    | SendTimer(id: uint32)
    | DeliverData(frag: Fragment)
    | DeliverAcks(complete: seq<uint32>, partial: seq<PartialAck>)
    | Flush(complete: seq<uint32>, partial: seq<PartialAck>)
    | Expire(id: uint32)

  /** Message ids are not reused, only packets that were sent arrive, and a flush says what
      the receiver holds. */
  ghost predicate Possible(w: World, s: Step) {
    match s
    case SendData(id, data) => id !in w.messages
    case DeliverData(f) => Data(f) in w.net
    case DeliverAcks(c, p) => Acks(c, p) in w.net
    case Flush(c, p) => Summary(w.inb, w.inb.Keys, c, p)
    case _ => true
  }

  /** Messages can be numbered, and their last fragment is flagged. */
  ghost predicate Enabled(w: World, s: Step) {
    Possible(w, s) && (s.SendData? ==> Deliverable(s.data))
  }

  function Wire(f: Fragment): seq<byte> {
    if |f.data| <= 16383 then DataBytes(false, [], [], [f]) else []
  }

  ghost function FragmentsIn(es: seq<Event>): Seen {
    set e | e in es && e.Received? :: (e.frag.msgId, e.frag.fragNum as nat)
  }

  ghost function Transmit(w: World, id: uint32, st: OutState, f: Fragment): World {
    w.(out := w.out[id := st], net := w.net + {Data(f)})
  }

  ghost function AtReceiver(w: World, es: seq<Event>): World {
    var r := OnEvents(Router(map[], w.inb, w.posts), PEER, es);
    w.(inb := r.inb, posts := r.posts, seen := w.seen + FragmentsIn(es))
  }

  ghost function AtSender(w: World, es: seq<Event>): World {
    var out' := OnEvents(Router(w.out, map[], []), PEER, es).out;
    var (told, rest) := Dropped(w.out, out', es);
    w.(out := out', acked := w.acked + told, covered := w.covered + rest)
  }

  /** The messages that have left the table, by complete acknowledgements and by others. */
  ghost function Dropped(out: OutTable, out': OutTable, es: seq<Event>): (set<uint32>, set<uint32>) {
    var gone := out.Keys - out'.Keys;
    (set id | id in gone && CompleteAck(id) in es, set id | id in gone && CompleteAck(id) !in es)
  }

  ghost function Handed(w: World, id: uint32, data: seq<byte>): World {
    w.(messages := w.messages[id := data], cuts := w.cuts[id := Cut(id, data)],
       out := w.out[id := OutState(id, data, [], 0)])
  }

  ghost function Sent(w: World, id: uint32): World {
    if id in w.out && SendNext(w.out[id]).Ok?
    then Transmit(w, id, SendNext(w.out[id]).value.0, SendNext(w.out[id]).value.1) else w
  }

  ghost function Resent(w: World, id: uint32): World {
    if id !in w.out then w
    else match OnTimer(w.out[id])
      case GiveUp => w.(out := w.out - {id})
      case Idle => w
      case Resend(st, f) => Transmit(w, id, st, f)
  }

  ghost function Flushed(w: World, c: seq<uint32>, p: seq<PartialAck>): World {
    w.(inb := Incomplete(w.inb), net := w.net + if w.inb == map[] then {} else {Acks(c, p)},
       legible := w.legible && Legible(c, p))
  }

  ghost function Lapsed(inb: InTable, id: uint32): set<uint32> {
    if id in inb && !AllReceived(inb[id].state) then {id} else {}
  }

  ghost function TimedOut(w: World, id: uint32): World {
    w.(inb := w.inb - {id}, expired := w.expired + Lapsed(w.inb, id))
  }

  /** Each handler runs to completion; packets pass through the wire format. */
  ghost function Next(w: World, s: Step): World {
    match s
    case SendData(id, data) => Handed(w, id, data)
    case SendCallback(id) => Sent(w, id)
    case SendTimer(id) => Resent(w, id)
    case DeliverData(f) => AtReceiver(w, ReadData(Wire(f)).events)
    case DeliverAcks(c, p) => AtSender(w, ReadData(DataBytes(false, c, p, [])).events)
    case Flush(c, p) => Flushed(w, c, p)
    case Expire(id) => TimedOut(w, id)
  }

  /** The steps are possible one after the other from `w`, with deliverable messages. */
  ghost predicate CanRun(w: World, steps: seq<Step>)
    decreases steps
  {
    steps == [] || (Enabled(w, steps[0]) && CanRun(Next(w, steps[0]), steps[1..]))
  }

  /** The same for messages of any length. */
  ghost predicate CanRunAny(w: World, steps: seq<Step>)
    decreases steps
  {
    steps == [] || (Possible(w, steps[0]) && CanRunAny(Next(w, steps[0]), steps[1..]))
  }

  ghost function Run(w: World, steps: seq<Step>): World
    decreases steps
  {
    if steps == [] then w else Run(Next(w, steps[0]), steps[1..])
  }

  // ------------------------------------------------------------------ invariant

  ghost predicate Delivered(messages: map<uint32, seq<byte>>, posts: seq<Post>, id: uint32) {
    id in messages && Post(PEER, id, messages[id]) in posts
  }

  ghost predicate GoodCut(id: uint32, cut: seq<Fragment>) {
    && Numbered(cut)
    && forall k :: 0 <= k < |cut| ==> cut[k].msgId == id && |cut[k].data| <= 1120
  }

  ghost predicate CutsOk(messages: map<uint32, seq<byte>>, cuts: Cuts) {
    && cuts.Keys == messages.Keys
    && forall id :: id in cuts ==>
         && GoodCut(id, cuts[id]) && cuts[id] == Cut(id, messages[id])
         && Joined(cuts[id]) == messages[id] && messages[id] != []
  }

  ghost predicate GoodCuts(cuts: Cuts) {
    forall id :: id in cuts ==> GoodCut(id, cuts[id])
  }

  ghost predicate IsPiece(cuts: Cuts, f: Fragment) {
    f.msgId in cuts && f.fragNum < |cuts[f.msgId]| && f == cuts[f.msgId][f.fragNum]
  }

  /** Only pieces of messages travel, and only of messages that have been cut. */
  ghost predicate NetDataOk(cuts: Cuts, net: set<Packet>, out: OutTable) {
    forall f :: Data(f) in net ==> IsPiece(cuts, f) && (f.msgId in out ==> out[f.msgId].frags != [])
  }

  /** A bitfield only claims fragments that arrived, and claims at least one. */
  ghost predicate FieldOk(seen: Seen, a: PartialAck) {
    && 1 <= |a.bits| <= 128 && a.bits[|a.bits| - 1]
    && forall k :: 0 <= k < |a.bits| && a.bits[k] ==> (a.msgId, k) in seen
  }

  ghost predicate AcksOk(messages: map<uint32, seq<byte>>, posts: seq<Post>, seen: Seen, t: bool, c: seq<uint32>,
                         p: seq<PartialAck>) {
    && (t ==> Legible(c, p))
    && (forall i :: 0 <= i < |c| ==> Delivered(messages, posts, c[i]))
    && (forall i :: 0 <= i < |p| ==> FieldOk(seen, p[i]))
  }

  ghost predicate NetAcksOk(messages: map<uint32, seq<byte>>, posts: seq<Post>, seen: Seen, t: bool, net: set<Packet>) {
    forall c, p :: Acks(c, p) in net ==> AcksOk(messages, posts, seen, t, c, p)
  }

  /** A message being sent: cut or not yet cut, and, as long as bitfields can be trusted,
      acknowledged only where the receiver has seen the fragment. */
  ghost predicate SendingOk(cut: seq<Fragment>, seen: Seen, t: bool, id: uint32, st: OutState) {
    && st.msgId == id
    && (st.frags != [] ==>
          && |st.frags| == |cut|
          && forall k :: 0 <= k < |cut| ==> st.frags[k].frag == cut[k] && (t && st.frags[k].ackd ==> (id, k) in seen))
  }

  ghost predicate OutOk(messages: map<uint32, seq<byte>>, cuts: Cuts, seen: Seen, t: bool, out: OutTable) {
    forall id :: id in out ==>
      id in cuts && id in messages && out[id].data == messages[id] && SendingOk(cuts[id], seen, t, id, out[id])
  }

  ghost function Got(st: InState): set<nat> {
    set k | 0 <= k < |st.frags| && st.frags[k].Some?
  }

  ghost predicate EntryOk(cut: seq<Fragment>, seen: Seen, id: uint32, e: Entry) {
    && e.hash == PEER && e.state.frags != [] && Knows(e.state, cut, Got(e.state))
    && forall k :: k in Got(e.state) ==> (id, k) in seen
  }

  ghost predicate InbOk(messages: map<uint32, seq<byte>>, cuts: Cuts, posts: seq<Post>, seen: Seen, inb: InTable) {
    forall id :: id in inb ==>
      && id in cuts && EntryOk(cuts[id], seen, id, inb[id])
      && (AllReceived(inb[id].state) ==> Delivered(messages, posts, id))
  }

  ghost predicate SeenOk(cuts: Cuts, net: set<Packet>, seen: Seen) {
    forall id, k :: (id, k) in seen ==> id in cuts && k < |cuts[id]| && Data(cuts[id][k]) in net
  }

  /** Unless an incomplete state of the message timed out, the receiver has posted the
      message or still holds everything it has seen of it. */
  ghost predicate Held(inb: InTable, id: uint32, k: nat) {
    id in inb && k in Got(inb[id].state)
  }

  ghost predicate MemoryOk(messages: map<uint32, seq<byte>>, posts: seq<Post>, seen: Seen, inb: InTable,
                           expired: set<uint32>) {
    forall id, k :: (id, k) in seen ==> id in expired || Delivered(messages, posts, id) || Held(inb, id, k)
  }

  ghost predicate AllSeen(cuts: Cuts, seen: Seen, id: uint32) {
    id in cuts && forall k :: 0 <= k < |cuts[id]| ==> (id, k) in seen
  }

  ghost predicate DropsOk(messages: map<uint32, seq<byte>>, cuts: Cuts, posts: seq<Post>, seen: Seen, t: bool,
                          acked: set<uint32>, covered: set<uint32>) {
    && (forall id :: id in acked ==> Delivered(messages, posts, id))
    && (t ==> forall id :: id in covered ==> AllSeen(cuts, seen, id))
  }

  /** Every post is a message that was sent, with its bytes. */
  ghost predicate PostsOk(messages: map<uint32, seq<byte>>, posts: seq<Post>) {
    forall p :: p in posts ==> p.hash == PEER && p.msgId in messages && p.data == messages[p.msgId]
  }

  /** A state that times out incomplete is of a message of at least two fragments. */
  ghost predicate ExpiredOk(cuts: Cuts, expired: set<uint32>) {
    forall id :: id in expired ==> id in cuts && |cuts[id]| >= 2
  }

  ghost predicate Inv(w: World) {
    && CutsOk(w.messages, w.cuts)
    && NetDataOk(w.cuts, w.net, w.out)
    && NetAcksOk(w.messages, w.posts, w.seen, w.legible, w.net)
    && OutOk(w.messages, w.cuts, w.seen, w.legible, w.out)
    && InbOk(w.messages, w.cuts, w.posts, w.seen, w.inb)
    && SeenOk(w.cuts, w.net, w.seen)
    && MemoryOk(w.messages, w.posts, w.seen, w.inb, w.expired)
    && DropsOk(w.messages, w.cuts, w.posts, w.seen, w.legible, w.acked, w.covered)
    && PostsOk(w.messages, w.posts)
    && ExpiredOk(w.cuts, w.expired)
  }

  // ------------------------------------------------- the history only grows

  ghost predicate Extends<K, V>(m: map<K, V>, m': map<K, V>) {
    forall k :: k in m ==> k in m' && m'[k] == m[k]
  }

  ghost predicate AtLeast(posts: seq<Post>, posts': seq<Post>) {
    forall p :: p in posts ==> p in posts'
  }

  lemma NetAcksGrow(m: map<uint32, seq<byte>>, m': map<uint32, seq<byte>>, posts: seq<Post>, posts': seq<Post>,
                    seen: Seen, seen': Seen, t: bool, net: set<Packet>)
    requires NetAcksOk(m, posts, seen, t, net) && Extends(m, m') && AtLeast(posts, posts') && seen <= seen'
    ensures NetAcksOk(m', posts', seen', t, net)
  {
    forall c, p | Acks(c, p) in net ensures AcksOk(m', posts', seen', t, c, p) {
      assert AcksOk(m, posts, seen, t, c, p);
      forall i | 0 <= i < |c| ensures Delivered(m', posts', c[i]) {
        assert Delivered(m, posts, c[i]);
      }
      forall i | 0 <= i < |p| ensures FieldOk(seen', p[i]) {
        assert FieldOk(seen, p[i]);
      }
    }
  }

  lemma OutGrow(m: map<uint32, seq<byte>>, m': map<uint32, seq<byte>>, cuts: Cuts, cuts': Cuts,
                seen: Seen, seen': Seen, t: bool, out: OutTable)
    requires OutOk(m, cuts, seen, t, out) && Extends(m, m') && Extends(cuts, cuts') && seen <= seen'
    ensures OutOk(m', cuts', seen', t, out)
  {
    forall id | id in out ensures SendingOk(cuts'[id], seen', t, id, out[id]) {
      assert SendingOk(cuts[id], seen, t, id, out[id]);
    }
  }

  lemma InbGrow(m: map<uint32, seq<byte>>, m': map<uint32, seq<byte>>, cuts: Cuts, cuts': Cuts,
                posts: seq<Post>, posts': seq<Post>, seen: Seen, seen': Seen, inb: InTable)
    requires InbOk(m, cuts, posts, seen, inb)
    requires Extends(m, m') && Extends(cuts, cuts') && AtLeast(posts, posts') && seen <= seen'
    ensures InbOk(m', cuts', posts', seen', inb)
  {
    forall id | id in inb
      ensures id in cuts' && EntryOk(cuts'[id], seen', id, inb[id])
      ensures AllReceived(inb[id].state) ==> Delivered(m', posts', id)
    {
      assert EntryOk(cuts[id], seen, id, inb[id]);
    }
  }

  lemma DropsGrow(m: map<uint32, seq<byte>>, m': map<uint32, seq<byte>>, cuts: Cuts, cuts': Cuts,
                  posts: seq<Post>, posts': seq<Post>, seen: Seen, seen': Seen, t: bool,
                  acked: set<uint32>, covered: set<uint32>)
    requires DropsOk(m, cuts, posts, seen, t, acked, covered)
    requires Extends(m, m') && Extends(cuts, cuts') && AtLeast(posts, posts') && seen <= seen'
    ensures DropsOk(m', cuts', posts', seen', t, acked, covered)
  {
    forall id | id in acked ensures Delivered(m', posts', id) {
      assert Delivered(m, posts, id);
    }
    forall id | t && id in covered ensures AllSeen(cuts', seen', id) {
      assert AllSeen(cuts, seen, id);
    }
  }

  // ---------------------------------------------------------------- sender steps

  lemma CutOk(id: uint32, data: seq<byte>)
    requires Deliverable(data)
    ensures GoodCut(id, Cut(id, data)) && Joined(Cut(id, data)) == data && data != []
  {
    CutIsNumbered(id, data);
    JoinedCut(id, data);
  }

  lemma SendDataCuts(w: World, id: uint32, data: seq<byte>)
    requires CutsOk(w.messages, w.cuts) && id !in w.messages && Deliverable(data)
    ensures CutsOk(w.messages[id := data], w.cuts[id := Cut(id, data)])
    ensures Extends(w.messages, w.messages[id := data]) && Extends(w.cuts, w.cuts[id := Cut(id, data)])
  {
    CutOk(id, data);
    assert id !in w.cuts;
  }

  lemma SendDataNet(cuts: Cuts, cuts': Cuts, net: set<Packet>, out: OutTable, id: uint32, st: OutState)
    requires NetDataOk(cuts, net, out) && Extends(cuts, cuts') && id !in cuts
    ensures NetDataOk(cuts', net, out[id := st])
  {
    forall f | Data(f) in net
      ensures IsPiece(cuts', f) && (f.msgId in out[id := st] ==> out[id := st][f.msgId].frags != [])
    {
      assert IsPiece(cuts, f);
    }
  }

  lemma SendDataOut(m: map<uint32, seq<byte>>, cuts: Cuts, seen: Seen, t: bool, out: OutTable, id: uint32)
    requires OutOk(m, cuts, seen, t, out) && id in m && id in cuts
    ensures OutOk(m, cuts, seen, t, out[id := OutState(id, m[id], [], 0)])
  {
  }

  lemma SeenGrow(cuts: Cuts, cuts': Cuts, net: set<Packet>, net': set<Packet>, seen: Seen)
    requires SeenOk(cuts, net, seen) && Extends(cuts, cuts') && net <= net'
    ensures SeenOk(cuts', net', seen)
  {
  }

  lemma MemoryGrow(m: map<uint32, seq<byte>>, m': map<uint32, seq<byte>>, posts: seq<Post>, seen: Seen,
                   inb: InTable, expired: set<uint32>)
    requires MemoryOk(m, posts, seen, inb, expired) && Extends(m, m')
    ensures MemoryOk(m', posts, seen, inb, expired)
  {
    forall id, k | (id, k) in seen ensures id in expired || Delivered(m', posts, id) || Held(inb, id, k) {
      assert id in expired || Delivered(m, posts, id) || Held(inb, id, k);
    }
  }

  lemma SendDataKeeps(w: World, id: uint32, data: seq<byte>)
    requires Inv(w) && id !in w.messages && Deliverable(data)
    ensures Inv(Handed(w, id, data))
  {
    var m', cuts' := w.messages[id := data], w.cuts[id := Cut(id, data)];
    SendDataCuts(w, id, data);
    SendDataNet(w.cuts, cuts', w.net, w.out, id, OutState(id, data, [], 0));
    NetAcksGrow(w.messages, m', w.posts, w.posts, w.seen, w.seen, w.legible, w.net);
    OutGrow(w.messages, m', w.cuts, cuts', w.seen, w.seen, w.legible, w.out);
    SendDataOut(m', cuts', w.seen, w.legible, w.out, id);
    InbGrow(w.messages, m', w.cuts, cuts', w.posts, w.posts, w.seen, w.seen, w.inb);
    SeenGrow(w.cuts, cuts', w.net, w.net, w.seen);
    MemoryGrow(w.messages, m', w.posts, w.seen, w.inb, w.expired);
    DropsGrow(w.messages, m', w.cuts, cuts', w.posts, w.posts, w.seen, w.seen, w.legible, w.acked, w.covered);
  }

  lemma TransmitNet(cuts: Cuts, net: set<Packet>, out: OutTable, id: uint32, st: OutState, f: Fragment)
    requires NetDataOk(cuts, net, out) && IsPiece(cuts, f) && f.msgId == id && st.frags != []
    ensures NetDataOk(cuts, net + {Data(f)}, out[id := st])
  {
  }

  lemma TransmitAcks(m: map<uint32, seq<byte>>, posts: seq<Post>, seen: Seen, t: bool, net: set<Packet>, f: Fragment)
    requires NetAcksOk(m, posts, seen, t, net)
    ensures NetAcksOk(m, posts, seen, t, net + {Data(f)})
  {
  }

  lemma TransmitOut(m: map<uint32, seq<byte>>, cuts: Cuts, seen: Seen, t: bool, out: OutTable, id: uint32, st: OutState)
    requires OutOk(m, cuts, seen, t, out) && id in out
    requires st.data == out[id].data && SendingOk(cuts[id], seen, t, id, st)
    ensures OutOk(m, cuts, seen, t, out[id := st])
  {
  }

  lemma TransmitKeeps(w: World, id: uint32, st: OutState, f: Fragment)
    requires Inv(w) && id in w.out && id in w.cuts && IsPiece(w.cuts, f) && f.msgId == id
    requires st.frags != [] && st.data == w.out[id].data && SendingOk(w.cuts[id], w.seen, w.legible, id, st)
    ensures Inv(Transmit(w, id, st, f))
  {
    TransmitNet(w.cuts, w.net, w.out, id, st, f);
    TransmitAcks(w.messages, w.posts, w.seen, w.legible, w.net, f);
    TransmitOut(w.messages, w.cuts, w.seen, w.legible, w.out, id, st);
    SeenGrow(w.cuts, w.cuts, w.net, w.net + {Data(f)}, w.seen);
  }

  lemma FragmentedOk(cut: seq<Fragment>, seen: Seen, t: bool, id: uint32, st: OutState)
    requires SendingOk(cut, seen, t, id, st) && cut == Cut(id, st.data)
    ensures SendingOk(cut, seen, t, id, Fragmented(st)) && Fragmented(st).data == st.data
    ensures cut != [] ==> Fragmented(st).frags != []
  {
  }

  lemma MarkSentOk(cut: seq<Fragment>, seen: Seen, t: bool, id: uint32, st: OutState, num: byte)
    requires SendingOk(cut, seen, t, id, st)
    ensures SendingOk(cut, seen, t, id, MarkSent(st, num)) && |MarkSent(st, num).frags| == |st.frags|
  {
  }

  /** `sendDataCallback` sends a piece of the message and keeps the books. */
  lemma SendNextOk(cut: seq<Fragment>, seen: Seen, t: bool, id: uint32, st: OutState)
    requires SendingOk(cut, seen, t, id, st) && cut == Cut(id, st.data) && GoodCut(id, cut) && SendNext(st).Ok?
    ensures var (st', f) := SendNext(st).value;
      && st'.data == st.data && st'.frags != [] && SendingOk(cut, seen, t, id, st')
      && f.msgId == id && f.fragNum < |cut| && f == cut[f.fragNum]
  {
    FragmentedOk(cut, seen, t, id, st);
    var st1 := Fragmented(st);
    var i := FirstUnsent(st1.frags);
    MarkSentOk(cut, seen, t, id, st1, st1.frags[i].frag.fragNum);
  }

  lemma ResendOk(cut: seq<Fragment>, seen: Seen, t: bool, id: uint32, st: OutState)
    requires SendingOk(cut, seen, t, id, st) && GoodCut(id, cut) && OnTimer(st).Resend?
    ensures var r := OnTimer(st);
      && r.st.data == st.data && r.st.frags != [] && SendingOk(cut, seen, t, id, r.st)
      && r.frag.msgId == id && r.frag.fragNum < |cut| && r.frag == cut[r.frag.fragNum]
  {
    var i := FirstUnackd(st.frags);
    MarkSentOk(cut, seen, t, id, st, st.frags[i].frag.fragNum);
  }

  lemma LookUp(w: World, id: uint32)
    requires Inv(w) && id in w.out
    ensures id in w.cuts && GoodCut(id, w.cuts[id]) && w.cuts[id] == Cut(id, w.out[id].data)
    ensures SendingOk(w.cuts[id], w.seen, w.legible, id, w.out[id])
  {
  }

  lemma SendCallbackKeeps(w: World, id: uint32)
    requires Inv(w)
    ensures Inv(Sent(w, id))
  {
    if id in w.out && SendNext(w.out[id]).Ok? {
      LookUp(w, id);
      SendNextOk(w.cuts[id], w.seen, w.legible, id, w.out[id]);
      TransmitKeeps(w, id, SendNext(w.out[id]).value.0, SendNext(w.out[id]).value.1);
    }
  }

  lemma ForgetOut(m: map<uint32, seq<byte>>, cuts: Cuts, seen: Seen, t: bool, net: set<Packet>, out: OutTable,
                  ids: set<uint32>)
    requires OutOk(m, cuts, seen, t, out) && NetDataOk(cuts, net, out)
    ensures OutOk(m, cuts, seen, t, out - ids) && NetDataOk(cuts, net, out - ids)
  {
  }

  lemma SendTimerKeeps(w: World, id: uint32)
    requires Inv(w)
    ensures Inv(Resent(w, id))
  {
    if id in w.out {
      LookUp(w, id);
      match OnTimer(w.out[id])
      case GiveUp => ForgetOut(w.messages, w.cuts, w.seen, w.legible, w.net, w.out, {id});
      case Idle =>
      case Resend(st, f) =>
        ResendOk(w.cuts[id], w.seen, w.legible, id, w.out[id]);
        TransmitKeeps(w, id, st, f);
    }
  }

  // ------------------------------------------------------------ acknowledgements

  lemma {:induction false} SetBitsMembers(bits: seq<bool>, first: nat, x: nat)
    ensures x in SetBits(bits, first) <==> first <= x < first + |bits| && bits[x - first]
  {
    if bits != [] {
      var head: seq<nat> := if bits[0] then [first] else [];
      SetBitsMembers(bits[1..], first + 1, x);
      assert x in head <==> x == first && bits[0];
      assert SetBits(bits, first) == head + SetBits(bits[1..], first + 1);
    }
  }

  lemma {:induction false} MarkAllKeeps(st: OutState, nums: seq<nat>)
    ensures var st' := MarkAllAckd(st, nums);
      && st'.(frags := []) == st.(frags := []) && |st'.frags| == |st.frags|
      && forall k :: 0 <= k < |st.frags| ==> st'.frags[k].frag == st.frags[k].frag
    decreases nums
  {
    if nums != [] {
      MarkAllKeeps(MarkAckd(st, nums[0] % 256), nums[1..]);
    }
  }

  lemma {:induction false} MarkAllMarks(st: OutState, nums: seq<nat>, k: nat)
    requires k < |st.frags| && forall i :: 0 <= i < |nums| ==> nums[i] < 256
    ensures k < |MarkAllAckd(st, nums).frags|
    ensures MarkAllAckd(st, nums).frags[k].ackd <==> st.frags[k].ackd || k in nums
    decreases nums
  {
    if nums != [] {
      MarkAllMarks(MarkAckd(st, nums[0] % 256), nums[1..], k);
    }
  }

  /** What an acknowledgement may say about a message. */
  ghost predicate Honest(m: map<uint32, seq<byte>>, posts: seq<Post>, seen: Seen, t: bool, e: Event) {
    match e
    case CompleteAck(id) => Delivered(m, posts, id)
    case BitfieldAck(id, nums) => t ==> HonestField(seen, id, nums)
    case Received(_) => true
  }

  ghost predicate AllHonest(m: map<uint32, seq<byte>>, posts: seq<Post>, seen: Seen, t: bool, es: seq<Event>) {
    forall i :: 0 <= i < |es| ==> Honest(m, posts, seen, t, es[i])
  }

  ghost predicate HonestField(seen: Seen, id: uint32, nums: seq<nat>) {
    nums != [] && forall i :: 0 <= i < |nums| ==> nums[i] < 256 && (id, nums[i]) in seen
  }

  lemma MarkedOk(cut: seq<Fragment>, seen: Seen, t: bool, id: uint32, st: OutState, nums: seq<nat>)
    requires SendingOk(cut, seen, t, id, st) && (t ==> HonestField(seen, id, nums))
    ensures SendingOk(cut, seen, t, id, MarkAllAckd(st, nums))
    ensures MarkAllAckd(st, nums).data == st.data && |MarkAllAckd(st, nums).frags| == |st.frags|
  {
    MarkAllKeeps(st, nums);
    forall k | 0 <= k < |st.frags| && t && MarkAllAckd(st, nums).frags[k].ackd ensures (id, k) in seen {
      MarkAllMarks(st, nums, k);
    }
  }

  /** A message dropped on a bitfield that can be trusted was seen completely. */
  lemma DroppedSeen(cuts: Cuts, seen: Seen, net: set<Packet>, out: OutTable, id: uint32, nums: seq<nat>, st: OutState)
    requires NetDataOk(cuts, net, out) && SeenOk(cuts, net, seen) && GoodCuts(cuts) && id in out && id in cuts
    requires HonestField(seen, id, nums) && |st.frags| == |out[id].frags|
    requires SendingOk(cuts[id], seen, true, id, st) && AllAckd(st)
    ensures AllSeen(cuts, seen, id)
  {
    assert (id, nums[0]) in seen;
    SeenMeansCut(cuts, seen, net, out, id, nums[0]);
  }

  /** One acknowledgement: what is dropped was delivered or seen completely. */
  lemma AckKeeps(m: map<uint32, seq<byte>>, cuts: Cuts, posts: seq<Post>, seen: Seen, t: bool,
                 net: set<Packet>, out: OutTable, e: Event)
    requires OutOk(m, cuts, seen, t, out) && NetDataOk(cuts, net, out) && SeenOk(cuts, net, seen)
    requires GoodCuts(cuts) && Honest(m, posts, seen, t, e)
    ensures OutOk(m, cuts, seen, t, OnAck(out, e)) && NetDataOk(cuts, net, OnAck(out, e))
    ensures OnAck(out, e).Keys <= out.Keys
    ensures forall id :: id in out && id !in OnAck(out, e) ==> e == CompleteAck(id) || (t ==> AllSeen(cuts, seen, id))
  {
    match e
    case CompleteAck(id) => ForgetOut(m, cuts, seen, t, net, out, {id});
    case BitfieldAck(id, nums) =>
      if id in out {
        var st := MarkAllAckd(out[id], nums);
        MarkedOk(cuts[id], seen, t, id, out[id], nums);
        if t && AllAckd(st) {
          DroppedSeen(cuts, seen, net, out, id, nums, st);
        }
        ForgetOut(m, cuts, seen, t, net, out, {id});
        TransmitOut(m, cuts, seen, t, out, id, st);
        AckedNet(cuts, net, out, id, st);
      }
    case Received(_) =>
  }

  lemma SeenMeansCut(cuts: Cuts, seen: Seen, net: set<Packet>, out: OutTable, id: uint32, k: nat)
    requires NetDataOk(cuts, net, out) && SeenOk(cuts, net, seen) && (id, k) in seen && id in out
    requires forall j :: 0 <= j < |cuts[id]| ==> cuts[id][j].msgId == id
    ensures out[id].frags != []
  {
    assert Data(cuts[id][k]) in net;
  }

  lemma AckedNet(cuts: Cuts, net: set<Packet>, out: OutTable, id: uint32, st: OutState)
    requires NetDataOk(cuts, net, out) && id in out && |st.frags| == |out[id].frags|
    ensures NetDataOk(cuts, net, out[id := st])
  {
  }

  lemma {:induction false} AllAcksKeep(m: map<uint32, seq<byte>>, cuts: Cuts, posts: seq<Post>, seen: Seen, t: bool,
                                       net: set<Packet>, out: OutTable, es: seq<Event>)
    requires OutOk(m, cuts, seen, t, out) && NetDataOk(cuts, net, out) && SeenOk(cuts, net, seen) && GoodCuts(cuts)
    requires AllHonest(m, posts, seen, t, es)
    ensures var out' := OnAcks(out, es);
      && OutOk(m, cuts, seen, t, out') && NetDataOk(cuts, net, out') && out'.Keys <= out.Keys
      && forall id :: id in out && id !in out' ==> CompleteAck(id) in es || (t ==> AllSeen(cuts, seen, id))
    decreases es
  {
    if es != [] {
      AckKeeps(m, cuts, posts, seen, t, net, out, es[0]);
      AllAcksKeep(m, cuts, posts, seen, t, net, OnAck(out, es[0]), es[1..]);
    }
  }

  lemma FieldIsHonest(seen: Seen, a: PartialAck)
    requires FieldOk(seen, a)
    ensures HonestField(seen, a.msgId, SetBits(a.bits, 0))
  {
    var nums := SetBits(a.bits, 0);
    SetBitsMembers(a.bits, 0, |a.bits| - 1);
    forall i | 0 <= i < |nums| ensures nums[i] < 256 && (a.msgId, nums[i]) in seen {
      SetBitsMembers(a.bits, 0, nums[i]);
    }
  }

  lemma AckIsHonest(m: map<uint32, seq<byte>>, posts: seq<Post>, seen: Seen, t: bool,
                    c: seq<uint32>, p: seq<PartialAck>, e: Event)
    requires AcksOk(m, posts, seen, t, c, p) && e in ReadData(DataBytes(false, c, p, [])).events
    ensures Honest(m, posts, seen, t, e)
  {
    match e
    case CompleteAck(id) =>
      CompletesWritten(c, p, e);
    case BitfieldAck(id, nums) =>
      if t {
        FieldsWritten(c, p, e);
        var i :| 0 <= i < |p| && e == BitfieldAck(p[i].msgId, SetBits(p[i].bits, 0));
        FieldIsHonest(seen, p[i]);
      }
    case Received(_) =>
  }

  lemma DropsMore(m: map<uint32, seq<byte>>, cuts: Cuts, posts: seq<Post>, seen: Seen, t: bool,
                  acked: set<uint32>, covered: set<uint32>, told: set<uint32>, rest: set<uint32>)
    requires DropsOk(m, cuts, posts, seen, t, acked, covered)
    requires forall id :: id in told ==> Delivered(m, posts, id)
    requires t ==> forall id :: id in rest ==> AllSeen(cuts, seen, id)
    ensures DropsOk(m, cuts, posts, seen, t, acked + told, covered + rest)
  {
  }

  lemma AcksDrops(w: World, es: seq<Event>, out': OutTable)
    requires DropsOk(w.messages, w.cuts, w.posts, w.seen, w.legible, w.acked, w.covered)
    requires AllHonest(w.messages, w.posts, w.seen, w.legible, es)
    requires forall id :: id in w.out && id !in out' ==>
               CompleteAck(id) in es || (w.legible ==> AllSeen(w.cuts, w.seen, id))
    ensures var (told, rest) := Dropped(w.out, out', es);
      DropsOk(w.messages, w.cuts, w.posts, w.seen, w.legible, w.acked + told, w.covered + rest)
  {
    var (told, rest) := Dropped(w.out, out', es);
    forall id | id in told ensures Delivered(w.messages, w.posts, id) {
      var i :| 0 <= i < |es| && es[i] == CompleteAck(id);
      assert Honest(w.messages, w.posts, w.seen, w.legible, es[i]);
    }
    DropsMore(w.messages, w.cuts, w.posts, w.seen, w.legible, w.acked, w.covered, told, rest);
  }

  lemma AtSenderKeeps(w: World, es: seq<Event>)
    requires Inv(w) && AllHonest(w.messages, w.posts, w.seen, w.legible, es)
    ensures Inv(AtSender(w, es))
  {
    OutAfter(Router(w.out, map[], []), PEER, es);
    AllAcksKeep(w.messages, w.cuts, w.posts, w.seen, w.legible, w.net, w.out, es);
    AcksDrops(w, es, OnAcks(w.out, es));
  }

  lemma AcksAreHonest(m: map<uint32, seq<byte>>, posts: seq<Post>, seen: Seen, t: bool, c: seq<uint32>,
                      p: seq<PartialAck>)
    requires AcksOk(m, posts, seen, t, c, p)
    ensures AllHonest(m, posts, seen, t, ReadData(DataBytes(false, c, p, [])).events)
  {
    var es := ReadData(DataBytes(false, c, p, [])).events;
    forall i | 0 <= i < |es| ensures Honest(m, posts, seen, t, es[i]) {
      AckIsHonest(m, posts, seen, t, c, p, es[i]);
    }
  }

  lemma DeliverAcksKeeps(w: World, c: seq<uint32>, p: seq<PartialAck>)
    requires Inv(w) && Acks(c, p) in w.net
    ensures Inv(AtSender(w, ReadData(DataBytes(false, c, p, [])).events))
  {
    AcksAreHonest(w.messages, w.posts, w.seen, w.legible, c, p);
    AtSenderKeeps(w, ReadData(DataBytes(false, c, p, [])).events);
  }

  // -------------------------------------------------------------- receiver steps

  lemma KnowsGot(st: InState, cut: seq<Fragment>, got: set<nat>)
    requires Knows(st, cut, got)
    ensures Got(st) == got
  {
  }

  lemma UpdatedState(st: InState, cut: seq<Fragment>, k: nat)
    requires Numbered(cut) && k < |cut| && Knows(st, cut, Got(st))
    ensures var st' := AddFragment(st, cut[k]);
      Knows(st', cut, Got(st')) && Got(st') == Got(st) + {k} && st'.frags != []
  {
    KnowsOneMore(st, cut, Got(st), k);
    KnowsGot(AddFragment(st, cut[k]), cut, Got(st) + {k});
  }

  lemma UpdatedEntry(cut: seq<Fragment>, seen: Seen, id: uint32, st: InState, k: nat)
    requires Numbered(cut) && k < |cut| && Knows(st, cut, Got(st))
    requires forall j :: j in Got(st) ==> (id, j) in seen
    ensures var e := Entry(PEER, AddFragment(st, cut[k]));
      EntryOk(cut, seen + {(id, k)}, id, e) && Got(st) <= Got(e.state) && k in Got(e.state)
  {
    UpdatedState(st, cut, k);
  }

  lemma CompletePosts(cut: seq<Fragment>, id: uint32, e: Entry)
    requires cut != [] && Joined(cut) != [] && e.hash == PEER
    requires Knows(e.state, cut, Got(e.state)) && AllReceived(e.state)
    ensures Posted(e, id) == [Post(PEER, id, Joined(cut))]
  {
    KnowsMeans(e.state, cut, Got(e.state));
  }

  /** Filing a fragment: the entry stays exact. */
  lemma UpdatedOk(cut: seq<Fragment>, seen: Seen, inb: InTable, f: Fragment)
    requires Numbered(cut) && f.fragNum < |cut| && cut[f.fragNum] == f
    requires f.msgId in inb ==> EntryOk(cut, seen, f.msgId, inb[f.msgId])
    ensures var id, e := f.msgId, Updated(inb, PEER, f);
      && EntryOk(cut, seen + {(id, f.fragNum as nat)}, id, e)
      && (id in inb ==> Got(inb[id].state) <= Got(e.state)) && f.fragNum as nat in Got(e.state)
  {
    var id := f.msgId;
    if id in inb {
      UpdatedEntry(cut, seen, id, inb[id].state, f.fragNum);
    } else {
      KnowsNothing(cut);
      assert Got(EMPTY) == {};
      UpdatedEntry(cut, seen, id, EMPTY, f.fragNum);
    }
  }

  /** A complete entry posts the message. */
  lemma UpdatedPosts(m: map<uint32, seq<byte>>, cuts: Cuts, posts: seq<Post>, seen: Seen, id: uint32, e: Entry)
    requires CutsOk(m, cuts) && id in cuts && EntryOk(cuts[id], seen, id, e)
    ensures AllReceived(e.state) ==> Delivered(m, posts + Posted(e, id), id)
    ensures PostsOk(m, posts) ==> PostsOk(m, posts + Posted(e, id))
  {
    if AllReceived(e.state) {
      CompletePosts(cuts[id], id, e);
    }
  }

  lemma FileInb(m: map<uint32, seq<byte>>, cuts: Cuts, posts: seq<Post>, posts': seq<Post>, seen: Seen, seen': Seen,
                inb: InTable, id: uint32, e: Entry)
    requires InbOk(m, cuts, posts, seen, inb) && id in cuts && AtLeast(posts, posts') && seen <= seen'
    requires EntryOk(cuts[id], seen', id, e) && (AllReceived(e.state) ==> Delivered(m, posts', id))
    ensures InbOk(m, cuts, posts', seen', inb[id := e])
  {
    InbGrow(m, m, cuts, cuts, posts, posts', seen, seen', inb);
  }

  lemma FileMemory(m: map<uint32, seq<byte>>, posts: seq<Post>, posts': seq<Post>, seen: Seen,
                   inb: InTable, expired: set<uint32>, id: uint32, k: nat, e: Entry)
    requires MemoryOk(m, posts, seen, inb, expired) && AtLeast(posts, posts')
    requires (id in inb ==> Got(inb[id].state) <= Got(e.state)) && k in Got(e.state)
    ensures MemoryOk(m, posts', seen + {(id, k)}, inb[id := e], expired)
  {
    forall i, j | (i, j) in seen + {(id, k)}
      ensures i in expired || Delivered(m, posts', i) || Held(inb[id := e], i, j)
    {
      if (i, j) in seen {
        assert i in expired || Delivered(m, posts, i) || Held(inb, i, j);
      }
    }
  }

  lemma SeenOneMore(cuts: Cuts, net: set<Packet>, seen: Seen, f: Fragment)
    requires SeenOk(cuts, net, seen) && IsPiece(cuts, f) && Data(f) in net
    ensures SeenOk(cuts, net, seen + {(f.msgId, f.fragNum as nat)})
  {
  }

  lemma SevenBits(f: Fragment)
    requires f.fragNum < 128
    ensures OnWire(f) == f
  {
  }

  /** A piece crosses the wire unchanged. */
  lemma PieceOnWire(f: Fragment)
    requires f.fragNum < 128 && |f.data| <= 1120
    ensures ReadData(Wire(f)).events == [Received(f)]
  {
    SevenBits(f);
    FragmentAlone(f);
  }

  /** The world once a piece has been filed. */
  ghost function Filed(w: World, f: Fragment, e: Entry): World {
    w.(inb := w.inb[f.msgId := e], posts := w.posts + Posted(e, f.msgId),
       seen := w.seen + {(f.msgId, f.fragNum as nat)})
  }

  lemma OneEvent(w: World, f: Fragment)
    ensures AtReceiver(w, [Received(f)]) == Filed(w, f, Updated(w.inb, PEER, f))
  {
    var es := [Received(f)];
    var r := Router(map[], w.inb, w.posts);
    assert es[1..] == [];
    assert OnEvents(r, PEER, es) == OnEvent(r, PEER, es[0]);
    assert FragmentsIn(es) == {(f.msgId, f.fragNum as nat)};
  }

  lemma PlacedKeeps(w: World, f: Fragment, e: Entry, posts': seq<Post>, seen': Seen)
    requires Inv(w) && Data(f) in w.net && IsPiece(w.cuts, f)
    requires AtLeast(w.posts, posts') && PostsOk(w.messages, posts') && seen' == w.seen + {(f.msgId, f.fragNum as nat)}
    requires EntryOk(w.cuts[f.msgId], seen', f.msgId, e)
    requires AllReceived(e.state) ==> Delivered(w.messages, posts', f.msgId)
    requires (f.msgId in w.inb ==> Got(w.inb[f.msgId].state) <= Got(e.state)) && f.fragNum as nat in Got(e.state)
    ensures Inv(w.(inb := w.inb[f.msgId := e], posts := posts', seen := seen'))
  {
    NetAcksGrow(w.messages, w.messages, w.posts, posts', w.seen, seen', w.legible, w.net);
    OutGrow(w.messages, w.messages, w.cuts, w.cuts, w.seen, seen', w.legible, w.out);
    FileInb(w.messages, w.cuts, w.posts, posts', w.seen, seen', w.inb, f.msgId, e);
    SeenOneMore(w.cuts, w.net, w.seen, f);
    FileMemory(w.messages, w.posts, posts', w.seen, w.inb, w.expired, f.msgId, f.fragNum, e);
    DropsGrow(w.messages, w.messages, w.cuts, w.cuts, w.posts, posts', w.seen, seen', w.legible, w.acked, w.covered);
  }

  /** Delivering a piece files exactly that piece. */
  lemma DeliveredPiece(w: World, f: Fragment)
    requires f.fragNum < 128 && |f.data| <= 1120
    ensures AtReceiver(w, ReadData(Wire(f)).events) == Filed(w, f, Updated(w.inb, PEER, f))
  {
    PieceOnWire(f);
    OneEvent(w, f);
  }

  lemma PieceKeeps(w: World, f: Fragment)
    requires Inv(w) && Data(f) in w.net && IsPiece(w.cuts, f) && Numbered(w.cuts[f.msgId])
    ensures Inv(Filed(w, f, Updated(w.inb, PEER, f)))
  {
    var id, e := f.msgId, Updated(w.inb, PEER, f);
    UpdatedOk(w.cuts[id], w.seen, w.inb, f);
    UpdatedPosts(w.messages, w.cuts, w.posts, w.seen + {(id, f.fragNum as nat)}, id, e);
    PlacedKeeps(w, f, e, w.posts + Posted(e, id), w.seen + {(id, f.fragNum as nat)});
  }

  lemma DeliverDataKeeps(w: World, f: Fragment)
    requires Inv(w) && Data(f) in w.net
    ensures Inv(AtReceiver(w, ReadData(Wire(f)).events))
  {
    assert IsPiece(w.cuts, f) && GoodCut(f.msgId, w.cuts[f.msgId]);
    DeliveredPiece(w, f);
    PieceKeeps(w, f);
  }

  lemma EntryField(cut: seq<Fragment>, seen: Seen, id: uint32, e: Entry)
    requires GoodCut(id, cut) && EntryOk(cut, seen, id, e)
    ensures FieldOk(seen, PartialAck(id, FragmentsReceived(e.state)))
  {
    assert |e.state.frags| - 1 in Got(e.state);
  }

  /** The acknowledgements of a flush are true. */
  lemma FlushAcksOk(m: map<uint32, seq<byte>>, cuts: Cuts, posts: seq<Post>, seen: Seen, inb: InTable,
                    c: seq<uint32>, p: seq<PartialAck>)
    requires GoodCuts(cuts) && InbOk(m, cuts, posts, seen, inb)
    requires Summary(inb, inb.Keys, c, p)
    ensures AcksOk(m, posts, seen, Legible(c, p), c, p)
  {
    forall i | 0 <= i < |p| ensures FieldOk(seen, p[i]) {
      EntryField(cuts[p[i].msgId], seen, p[i].msgId, inb[p[i].msgId]);
    }
  }

  lemma ForgetMemory(m: map<uint32, seq<byte>>, cuts: Cuts, posts: seq<Post>, seen: Seen, inb: InTable, inb': InTable,
                     expired: set<uint32>, expired': set<uint32>)
    requires InbOk(m, cuts, posts, seen, inb) && MemoryOk(m, posts, seen, inb, expired) && expired <= expired'
    requires forall id :: id in inb && !(id in inb' && inb'[id] == inb[id]) ==>
               AllReceived(inb[id].state) || id in expired'
    ensures MemoryOk(m, posts, seen, inb', expired')
  {
    forall id, k | (id, k) in seen ensures id in expired' || Delivered(m, posts, id) || Held(inb', id, k) {
      assert id in expired || Delivered(m, posts, id) || Held(inb, id, k);
    }
  }

  lemma ForgetInb(m: map<uint32, seq<byte>>, cuts: Cuts, posts: seq<Post>, seen: Seen, inb: InTable, inb': InTable)
    requires InbOk(m, cuts, posts, seen, inb) && Extends(inb', inb)
    ensures InbOk(m, cuts, posts, seen, inb')
  {
  }

  lemma MoreNet(m: map<uint32, seq<byte>>, cuts: Cuts, posts: seq<Post>, seen: Seen, t: bool, net: set<Packet>,
                out: OutTable, c: seq<uint32>, p: seq<PartialAck>)
    requires NetAcksOk(m, posts, seen, t, net) && NetDataOk(cuts, net, out)
    requires AcksOk(m, posts, seen, Legible(c, p), c, p)
    ensures NetAcksOk(m, posts, seen, t && Legible(c, p), net + {Acks(c, p)})
    ensures NetDataOk(cuts, net + {Acks(c, p)}, out)
  {
  }

  lemma FlushKeeps(w: World, c: seq<uint32>, p: seq<PartialAck>)
    requires Inv(w) && Summary(w.inb, w.inb.Keys, c, p)
    ensures Inv(Flushed(w, c, p))
  {
    FlushAcksOk(w.messages, w.cuts, w.posts, w.seen, w.inb, c, p);
    ForgetInb(w.messages, w.cuts, w.posts, w.seen, w.inb, Incomplete(w.inb));
    ForgetMemory(w.messages, w.cuts, w.posts, w.seen, w.inb, Incomplete(w.inb), w.expired, w.expired);
    MoreNet(w.messages, w.cuts, w.posts, w.seen, w.legible, w.net, w.out, c, p);
    SeenGrow(w.cuts, w.cuts, w.net, w.net + {Acks(c, p)}, w.seen);
  }

  /** A message of one fragment is complete as soon as it has a state. */
  lemma IncompleteIsCut(cut: seq<Fragment>, seen: Seen, id: uint32, e: Entry)
    requires GoodCut(id, cut) && EntryOk(cut, seen, id, e) && !AllReceived(e.state)
    ensures |cut| >= 2
  {
    CompleteIffWhole(e.state, cut, Got(e.state));
    assert |e.state.frags| - 1 in Got(e.state);
  }

  lemma LapsedOk(m: map<uint32, seq<byte>>, cuts: Cuts, posts: seq<Post>, seen: Seen, inb: InTable,
                 expired: set<uint32>, id: uint32)
    requires GoodCuts(cuts) && InbOk(m, cuts, posts, seen, inb) && ExpiredOk(cuts, expired)
    ensures ExpiredOk(cuts, expired + Lapsed(inb, id))
  {
    if id in inb && !AllReceived(inb[id].state) {
      IncompleteIsCut(cuts[id], seen, id, inb[id]);
    }
  }

  lemma ExpireKeeps(w: World, id: uint32)
    requires Inv(w)
    ensures Inv(TimedOut(w, id))
  {
    var expired' := w.expired + Lapsed(w.inb, id);
    LapsedOk(w.messages, w.cuts, w.posts, w.seen, w.inb, w.expired, id);
    ForgetInb(w.messages, w.cuts, w.posts, w.seen, w.inb, w.inb - {id});
    ForgetMemory(w.messages, w.cuts, w.posts, w.seen, w.inb, w.inb - {id}, w.expired, expired');
  }

  // ------------------------------------------------------------------- whole runs

  lemma StepKeeps(w: World, s: Step)
    requires Inv(w) && Enabled(w, s)
    ensures Inv(Next(w, s))
  {
    match s
    case SendData(id, data) => SendDataKeeps(w, id, data);
    case SendCallback(id) => SendCallbackKeeps(w, id);
    case SendTimer(id) => SendTimerKeeps(w, id);
    case DeliverData(f) => DeliverDataKeeps(w, f);
    case DeliverAcks(c, p) => DeliverAcksKeeps(w, c, p);
    case Flush(c, p) => FlushKeeps(w, c, p);
    case Expire(id) => ExpireKeeps(w, id);
  }

  lemma {:induction false} RunKeeps(w: World, steps: seq<Step>)
    requires Inv(w) && CanRun(w, steps)
    ensures Inv(Run(w, steps))
    decreases steps
  {
    if steps != [] {
      StepKeeps(w, steps[0]);
      RunKeeps(Next(w, steps[0]), steps[1..]);
    }
  }

  lemma HeldIsComplete(cut: seq<Fragment>, seen: Seen, inb: InTable, id: uint32)
    requires cut != [] && forall k :: 0 <= k < |cut| ==> Held(inb, id, k)
    requires id in inb ==> EntryOk(cut, seen, id, inb[id])
    ensures id in inb && AllReceived(inb[id].state)
  {
    assert Held(inb, id, 0);
    forall k | 0 <= k < |cut| ensures k in Got(inb[id].state) {
      assert Held(inb, id, k);
    }
    CompleteIffWhole(inb[id].state, cut, Got(inb[id].state));
  }

  /** A message dropped because bitfields covered it was posted, unless an incomplete
      state of it timed out. */
  lemma CoveredIsDelivered(w: World, id: uint32)
    requires Inv(w) && w.legible && id in w.covered && id !in w.expired
    ensures Delivered(w.messages, w.posts, id)
  {
    assert AllSeen(w.cuts, w.seen, id) && GoodCut(id, w.cuts[id]);
    var cut := w.cuts[id];
    if forall k :: 0 <= k < |cut| ==> Held(w.inb, id, k) {
      HeldIsComplete(cut, w.seen, w.inb, id);
    } else {
      var k :| 0 <= k < |cut| && !Held(w.inb, id, k);
      assert (id, k) in w.seen;
    }
  }

  /** The sender finds the bitfields in every acknowledgement packet of the run. */
  ghost predicate AllLegible(steps: seq<Step>) {
    forall i :: 0 <= i < |steps| && steps[i].Flush? ==> Legible(steps[i].complete, steps[i].partial)
  }

  lemma NextLegible(w: World, s: Step)
    ensures Next(w, s).legible <==> w.legible && (s.Flush? ==> Legible(s.complete, s.partial))
  {
  }

  lemma {:induction false} LegibleRun(w: World, steps: seq<Step>)
    ensures Run(w, steps).legible <==> w.legible && AllLegible(steps)
    decreases steps
  {
    if steps != [] {
      var s := steps[0];
      NextLegible(w, s);
      LegibleRun(Next(w, s), steps[1..]);
      assert AllLegible(steps) <==> (s.Flush? ==> Legible(s.complete, s.partial)) && AllLegible(steps[1..]) by {
        assert steps == [s] + steps[1..];
      }
    }
  }

  lemma NextMessages(w: World, s: Step)
    ensures Next(w, s).messages == if s.SendData? then w.messages[s.id := s.data] else w.messages
  {
  }

  lemma NextCuts(w: World, s: Step)
    ensures Next(w, s).cuts == if s.SendData? then w.cuts[s.id := Cut(s.id, s.data)] else w.cuts
  {
  }

  /** Messages are never forgotten. */
  lemma {:induction false} MessagesStay(w: World, steps: seq<Step>)
    requires CanRunAny(w, steps)
    ensures Extends(w.messages, Run(w, steps).messages)
    decreases steps
  {
    if steps != [] {
      NextMessages(w, steps[0]);
      MessagesStay(Next(w, steps[0]), steps[1..]);
    }
  }

  /** A run has deliverable messages only if that is what it ends with. */
  lemma {:induction false} DeliverableRun(w: World, steps: seq<Step>)
    requires CanRunAny(w, steps)
    requires forall id :: id in Run(w, steps).messages && id !in w.messages ==> Deliverable(Run(w, steps).messages[id])
    ensures CanRun(w, steps)
    decreases steps
  {
    if steps != [] {
      var w1 := Next(w, steps[0]);
      NextMessages(w, steps[0]);
      MessagesStay(w1, steps[1..]);
      DeliverableRun(w1, steps[1..]);
    }
  }

  /** In every run, posts are messages that were sent, and a message the sender has dropped
      on a complete acknowledgement was posted. */
  lemma PostSafety(steps: seq<Step>)
    requires CanRun(START, steps)
    ensures var w := Run(START, steps);
      && (forall p :: p in w.posts ==> p.msgId in w.messages && p.data == w.messages[p.msgId])
      && (forall id :: id in w.acked ==> id in w.messages && Post(PEER, id, w.messages[id]) in w.posts)
  {
    assert Inv(START);
    RunKeeps(START, steps);
    var w := Run(START, steps);
    forall id | id in w.acked ensures id in w.messages && Post(PEER, id, w.messages[id]) in w.posts {
      assert Delivered(w.messages, w.posts, id);
    }
  }

  /** SSU acknowledgement safety.  In every run whose flushes are legible, also a message
      dropped because every fragment was acknowledged by bitfields was posted with exactly
      its bytes, if it has one fragment or no incomplete state of it has timed out. */
  lemma AckSafety(steps: seq<Step>, id: uint32)
    requires CanRun(START, steps)
    ensures var w := Run(START, steps);
      && (id in w.acked ==> id in w.messages && Post(PEER, id, w.messages[id]) in w.posts)
      && (id in w.covered && AllLegible(steps) ==>
            && id in w.messages
            && (|w.messages[id]| <= 1120 || id !in w.expired ==> Post(PEER, id, w.messages[id]) in w.posts))
  {
    assert Inv(START);
    PostSafety(steps);
    RunKeeps(START, steps);
    var w := Run(START, steps);
    if id in w.covered && AllLegible(steps) {
      LegibleRun(START, steps);
      assert AllSeen(w.cuts, w.seen, id) && id in w.messages;
      if |w.messages[id]| <= 1120 || id !in w.expired {
        assert |w.cuts[id]| == FragmentCount(|w.messages[id]|);
        CoveredIsDelivered(w, id);
      }
    }
  }
}
