/** Acknowledgement packets whose lists are too long for their one-byte counts: which sizes
    make the sender take complete acknowledgements for bitfields, and drop a message that
    was never posted. */
module SsuOverflow {
  import opened Bytes
  import opened Lists
  import opened SsuPacket
  import opened SsuOutbound
  import opened SsuInbound
  import opened SsuReassembly
  import opened SsuAck
  import opened SsuProtocol
  import opened SsuExpiry
  import SsuAcking

  // ---------------------------------------------------------- a misread packet

  /** The four bytes the sender takes for a message id. */
  function Victim(u0: uint32, u1: uint32): uint32 {
    Word(u0.b2, u0.b1, u0.b0, u1.b3)
  }

  lemma SixtyFour()
    ensures BitByte([true], false) == 64
  {
    var zeros := [false] + seq(7, _ => false);
    LeadingBit(false, 7);
    SetBit(zeros, 6);
    assert [false] + Pad([true]) == zeros[1 := true];
    assert Pow2(6) == 64;
  }

  /** A byte 64 is a bitfield that names fragment 0 and ends there. */
  lemma FragmentZero()
    ensures !ToBits(64, 8)[0] && SetBits(ToBits(64, 8)[1..], 0) == [0]
  {
    SixtyFour();
    BitByteRoundTrip([true], false, 0);
    assert [true][1..] == [];
  }

  lemma OneField(id: uint32, b: seq<byte>, more: seq<byte>)
    requires |b| >= 4 && GetU32(b) == id && b[4..] == [64] + more
    ensures ReadBitfields(b, 1) == Part([BitfieldAck(id, [0])], Some(more))
  {
    FragmentZero();
    DropPrefix([64], more);
    ReadLastByte(b[4..], 0);
    assert ReadBitfields(more, 0) == Part([], Some(more));
  }

  /** Two ids at the place where the sender looks for the bitfields. */
  lemma IdsAsField(u0: uint32, u1: uint32, more: seq<byte>)
    requires u0.b3 == 1 && u1.b2 == 64
    ensures BitfieldPart(true, PutU32(u0) + (PutU32(u1) + more)).events == [BitfieldAck(Victim(u0, u1), [0])]
  {
    var b := PutU32(u0) + (PutU32(u1) + more);
    assert b[1..][4..] == [64] + ([u1.b1, u1.b0] + more);
    OneField(Victim(u0, u1), b[1..], [u1.b1, u1.b0] + more);
  }

  lemma RestHas(acks: seq<Event>, b: seq<byte>, e: Event)
    requires BitfieldPart(true, b).events == [e]
    ensures e in ReadRest(acks, true, b).events
  {
  }

  lemma TwoUncovered(cs: seq<uint32>, k: nat)
    requires |cs| > 256 && k == |cs| % 256
    ensures |Uncovered(cs)| >= 2 && Uncovered(cs)[0] == cs[k] && Uncovered(cs)[1] == cs[k + 1]
  {
  }

  lemma BytesOfTwo(us: seq<uint32>)
    requires |us| >= 2
    ensures AckBytes(us) == PutU32(us[0]) + (PutU32(us[1]) + AckBytes(us[2..]))
  {
    assert us[1..][1..] == us[2..] && us[1..][0] == us[1];
  }

  lemma MisreadBehind(cs: seq<uint32>, rest: seq<byte>, k: nat)
    requires |cs| > 256 && k == |cs| % 256 != 0 && cs[k].b3 == 1 && cs[k + 1].b2 == 64
    ensures BitfieldPart(true, BehindAcks(cs, rest)).events == [BitfieldAck(Victim(cs[k], cs[k + 1]), [0])]
  {
    var us := Uncovered(cs);
    TwoUncovered(cs, k);
    BytesOfTwo(us);
    Assoc(PutU32(us[0]), PutU32(us[1]) + AckBytes(us[2..]), rest);
    Assoc(PutU32(us[1]), AckBytes(us[2..]), rest);
    IdsAsField(us[0], us[1], AckBytes(us[2..]) + rest);
  }

  /** The sender reads a bitfield for a message the packet does not mention. */
  lemma Misread(cs: seq<uint32>, ps: seq<PartialAck>, k: nat)
    requires |cs| > 256 && k == |cs| % 256 != 0 && |ps| % 256 != 0 && cs[k].b3 == 1 && cs[k + 1].b2 == 64
    ensures BitfieldAck(Victim(cs[k], cs[k + 1]), [0]) in ReadData(DataBytes(false, cs, ps, [])).events
  {
    var rest := Counted(|ps|, PartialBytes(ps)) + NO_FRAGMENTS;
    AckPacketRead(cs, ps);
    MisreadBehind(cs, rest, k);
    RestHas(AckEvents(Covered(cs)), BehindAcks(cs, rest), BitfieldAck(Victim(cs[k], cs[k + 1]), [0]));
  }

  // ------------------------------------------------------------ what it does

  lemma OneMark(st: OutState)
    requires |st.frags| <= 1
    ensures AllAckd(MarkAllAckd(st, [0]))
  {
    var nums: seq<nat> := [0];
    assert nums[1..] == [];
    assert MarkAllAckd(st, nums) == MarkAckd(st, 0);
  }

  /** A message of one fragment is dropped on a bitfield that names the first. */
  lemma {:induction false} OnlyFragmentDropped(out: OutTable, es: seq<Event>, v: uint32)
    requires v in out ==> |out[v].frags| <= 1
    requires BitfieldAck(v, [0]) in es
    ensures v !in OnAcks(out, es)
    decreases es
  {
    var next := OnAck(out, es[0]);
    if v in out {
      OneMark(out[v]);
      if es[0].BitfieldAck? && es[0].msgId == v {
        MarkAllKeeps(out[v], es[0].nums);
      }
    }
    if es[0] == BitfieldAck(v, [0]) {
      SsuAcking.GoneStaysGone(next, es[1..], v);
    } else {
      OnlyFragmentDropped(next, es[1..], v);
    }
  }

  // --------------------------------------------------- a receiver with much to say

  /** A message of one byte, and one of two fragments. */
  const SHORT: seq<byte> := [0]
  function Long(): (data: seq<byte>)
    ensures |data| == 1121
  {
    seq(1121, _ => 0)
  }

  lemma Lengths()
    ensures |SHORT| == 1 && |Long()| == 1121 && Deliverable(SHORT) && Deliverable(Long())
  {
  }

  /** What the receiver holds once the first fragment of a message arrived. */
  ghost function FirstEntry(id: uint32, data: seq<byte>): Entry
    requires data != []
  {
    Entry(PEER, AddFragment(EMPTY, FragmentAt(id, data, 0)))
  }

  lemma ShortEntry(id: uint32)
    ensures AllReceived(FirstEntry(id, SHORT).state)
  {
  }

  lemma LongEntry(id: uint32)
    ensures !AllReceived(FirstEntry(id, Long()).state) && FragmentsReceived(FirstEntry(id, Long()).state) == [true]
  {
    Lengths();
  }

  /** `id` was sent and its first fragment arrived; nothing else has changed. */
  ghost predicate Arrived(w: World, id: uint32, data: seq<byte>, w': World)
    requires data != []
  {
    && w'.messages == w.messages[id := data] && w'.inb == w.inb[id := FirstEntry(id, data)]
    && (forall v :: v != id ==> (v in w.out <==> v in w'.out) && (v in w.out ==> w'.out[v] == w.out[v]))
    && (forall p :: p in w'.posts ==> p in w.posts || p.msgId == id)
    && w'.expired == w.expired
  }

  lemma FirstSent(id: uint32, data: seq<byte>) returns (st: OutState)
    requires Deliverable(data)
    ensures FragmentCount(|data|) > 0
    ensures SendNext(OutState(id, data, [], 0)) == Ok((st, FragmentAt(id, data, 0)))
    ensures |st.frags| == FragmentCount(|data|)
  {
    var st0 := Fragmented(OutState(id, data, [], 0));
    assert st0.frags == Unsent(Cut(id, data)) && !st0.frags[0].sent;
    assert FirstUnsent(st0.frags) == 0;
    st := MarkSent(st0, 0);
  }

  lemma Send(w: World, id: uint32, data: seq<byte>) returns (w': World)
    requires id !in w.messages && Deliverable(data)
    ensures FragmentCount(|data|) > 0 && Reaches(w, [SendData(id, data)] + [SendCallback(id)], w')
    ensures w'.messages == w.messages[id := data] && w'.inb == w.inb && w'.posts == w.posts && w'.expired == w.expired
    ensures forall v :: v != id ==> (v in w.out <==> v in w'.out) && (v in w.out ==> w'.out[v] == w.out[v])
    ensures Data(FragmentAt(id, data, 0)) in w'.net
    ensures id in w'.out && |w'.out[id].frags| == FragmentCount(|data|)
  {
    ReachBy(w, SendData(id, data));
    var w1 := Handed(w, id, data);
    var st := FirstSent(id, data);
    ReachBy(w1, SendCallback(id));
    w' := Transmit(w1, id, st, FragmentAt(id, data, 0));
    assert Next(w1, SendCallback(id)) == w';
    ReachTrans(w, [SendData(id, data)], w1, [SendCallback(id)], w');
  }

  lemma Arrive(w: World, f: Fragment) returns (w': World)
    requires Data(f) in w.net && f.fragNum < 128 && |f.data| <= 1120
    ensures Reaches(w, [DeliverData(f)], w') && w' == Filed(w, f, Updated(w.inb, PEER, f))
  {
    DeliveredPiece(w, f);
    ReachBy(w, DeliverData(f));
    w' := Next(w, DeliverData(f));
  }

  lemma SendAndArrive(w: World, id: uint32, data: seq<byte>) returns (steps: seq<Step>, w': World)
    requires id !in w.messages && id !in w.inb && Deliverable(data) && data != []
    ensures Reaches(w, steps, w') && NoFlush(steps) && Arrived(w, id, data, w')
  {
    var w1 := Send(w, id, data);
    var f := FragmentAt(id, data, 0);
    FragmentIsNumbered(id, data, 0);
    w' := Arrive(w1, f);
    var send := [SendData(id, data)] + [SendCallback(id)];
    ReachTrans(w, send, w1, [DeliverData(f)], w');
    steps := send + [DeliverData(f)];
  }

  ghost predicate NoFlush(steps: seq<Step>) {
    forall i :: 0 <= i < |steps| ==> !steps[i].Flush?
  }

  /** `v`, of one fragment, has been sent and has not arrived; the messages `cs` are
      complete at the receiver and the messages `ps` are not. */
  ghost predicate Full(w: World, v: uint32, cs: seq<uint32>, ps: seq<uint32>) {
    && v in w.messages && w.messages[v] == SHORT && v in w.out && |w.out[v].frags| == 1
    && (forall id :: id in w.messages ==> Deliverable(w.messages[id]))
    && (forall p :: p in w.posts ==> p.msgId != v) && w.expired == {}
    && (forall id :: id in w.messages ==> id == v || id in cs || id in ps)
    && (forall id :: id in w.inb <==> id in cs || id in ps)
    && (forall i :: 0 <= i < |cs| ==> w.inb[cs[i]] == FirstEntry(cs[i], SHORT))
    && (forall i :: 0 <= i < |ps| ==> w.inb[ps[i]] == FirstEntry(ps[i], Long()))
  }

  lemma AddShort(w: World, v: uint32, cs: seq<uint32>, id: uint32, w': World)
    requires Full(w, v, cs, []) && id != v && id !in cs && Arrived(w, id, SHORT, w')
    ensures Full(w', v, cs + [id], [])
  {
    assert (cs + [id])[|cs|] == id;
  }

  lemma AddLong(w: World, v: uint32, cs: seq<uint32>, ps: seq<uint32>, id: uint32, w': World)
    requires Full(w, v, cs, ps) && id != v && id !in cs && id !in ps && Arrived(w, id, Long(), w')
    ensures Full(w', v, cs, ps + [id])
  {
    assert (ps + [id])[|ps|] == id;
  }

  lemma Begin(v: uint32) returns (steps: seq<Step>, w: World)
    ensures Reaches(START, steps, w) && NoFlush(steps) && Full(w, v, [], [])
  {
    Lengths();
    w := Send(START, v, SHORT);
    steps := [SendData(v, SHORT)] + [SendCallback(v)];
  }

  lemma NoFlushAppend(a: seq<Step>, b: seq<Step>)
    requires NoFlush(a) && NoFlush(b)
    ensures NoFlush(a + b)
  {
  }

  lemma LastOf<T>(s: seq<T>)
    requires s != [] && NoDuplicates(s)
    ensures s == s[..|s| - 1] + [s[|s| - 1]] && NoDuplicates(s[..|s| - 1]) && s[|s| - 1] !in s[..|s| - 1]
  {
  }

  lemma {:induction false} FillShort(v: uint32, cs: seq<uint32>) returns (steps: seq<Step>, w: World)
    requires NoDuplicates(cs) && v !in cs
    ensures Reaches(START, steps, w) && NoFlush(steps) && Full(w, v, cs, [])
  {
    if cs == [] {
      steps, w := Begin(v);
    } else {
      LastOf(cs);
      var less, id := cs[..|cs| - 1], cs[|cs| - 1];
      var s0, w0 := FillShort(v, less);
      Lengths();
      var s1, w1 := SendAndArrive(w0, id, SHORT);
      AddShort(w0, v, less, id, w1);
      ReachTrans(START, s0, w0, s1, w1);
      NoFlushAppend(s0, s1);
      steps, w := s0 + s1, w1;
    }
  }

  lemma {:induction false} FillLong(v: uint32, cs: seq<uint32>, ps: seq<uint32>) returns (steps: seq<Step>, w: World)
    requires NoDuplicates(cs) && v !in cs && NoDuplicates(ps) && v !in ps && forall id :: id in ps ==> id !in cs
    ensures Reaches(START, steps, w) && NoFlush(steps) && Full(w, v, cs, ps)
    decreases ps
  {
    if ps == [] {
      steps, w := FillShort(v, cs);
    } else {
      LastOf(ps);
      var less, id := ps[..|ps| - 1], ps[|ps| - 1];
      var s0, w0 := FillLong(v, cs, less);
      Lengths();
      var s1, w1 := SendAndArrive(w0, id, Long());
      AddLong(w0, v, cs, less, id, w1);
      ReachTrans(START, s0, w0, s1, w1);
      NoFlushAppend(s0, s1);
      steps, w := s0 + s1, w1;
    }
  }

  // ------------------------------------------------------------- the whole run

  function PartialsOf(ps: seq<uint32>): (r: seq<PartialAck>)
    ensures |r| == |ps| && forall i :: 0 <= i < |ps| ==> r[i] == PartialAck(ps[i], [true])
  {
    seq(|ps|, i requires 0 <= i < |ps| => PartialAck(ps[i], [true]))
  }

  lemma FullSummary(w: World, v: uint32, cs: seq<uint32>, ps: seq<uint32>)
    requires Full(w, v, cs, ps) && NoDuplicates(cs) && NoDuplicates(ps)
    ensures Summary(w.inb, w.inb.Keys, cs, PartialsOf(ps))
  {
    forall i | 0 <= i < |cs| ensures AllReceived(w.inb[cs[i]].state) {
      ShortEntry(cs[i]);
    }
    forall i | 0 <= i < |ps|
      ensures !AllReceived(w.inb[ps[i]].state) && FragmentsReceived(w.inb[ps[i]].state) == [true]
    {
      LongEntry(ps[i]);
    }
    assert Ids(PartialsOf(ps)) == ps;
  }

  /** Dropped on bitfields although it was not posted and nothing timed out. */
  ghost predicate Misled(w: World, id: uint32) {
    id in w.covered && id !in w.expired && id in w.messages && Post(PEER, id, w.messages[id]) !in w.posts
  }

  lemma AcksMislead(w: World, v: uint32, cs: seq<uint32>, p: seq<PartialAck>, es: seq<Event>)
    requires v in w.messages && v in w.out && |w.out[v].frags| == 1 && v !in cs && v !in w.expired
    requires forall p :: p in w.posts ==> p.msgId != v
    requires BitfieldAck(v, [0]) in es && (CompleteAck(v) in es ==> v in cs)
    ensures Misled(AtSender(w, es), v)
  {
    OutAfter(Router(w.out, map[], []), PEER, es);
    OnlyFragmentDropped(w.out, es, v);
  }

  /** Every flush lists this many messages of each kind. */
  ghost predicate FlushSizes(steps: seq<Step>, complete: nat, partial: nat) {
    forall i :: 0 <= i < |steps| && steps[i].Flush? ==> |steps[i].complete| == complete && |steps[i].partial| == partial
  }

  lemma FlushAndAck(w: World, v: uint32, cs: seq<uint32>, ps: seq<uint32>, k: nat) returns (w': World)
    requires Full(w, v, cs, ps) && NoDuplicates(cs) && NoDuplicates(ps) && v !in cs
    requires |cs| > 256 && k == |cs| % 256 != 0 && |ps| % 256 != 0
    requires cs[k].b3 == 1 && cs[k + 1].b2 == 64 && v == Victim(cs[k], cs[k + 1])
    ensures Reaches(w, [Flush(cs, PartialsOf(ps))] + [DeliverAcks(cs, PartialsOf(ps))], w') && Misled(w', v)
    ensures w'.messages == w.messages
  {
    var p := PartialsOf(ps);
    FullSummary(w, v, cs, ps);
    ReachBy(w, Flush(cs, p));
    var w1 := Flushed(w, cs, p);
    assert cs[0] in w.inb;
    ReachBy(w1, DeliverAcks(cs, p));
    var es := ReadData(DataBytes(false, cs, p, [])).events;
    Misread(cs, p, k);
    if CompleteAck(v) in es {
      CompletesWritten(cs, p, CompleteAck(v));
    }
    AcksMislead(w1, v, cs, p, es);
    w' := Next(w1, DeliverAcks(cs, p));
    ReachTrans(w, [Flush(cs, p)], w1, [DeliverAcks(cs, p)], w');
  }

  // ------------------------------------------------------------- as many ids as needed

  const IDS: nat := 0x1_0000_0000

  function Nth(i: nat): (w: uint32)
    requires i < IDS
    ensures Number(w) == i
  {
    var a := i / 0x100;
    var b := a / 0x100;
    Word(b / 0x100, b % 0x100, a % 0x100, i % 0x100)
  }

  /** Two ids that are taken for a bitfield, and the id they are taken for. */
  const FIRST: uint32 := Word(1, 64, 0, 0)
  const SECOND: uint32 := Word(1, 64, 0, 1)
  const VICTIM: uint32 := Word(64, 0, 0, 1)

  /** The other ids, one after the other. */
  function Skip(i: nat): nat {
    if i < Number(FIRST) then i else if i + 2 < Number(VICTIM) then i + 2 else i + 3
  }

  function Other(i: nat): (w: uint32)
    requires i + 3 < IDS
    ensures w != FIRST && w != SECOND && w != VICTIM && Number(w) == Skip(i)
  {
    Nth(Skip(i))
  }

  lemma OthersDiffer(i: nat, j: nat)
    requires i < j && j + 3 < IDS
    ensures Other(i) != Other(j)
  {
  }

  /** n ids, the k-th and the one behind it as needed. */
  function CompleteId(i: nat, k: nat): uint32
    requires i + 1 < IDS && k < 256
  {
    if i == k then FIRST else if i == k + 1 then SECOND else Other(if i < k then i else i - 2)
  }

  function CompleteIds(n: nat, k: nat): (r: seq<uint32>)
    requires n < IDS && k + 1 < n && k < 256
    ensures |r| == n && forall i :: 0 <= i < n ==> r[i] == CompleteId(i, k)
  {
    seq(n, i requires 0 <= i < n => CompleteId(i, k))
  }

  /** m more. */
  function PartialIds(n: nat, m: nat): (r: seq<uint32>)
    requires 2 <= n && n + m < IDS
    ensures |r| == m && forall i :: 0 <= i < m ==> r[i] == Other(n - 2 + i)
  {
    seq(m, i requires 0 <= i < m => Other(n - 2 + i))
  }

  lemma CompleteDiffer(i: nat, j: nat, k: nat)
    requires i < j && j + 1 < IDS && k < 256
    ensures CompleteId(i, k) != CompleteId(j, k)
  {
    if i != k && i != k + 1 && j != k && j != k + 1 {
      OthersDiffer(if i < k then i else i - 2, if j < k then j else j - 2);
    }
  }

  lemma IdsDiffer(n: nat, m: nat, k: nat)
    requires k + 1 < n && k < 256 && n + m < IDS
    ensures NoDuplicates(CompleteIds(n, k)) && VICTIM !in CompleteIds(n, k)
    ensures NoDuplicates(PartialIds(n, m)) && VICTIM !in PartialIds(n, m)
  {
    forall i, j | 0 <= i < j < n ensures CompleteIds(n, k)[i] != CompleteIds(n, k)[j] {
      CompleteDiffer(i, j, k);
    }
    forall i, j | 0 <= i < j < m ensures PartialIds(n, m)[i] != PartialIds(n, m)[j] {
      OthersDiffer(n - 2 + i, n - 2 + j);
    }
  }

  lemma IdsApart(n: nat, m: nat, k: nat)
    requires k + 1 < n && k < 256 && n + m < IDS
    ensures forall id :: id in PartialIds(n, m) ==> id !in CompleteIds(n, k)
  {
    forall i, j | 0 <= i < n && 0 <= j < m ensures CompleteIds(n, k)[i] != PartialIds(n, m)[j] {
      if i != k && i != k + 1 {
        OthersDiffer(if i < k then i else i - 2, n - 2 + j);
      }
    }
  }

  ghost predicate CanMislead(complete: nat, partial: nat) {
    exists steps, id :: CanRun(START, steps) && FlushSizes(steps, complete, partial) && Misled(Run(START, steps), id)
  }

  lemma SizesAppend(a: seq<Step>, s: Step, t: Step, n: nat, m: nat)
    requires NoFlush(a) && s.Flush? && !t.Flush? && |s.complete| == n && |s.partial| == m
    ensures FlushSizes(a + ([s] + [t]), n, m)
  {
  }

  lemma {:induction false} LongListsMislead(n: nat, m: nat)
    requires n > 256 && n % 256 != 0 && m % 256 != 0 && n + m < IDS
    ensures CanMislead(n, m)
  {
    var k := n % 256;
    var cs, ps := CompleteIds(n, k), PartialIds(n, m);
    IdsDiffer(n, m, k);
    IdsApart(n, m, k);
    assert cs[k] == FIRST && cs[k + 1] == SECOND && Victim(cs[k], cs[k + 1]) == VICTIM;
    var s0, w0 := FillLong(VICTIM, cs, ps);
    var w1 := FlushAndAck(w0, VICTIM, cs, ps, k);
    MisleadBy(s0, w0, cs, PartialsOf(ps), w1);
  }

  lemma MisleadBy(s0: seq<Step>, w0: World, cs: seq<uint32>, p: seq<PartialAck>, w1: World)
    requires Reaches(START, s0, w0) && NoFlush(s0) && Reaches(w0, [Flush(cs, p)] + [DeliverAcks(cs, p)], w1)
    requires Misled(w1, VICTIM) && forall id :: id in w1.messages ==> Deliverable(w1.messages[id])
    ensures CanMislead(|cs|, |p|)
  {
    var s1 := [Flush(cs, p)] + [DeliverAcks(cs, p)];
    ReachTrans(START, s0, w0, s1, w1);
    SizesAppend(s0, Flush(cs, p), DeliverAcks(cs, p), |cs|, |p|);
    DeliverableRun(START, s0 + s1);
    assert CanRun(START, s0 + s1) && FlushSizes(s0 + s1, |cs|, |p|) && Misled(Run(START, s0 + s1), VICTIM);
  }

  lemma SizesLegible(steps: seq<Step>, n: nat, m: nat)
    requires FlushSizes(steps, n, m) && (n < 256 || n % 256 == 0 || m % 256 == 0)
    ensures AllLegible(steps)
  {
  }

  /** The exact sizes: flushes that list n complete and m partial messages can make the
      sender drop a message that was not posted, with no timeout involved, if and only if
      n is above 256 and neither count is a multiple of 256.  The misleading run needs one
      id more than the two lists, of which there are 2^32. */
  lemma {:induction false} MisleadIffTooLong(n: nat, m: nat)
    ensures CanMislead(n, m) ==> n > 256 && n % 256 != 0 && m % 256 != 0
    ensures n > 256 && n % 256 != 0 && m % 256 != 0 && n + m < IDS ==> CanMislead(n, m)
  {
    if n > 256 && n % 256 != 0 && m % 256 != 0 {
      if n + m < IDS {
        LongListsMislead(n, m);
      }
    } else {
      forall steps, id | CanRun(START, steps) && FlushSizes(steps, n, m) ensures !Misled(Run(START, steps), id) {
        SizesLegible(steps, n, m);
        AckSafety(steps, id);
      }
    }
  }
}
