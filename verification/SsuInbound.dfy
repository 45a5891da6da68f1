/** The receiving side of the SSU message layer: `InboundMessageState` and
    `InboundMessageFragments`. */
module SsuInbound {
  import opened Bytes
  import opened SsuPacket
  import opened SsuOutbound

  // --------------------------------------------------- one message

  type Slots = seq<Option<seq<byte>>>

  datatype InState = InState(gotLast: bool, lastFragment: byte, byteTotal: nat, frags: Slots)

  const EMPTY: InState := InState(false, 0, 0, [])

  function Vacant(n: nat): (r: Slots)
    ensures |r| == n && forall i :: 0 <= i < n ==> r[i].None?
  {
    seq(n, _ => None)
  }

  /** The slots after a `resize` to at least n. */
  function Grown(frags: Slots, n: nat): (r: Slots)
    ensures |r| == if |frags| < n then n else |frags|
  {
    if |frags| < n then frags + Vacant(n - |frags|) else frags
  }

  /** Behind a fragment flagged last. */
  predicate Behind(st: InState, num: byte) {
    st.gotLast && num > st.lastFragment
  }

  predicate Filled(st: InState, num: byte) {
    num < |st.frags| && st.frags[num].Some?
  }

  /** `addFragment`.  Number 255 would index past the vector, because the size test
      is done in eight bits; wire numbers have seven, and the state is left as it was. */
  function Add(st: InState, num: byte, data: seq<byte>, isLast: bool): InState {
    if num == 255 || Behind(st, num) || Filled(st, num) then st
    else InState(st.gotLast || isLast,
                 if isLast then num else st.lastFragment,
                 st.byteTotal + |data|,
                 Grown(st.frags, num + 1)[num := Some(data)])
  }

  function AddFragment(st: InState, f: Fragment): InState {
    Add(st, f.fragNum, f.data, f.isLast)
  }

  predicate AllReceived(st: InState) {
    st.gotLast && forall i :: 0 <= i < |st.frags| ==> st.frags[i].Some?
  }

  function FragmentsReceived(st: InState): (v: seq<bool>)
    ensures |v| == |st.frags|
    ensures forall i :: 0 <= i < |v| ==> v[i] == st.frags[i].Some?
  {
    seq(|st.frags|, i requires 0 <= i < |st.frags| => st.frags[i].Some?)
  }

  /** The stored bytes in slot order. */
  function Stored(frags: Slots): seq<byte> {
    if frags == [] then []
    else Stored(frags[..|frags| - 1]) + if frags[|frags| - 1].Some? then frags[|frags| - 1].value else []
  }

  /** `m_byteTotal` counts the stored bytes. */
  predicate TotalRight(st: InState) {
    st.byteTotal == |Stored(st.frags)|
  }

  lemma {:induction false} StoredAppend(a: Slots, b: Slots)
    ensures Stored(a + b) == Stored(a) + Stored(b)
  {
    if b == [] {
      assert a + b == a;
    } else {
      var n := |b| - 1;
      assert (a + b)[..|a + b| - 1] == a + b[..n];
      StoredAppend(a, b[..n]);
    }
  }

  lemma {:induction false} StoredNone(n: nat)
    ensures Stored(Vacant(n)) == []
  {
    if n > 0 {
      assert Vacant(n)[..n - 1] == Vacant(n - 1);
      StoredNone(n - 1);
    }
  }

  /** Filling an empty slot adds exactly its bytes. */
  lemma StoredFill(frags: Slots, num: nat, data: seq<byte>)
    requires num < |frags| && frags[num].None?
    ensures |Stored(frags[num := Some(data)])| == |Stored(frags)| + |data|
  {
    var a, b := frags[..num], frags[num + 1..];
    StoredAppend(a, [None]);
    StoredAppend(a, [Some(data)]);
    StoredAppend(a + [None], b);
    StoredAppend(a + [Some(data)], b);
    assert frags == a + [None] + b;
    assert frags[num := Some(data)] == a + [Some(data)] + b;
    assert Stored([Some(data)]) == Stored([]) + data;
  }

  lemma AddKeepsCount(st: InState, num: byte, data: seq<byte>, isLast: bool)
    requires TotalRight(st)
    ensures TotalRight(Add(st, num, data, isLast))
  {
    if num == 255 {
      return;
    }
    var grown := Grown(st.frags, num + 1);
    if |st.frags| < num + 1 {
      StoredAppend(st.frags, Vacant(num as int + 1 - |st.frags|));
      StoredNone(num as int + 1 - |st.frags|);
    }
    if grown[num].None? {
      StoredFill(grown, num, data);
    }
  }

  /** What a fragment does to a message, slot by slot.  It is ignored if its number lies behind
      a fragment flagged last or its slot is filled; otherwise exactly its slot is filled, the
      slots are extended up to it, and the last flag and the total follow. */
  lemma AddLaw(st: InState, num: byte, data: seq<byte>, isLast: bool)
    ensures (st.gotLast && num > st.lastFragment) || (num < |st.frags| && st.frags[num].Some?) ==>
      Add(st, num, data, isLast) == st
    ensures num < 255 && !(st.gotLast && num > st.lastFragment) && !(num < |st.frags| && st.frags[num].Some?) ==>
      var st' := Add(st, num, data, isLast);
      && |st'.frags| == (if num < |st.frags| then |st.frags| else num as int + 1)
      && (forall i :: 0 <= i < |st'.frags| ==>
            st'.frags[i] == if i == num then Some(data) else if i < |st.frags| then st.frags[i] else None)
      && st'.gotLast == (st.gotLast || isLast) && st'.lastFragment == (if isLast then num else st.lastFragment)
      && st'.byteTotal == st.byteTotal + |data|
  {
  }

  /** `InboundMessageState`. */
  class InboundMessageState {
    var gotLast: bool
    var lastFragment: byte
    var byteTotal: nat
    var frags: Slots

    function Value(): InState
      reads this
    {
      InState(gotLast, lastFragment, byteTotal, frags)
    }

    ghost predicate Valid()
      reads this
    {
      TotalRight(Value())
    }

    constructor (st: InState)
      requires TotalRight(st)
      ensures Valid() && Value() == st
    {
      gotLast, lastFragment, byteTotal, frags := st.gotLast, st.lastFragment, st.byteTotal, st.frags;
    }

    /** False where the code writes past the vector: number 255, whose successor is 0 in
        eight bits, unless it lies behind the last fragment. */
    method AddFragment(num: byte, data: seq<byte>, isLast: bool) returns (ok: bool)
      requires Valid()
      modifies this
      ensures Valid() && Value() == Add(old(Value()), num, data, isLast)
      ensures ok <==> num != 255 || old(Behind(Value(), num) || Filled(Value(), num))
    {
      AddKeepsCount(Value(), num, data, isLast);
      ok := true;
      if gotLast && num > lastFragment {
        return;
      }
      if num < |frags| && frags[num].Some? {
        return;
      }
      if num == 255 {
        return false;
      }
      if isLast {
        gotLast, lastFragment := true, num;
      }
      if |frags| < num + 1 {
        frags := Grown(frags, num + 1);
      }
      frags := frags[num := Some(data)];
      byteTotal := byteTotal + |data|;
    }

    /** `assemble`: copies the stored fragments one after the other into a buffer
        of `m_byteTotal` bytes. */
    method Assemble() returns (dst: array<byte>)
      requires Valid()
      ensures fresh(dst) && dst[..] == Stored(frags)
    {
      dst := new byte[byteTotal](_ => 0);
      var pos := 0;
      assert frags[..0] == [];
      for i := 0 to |frags|
        invariant pos == |Stored(frags[..i])| <= dst.Length
        invariant dst[..pos] == Stored(frags[..i])
      {
        assert frags[..i + 1][..i] == frags[..i];
        if frags[i].Some? {
          var part := frags[i].value;
          assert frags == frags[..i + 1] + frags[i + 1..];
          StoredAppend(frags[..i + 1], frags[i + 1..]);
          Copy(dst, pos, part);
          pos := pos + |part|;
        }
      }
      assert frags[..|frags|] == frags;
    }

    method AllFragmentsReceived() returns (all: bool)
      ensures all <==> AllReceived(Value())
    {
      if !gotLast {
        return false;
      }
      for i := 0 to |frags|
        invariant forall j :: 0 <= j < i ==> frags[j].Some?
      {
        if frags[i].None? {
          return false;
        }
      }
      all := true;
    }
  }

  // ---------------------------------------------- the table of messages

  type RouterHash = seq<byte>

  datatype Entry = Entry(hash: RouterHash, state: InState)

  datatype Post = Post(hash: RouterHash, msgId: uint32, data: seq<byte>)

  type InTable = map<uint32, Entry>

  /** The router: messages being sent, messages being received, messages posted. */
  datatype Router = Router(out: OutTable, inb: InTable, posts: seq<Post>)

  /** `checkAndPost`: empty messages are not posted. */
  function Posted(e: Entry, id: uint32): seq<Post> {
    if AllReceived(e.state) && Stored(e.state.frags) != []
    then [Post(e.hash, id, Stored(e.state.frags))] else []
  }

  /** The entry of a message after a fragment arrived from `rh`; an existing entry
      keeps the peer it was created for. */
  function Updated(inb: InTable, rh: RouterHash, f: Fragment): Entry {
    if f.msgId in inb then Entry(inb[f.msgId].hash, AddFragment(inb[f.msgId].state, f))
    else Entry(rh, AddFragment(EMPTY, f))
  }

  function OnEvent(r: Router, rh: RouterHash, e: Event): Router {
    match e
    case Received(f) =>
      var entry := Updated(r.inb, rh, f);
      r.(inb := r.inb[f.msgId := entry], posts := r.posts + Posted(entry, f.msgId))
    case _ => r.(out := OnAck(r.out, e))
  }

  /** Filing a fragment that `rh` sent: the entry belongs to the peer that began the message;
      other entries and the sender's table stay; and a post is made iff now every slot up to
      the last is filled and there are any bytes, with exactly these, for that peer. */
  lemma FileLaw(r: Router, rh: RouterHash, f: Fragment)
    ensures var r', id := OnEvent(r, rh, Received(f)), f.msgId;
      && r'.out == r.out && id in r'.inb && r'.inb == r.inb[id := r'.inb[id]]
      && r'.inb[id].hash == (if id in r.inb then r.inb[id].hash else rh)
      && r'.inb[id].state == Add(if id in r.inb then r.inb[id].state else EMPTY, f.fragNum, f.data, f.isLast)
      && var st := r'.inb[id].state;
      var done := st.gotLast && (forall i :: 0 <= i < |st.frags| ==> st.frags[i].Some?) && Stored(st.frags) != [];
      r'.posts == r.posts + if done then [Post(r'.inb[id].hash, id, Stored(st.frags))] else []
  {
  }

  function OnEvents(r: Router, rh: RouterHash, es: seq<Event>): Router
    decreases es
  {
    if es == [] then r else OnEvents(OnEvent(r, rh, es[0]), rh, es[1..])
  }

  /** What the events of a packet do to the table of messages being sent. */
  function OnAcks(out: OutTable, es: seq<Event>): OutTable
    decreases es
  {
    if es == [] then out else OnAcks(OnAck(out, es[0]), es[1..])
  }

  lemma {:induction false} OutAfter(r: Router, rh: RouterHash, es: seq<Event>)
    ensures OnEvents(r, rh, es).out == OnAcks(r.out, es)
    decreases es
  {
    if es != [] {
      OutAfter(OnEvent(r, rh, es[0]), rh, es[1..]);
    }
  }

  /** Adds a fragment to a message and assembles the message if it is complete. */
  method Extend(st: InState, f: Fragment) returns (r: InState, data: seq<byte>)
    requires TotalRight(st)
    ensures TotalRight(r) && r == AddFragment(st, f)
    ensures data == if AllReceived(r) then Stored(r.frags) else []
  {
    var ims := new InboundMessageState(st);
    var ok := ims.AddFragment(f.fragNum, f.data, f.isLast);
    r, data := ims.Value(), [];
    var all := ims.AllFragmentsReceived();
    if all {
      var buffer := ims.Assemble();
      data := buffer[..];
    }
  }

  /** `InboundMessageFragments`. */
  class InboundMessageFragments {
    const omf: OutboundMessageFragments
    var states: InTable
    var posts: seq<Post>

    function Value(): Router
      reads this, omf
    {
      Router(omf.states, states, posts)
    }

    ghost predicate Valid()
      reads this, omf
    {
      omf.Valid() && forall id :: id in states ==> TotalRight(states[id].state)
    }

    constructor (omf: OutboundMessageFragments)
      requires omf.Valid()
      ensures Valid() && this.omf == omf && states == map[] && posts == []
    {
      this.omf := omf;
      states, posts := map[], [];
    }

    /** The part of `receiveData` that files one fragment, with `addState` and
        `checkAndPost`. */
    method FileFragment(rh: RouterHash, f: Fragment)
      requires Valid()
      modifies this
      ensures Valid() && Value() == OnEvent(old(Value()), rh, Received(f))
    {
      var entry := Entry(rh, EMPTY);
      if f.msgId in states {
        entry := states[f.msgId];
      }
      assert TotalRight(entry.state);
      var st, data := Extend(entry.state, f);
      entry := Entry(entry.hash, st);
      assert entry == Updated(states, rh, f);
      var message: seq<Post> := if data != [] then [Post(entry.hash, f.msgId, data)] else [];
      assert message == Posted(entry, f.msgId);
      states := states[f.msgId := entry];
      posts := posts + message;
    }

    method HandleEvent(rh: RouterHash, e: Event)
      requires Valid()
      modifies this, omf
      ensures Valid() && Value() == OnEvent(old(Value()), rh, e)
    {
      match e
      case CompleteAck(id) => omf.DelState(id);
      case BitfieldAck(id, nums) => omf.AckFragments(id, nums);
      case Received(f) => FileFragment(rh, f);
    }

    /** `receiveData`; false when it throws or runs past the end.  What was read
        before that takes effect. */
    method ReceiveData(rh: RouterHash, b: seq<byte>) returns (ok: bool)
      requires Valid()
      modifies this, omf
      ensures Valid() && Value() == OnEvents(old(Value()), rh, ReadData(b).events)
      ensures ok <==> ReadData(b).rest.Some?
    {
      var message := ParseData(b);
      var events := message.events;
      ok := message.rest.Some?;
      assert events[0..] == events;
      for i := 0 to |events|
        invariant Valid()
        invariant OnEvents(Value(), rh, events[i..]) == OnEvents(old(Value()), rh, events)
      {
        assert events[i..][1..] == events[i + 1..];
        HandleEvent(rh, events[i]);
      }
    }

    /** `timerCallback`: a message that took too long is forgotten. */
    method TimerCallback(id: uint32)
      requires Valid()
      modifies this`states
      ensures Valid() && states == old(states) - {id}
    {
      states := states - {id};
    }
  }
}
