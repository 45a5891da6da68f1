/** The sending side of the SSU message layer: `OutboundMessageState` and
    `OutboundMessageFragments`. */
module SsuOutbound {
  import opened Bytes
  import opened SsuPacket

  const MAX_FRAGMENT: nat := 1120

  // ------------------------------------------------- cutting a message

  function FragmentCount(length: nat): nat {
    (length + 1119) / 1120
  }

  /** The k-th fragment.  The number is kept in one byte; only a fragment shorter
      than the maximum is flagged last. */
  function FragmentAt(id: uint32, data: seq<byte>, k: nat): Fragment
    requires k < FragmentCount(|data|)
  {
    var end := Min(1120 * k + 1120, |data|);
    Fragment(id, k % 256, end - 1120 * k < 1120, data[1120 * k..end])
  }

  function Cut(id: uint32, data: seq<byte>): (frags: seq<Fragment>)
    ensures |frags| == FragmentCount(|data|)
  {
    seq(FragmentCount(|data|), k requires 0 <= k < FragmentCount(|data|) => FragmentAt(id, data, k))
  }

  lemma FragmentBounds(length: nat, k: nat)
    requires k < FragmentCount(length)
    ensures 1120 * k < length
    ensures 1120 * k + 1120 < length ==> k + 1 < FragmentCount(length)
    ensures k + 1 < FragmentCount(length) ==> 1120 * k + 1120 < length
  {
  }

  // --------------------------------------------------- one message

  datatype OutFragment = OutFragment(frag: Fragment, ackd: bool, sent: bool)

  datatype OutState = OutState(msgId: uint32, data: seq<byte>, frags: seq<OutFragment>, tries: byte)

  function Unsent(frags: seq<Fragment>): (r: seq<OutFragment>)
    ensures |r| == |frags|
  {
    seq(|frags|, i requires 0 <= i < |frags| => OutFragment(frags[i], false, false))
  }

  /** The state once `fragment()` has run. */
  function Fragmented(st: OutState): OutState {
    if st.frags == [] then st.(frags := Unsent(Cut(st.msgId, st.data))) else st
  }

  function FirstUnsent(fs: seq<OutFragment>): (i: nat)
    ensures i <= |fs| && (i < |fs| ==> !fs[i].sent) && forall j :: 0 <= j < i ==> fs[j].sent
  {
    if fs == [] || !fs[0].sent then 0 else
      var i := FirstUnsent(fs[1..]);
      assert forall j :: 0 < j < 1 + i ==> fs[j] == fs[1..][j - 1];
      1 + i
  }

  function FirstUnackd(fs: seq<OutFragment>): (i: nat)
    ensures i <= |fs| && (i < |fs| ==> !fs[i].ackd) && forall j :: 0 <= j < i ==> fs[j].ackd
  {
    if fs == [] || !fs[0].ackd then 0 else
      var i := FirstUnackd(fs[1..]);
      assert forall j :: 0 < j < 1 + i ==> fs[j] == fs[1..][j - 1];
      1 + i
  }

  function MarkSent(st: OutState, num: byte): OutState {
    if num < |st.frags| then st.(frags := st.frags[num := st.frags[num].(sent := true)]) else st
  }

  function MarkAckd(st: OutState, num: byte): OutState {
    if num < |st.frags| then st.(frags := st.frags[num := st.frags[num].(ackd := true)]) else st
  }

  /** All marks of one bitfield; each number is passed in one byte. */
  function MarkAllAckd(st: OutState, nums: seq<nat>): OutState
    decreases nums
  {
    if nums == [] then st else MarkAllAckd(MarkAckd(st, nums[0] % 256), nums[1..])
  }

  predicate AllAckd(st: OutState) {
    forall i :: 0 <= i < |st.frags| ==> st.frags[i].ackd
  }

  predicate AllSent(st: OutState) {
    forall i :: 0 <= i < |st.frags| ==> st.frags[i].sent
  }

  /** `OutboundMessageState`. */
  class OutboundMessageState {
    var msgId: uint32
    var data: seq<byte>
    var frags: seq<OutFragment>
    var tries: byte

    function Value(): OutState
      reads this
    {
      OutState(msgId, data, frags, tries)
    }

    constructor (st: OutState)
      ensures Value() == st
    {
      msgId, data, frags, tries := st.msgId, st.data, st.frags, st.tries;
    }

    /** `fragment()`: cuts the message into pieces of at most 1120 bytes. */
    method FragmentMessage() returns (ok: bool)
      requires frags == []
      modifies this`frags
      ensures ok <==> |data| <= 16383 * 127
      ensures Value() == if ok then Fragmented(old(Value())) else old(Value())
    {
      if |data| > 16383 * 127 {
        return false;
      }
      var pos, i := 0, 0;
      ghost var whole := Unsent(Cut(msgId, data));
      while pos < |data|
        invariant 0 <= i <= |whole| && pos == Min(1120 * i, |data|)
        invariant (pos < |data|) == (i < |whole|)
        invariant frags == whole[..i]
        decreases |data| - pos
      {
        var step := Min(|data| - pos, MAX_FRAGMENT);
        var f := Fragment(msgId, i % 256, step < MAX_FRAGMENT, data[pos..pos + step]);
        FragmentBounds(|data|, i);
        assert f == FragmentAt(msgId, data, i);
        frags := frags + [OutFragment(f, false, false)];
        assert whole[..i + 1] == whole[..i] + [whole[i]];
        pos, i := pos + step, i + 1;
      }
      ok := true;
    }

    /** The next fragment that has not been sent; the message is cut on first use. */
    method GetNextFragment() returns (r: Result<Fragment>)
      modifies this`frags
      ensures frags == (if old(frags) == [] && |data| > 16383 * 127 then [] else Fragmented(old(Value())).frags)
      ensures r == if old(frags) == [] && |data| > 16383 * 127 then Err(TooLarge)
                   else var i := FirstUnsent(frags);
                     if i < |frags| then Ok(frags[i].frag) else Err(Malformed)
    {
      if frags == [] {
        var ok := FragmentMessage();
        if !ok {
          return Err(TooLarge);
        }
      }
      var i := 0;
      while i < |frags|
        invariant 0 <= i <= FirstUnsent(frags)
      {
        if !frags[i].sent {
          return Ok(frags[i].frag);
        }
        i := i + 1;
      }
      r := Err(Malformed);
    }

    method GetNextUnackdFragment() returns (r: Option<Fragment>)
      ensures r == var i := FirstUnackd(frags); if i < |frags| then Some(frags[i].frag) else None
    {
      var i := 0;
      while i < |frags|
        invariant 0 <= i <= FirstUnackd(frags)
      {
        if !frags[i].ackd {
          return Some(frags[i].frag);
        }
        i := i + 1;
      }
      r := None;
    }

    method AllFragmentsSent() returns (all: bool)
      ensures all <==> AllSent(Value())
    {
      for i := 0 to |frags|
        invariant forall j :: 0 <= j < i ==> frags[j].sent
      {
        if !frags[i].sent {
          return false;
        }
      }
      all := true;
    }

    method AllFragmentsAckd() returns (all: bool)
      ensures all <==> AllAckd(Value())
    {
      for i := 0 to |frags|
        invariant forall j :: 0 <= j < i ==> frags[j].ackd
      {
        if !frags[i].ackd {
          return false;
        }
      }
      all := true;
    }

    method MarkFragmentSent(num: byte)
      modifies this`frags
      ensures Value() == MarkSent(old(Value()), num)
    {
      if num >= |frags| {
        return;
      }
      frags := frags[num := frags[num].(sent := true)];
    }

    method MarkFragmentAckd(num: byte)
      modifies this`frags
      ensures Value() == MarkAckd(old(Value()), num)
    {
      if num >= |frags| {
        return;
      }
      frags := frags[num := frags[num].(ackd := true)];
    }

    method IncrementTries()
      modifies this`tries
      ensures tries == (old(tries) as int + 1) % 256
    {
      tries := (tries as int + 1) % 256;
    }
  }

  // --------------------------------------- steps of the send and retransmit machine

  /** `sendDataCallback`: the new state and the fragment put on the wire, or the
      exception. */
  function SendNext(st: OutState): Result<(OutState, Fragment)> {
    if st.frags == [] && |st.data| > 16383 * 127 then Err(TooLarge)
    else
      var st1 := Fragmented(st);
      var i := FirstUnsent(st1.frags);
      if i == |st1.frags| then Err(Malformed)
      else Ok((MarkSent(st1, st1.frags[i].frag.fragNum), st1.frags[i].frag))
  }

  datatype TimerOutcome = GiveUp | Idle | Resend(st: OutState, frag: Fragment)

  /** `timerCallback`. */
  function OnTimer(st: OutState): TimerOutcome {
    if st.tries > 5 then GiveUp
    else
      var i := FirstUnackd(st.frags);
      if i == |st.frags| then Idle
      else Resend(MarkSent(st, st.frags[i].frag.fragNum).(tries := st.tries + 1), st.frags[i].frag)
  }

  predicate Small(st: OutState) {
    forall i :: 0 <= i < |st.frags| ==> |st.frags[i].frag.data| <= 1120
  }

  /** The next fragment of a message and its packet, with what becomes of the state. */
  method SendFragment(st: OutState) returns (r: Result<(OutState, Fragment)>, again: bool)
    requires Small(st)
    ensures r == SendNext(st)
    ensures r.Ok? ==> Small(r.value.0) && |r.value.1.data| <= 1120 && (again <==> !AllSent(r.value.0))
  {
    var oms := new OutboundMessageState(st);
    var fragment := oms.GetNextFragment();
    if fragment.Err? {
      return Err(fragment.error), false;
    }
    oms.MarkFragmentSent(fragment.value.fragNum);
    var all := oms.AllFragmentsSent();
    r, again := Ok((oms.Value(), fragment.value)), !all;
  }

  /** What `timerCallback` does with one message. */
  method ResendFragment(st: OutState) returns (r: TimerOutcome)
    requires Small(st)
    ensures r == OnTimer(st)
    ensures r.Resend? ==> Small(r.st) && |r.frag.data| <= 1120
  {
    var oms := new OutboundMessageState(st);
    if oms.tries > 5 {
      return GiveUp;
    }
    var frag := oms.GetNextUnackdFragment();
    if frag.None? {
      return Idle;
    }
    oms.MarkFragmentSent(frag.value.fragNum);
    oms.IncrementTries();
    r := Resend(oms.Value(), frag.value);
  }

  type OutTable = map<uint32, OutState>

  /** What a complete acknowledgement or a bitfield does to the table. */
  function OnAck(out: OutTable, e: Event): OutTable {
    match e
    case CompleteAck(id) => out - {id}
    case BitfieldAck(id, nums) =>
      if id !in out then out
      else
        var st := MarkAllAckd(out[id], nums);
        if AllAckd(st) then out - {id} else out[id := st]
    case Received(_) => out
  }

  /** `OutboundMessageFragments`; `sent` is what was handed to the socket. */
  class OutboundMessageFragments {
    var states: OutTable
    var sent: seq<seq<byte>>

    /** Every stored fragment fits a packet, so `buildData` never throws. */
    ghost predicate Valid()
      reads this
    {
      forall k :: k in states ==> Small(states[k])
    }

    constructor ()
      ensures Valid() && states == map[] && sent == []
    {
      states, sent := map[], [];
    }

    /** `sendData`: `std::map::emplace` keeps an entry that is already there. */
    method SendData(id: uint32, data: seq<byte>)
      requires Valid()
      modifies this`states
      ensures Valid()
      ensures states == if id in old(states) then old(states) else old(states)[id := OutState(id, data, [], 0)]
    {
      if id !in states {
        states := states[id := OutState(id, data, [], 0)];
      }
    }

    method DelState(id: uint32)
      requires Valid()
      modifies this`states
      ensures Valid()
      ensures states == old(states) - {id}
    {
      states := states - {id};
    }

    /** `sendDataCallback`; not ok when it throws, `again` when it posts itself again. */
    method SendDataCallback(id: uint32) returns (ok: bool, again: bool)
      requires Valid()
      modifies this
      ensures Valid()
      ensures ok <==> id !in old(states) || SendNext(old(states)[id]).Ok?
      ensures id in old(states) && ok ==>
        var (st, f) := SendNext(old(states)[id]).value;
        && states == old(states)[id := st]
        && |f.data| <= 1120 && sent == old(sent) + [DataBytes(false, [], [], [f])]
        && (again <==> !AllSent(st))
      ensures id !in old(states) || !ok ==> states == old(states) && sent == old(sent) && !again
    {
      if id !in states {
        return true, false;
      }
      var next, more := SendFragment(states[id]);
      if next.Err? {
        return false, false;
      }
      var packet := BuildData(false, [], [], [next.value.1]);
      sent := sent + [packet.value];
      states := states[id := next.value.0];
      ok, again := true, more;
    }

    /** `timerCallback`. */
    method TimerCallback(id: uint32)
      requires Valid()
      modifies this
      ensures Valid()
      ensures id !in old(states) ==> states == old(states) && sent == old(sent)
      ensures id in old(states) ==>
        match OnTimer(old(states)[id])
        case GiveUp => states == old(states) - {id} && sent == old(sent)
        case Idle => states == old(states) && sent == old(sent)
        case Resend(st, f) =>
          && states == old(states)[id := st]
          && |f.data| <= 1120 && sent == old(sent) + [DataBytes(false, [], [], [f])]
    {
      if id !in states {
        return;
      }
      var outcome := ResendFragment(states[id]);
      match outcome
      case GiveUp => states := states - {id};
      case Idle =>
      case Resend(st, f) =>
        var packet := BuildData(false, [], [], [f]);
        sent := sent + [packet.value];
        states := states[id := st];
    }

    /** The acknowledgement half of one bitfield in `receiveData`. */
    method AckFragments(id: uint32, nums: seq<nat>)
      requires Valid()
      modifies this`states
      ensures Valid()
      ensures states == OnAck(old(states), BitfieldAck(id, nums))
    {
      if id in states {
        var oms := new OutboundMessageState(states[id]);
        for i := 0 to |nums|
          invariant states == old(states) && Small(oms.Value())
          invariant MarkAllAckd(oms.Value(), nums[i..]) == MarkAllAckd(states[id], nums)
        {
          assert nums[i..][1..] == nums[i + 1..];
          oms.MarkFragmentAckd(nums[i] % 256);
        }
        var all := oms.AllFragmentsAckd();
        if all {
          DelState(id);
        } else {
          states := states[id := oms.Value()];
        }
      }
    }
  }
}
