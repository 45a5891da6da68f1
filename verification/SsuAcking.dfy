/** What the acknowledgements of a packet do at the sender: which messages leave its table,
    and what is marked on those that stay. */
module SsuAcking {
  import opened Bytes
  import opened SsuPacket
  import opened SsuOutbound
  import opened SsuInbound

  // ----------------------------------------------------- what the events say of a message

  ghost predicate Touched(es: seq<Event>, id: uint32) {
    exists i :: 0 <= i < |es| && es[i].BitfieldAck? && es[i].msgId == id
  }

  /** The fragment is named, in one byte, by a bitfield for the message. */
  ghost predicate Named(es: seq<Event>, id: uint32, k: nat) {
    exists i :: 0 <= i < |es| && NamedBy(es[i], id, k)
  }

  ghost predicate NamedBy(e: Event, id: uint32, k: nat) {
    e.BitfieldAck? && e.msgId == id && exists j :: 0 <= j < |e.nums| && e.nums[j] % 256 == k
  }

  /** Every fragment was marked before or is named. */
  ghost predicate CoveredBy(st: OutState, es: seq<Event>, id: uint32) {
    forall k :: 0 <= k < |st.frags| ==> st.frags[k].ackd || Named(es, id, k)
  }

  /** The same entry with exactly the named fragments marked in addition. */
  ghost predicate Marked(st: OutState, es: seq<Event>, id: uint32, st': OutState) {
    && st'.msgId == st.msgId && st'.data == st.data && st'.tries == st.tries && |st'.frags| == |st.frags|
    && forall k :: 0 <= k < |st.frags| ==>
         st'.frags[k] == st.frags[k].(ackd := st.frags[k].ackd || Named(es, id, k))
  }

  /** The entry is gone iff the message was acknowledged as complete, or a bitfield came and
      all bitfields together cover it; otherwise it has the marks. */
  ghost predicate Applied(out: OutTable, es: seq<Event>, out': OutTable, id: uint32) {
    && (id in out' ==> id in out && Marked(out[id], es, id, out'[id]))
    && (id in out ==> (id !in out' <==> CompleteAck(id) in es || (Touched(es, id) && CoveredBy(out[id], es, id))))
  }

  // ------------------------------------------------------------------- one event

  lemma {:induction false} MarkAllExact(st: OutState, nums: seq<nat>, k: nat)
    requires k < |st.frags|
    ensures |MarkAllAckd(st, nums).frags| == |st.frags|
    ensures MarkAllAckd(st, nums).(frags := []) == st.(frags := [])
    ensures MarkAllAckd(st, nums).frags[k]
         == st.frags[k].(ackd := st.frags[k].ackd || exists j :: 0 <= j < |nums| && nums[j] % 256 == k)
    decreases nums
  {
    if nums != [] {
      MarkAllExact(MarkAckd(st, nums[0] % 256), nums[1..], k);
      assert forall j :: 0 < j < |nums| ==> nums[j] == nums[1..][j - 1];
      if exists j :: 0 <= j < |nums| && nums[j] % 256 == k {
        var j :| 0 <= j < |nums| && nums[j] % 256 == k;
        assert j > 0 ==> nums[1..][j - 1] % 256 == k;
      }
    }
  }

  lemma {:induction false} MarkNone(st: OutState, nums: seq<nat>)
    requires st.frags == []
    ensures MarkAllAckd(st, nums) == st
    decreases nums
  {
    if nums != [] {
      MarkNone(st, nums[1..]);
    }
  }

  lemma FirstEvent(es: seq<Event>, id: uint32)
    requires es != []
    ensures Touched(es, id) <==> (es[0].BitfieldAck? && es[0].msgId == id) || Touched(es[1..], id)
    ensures CompleteAck(id) in es <==> es[0] == CompleteAck(id) || CompleteAck(id) in es[1..]
  {
    assert forall i :: 0 < i < |es| ==> es[i] == es[1..][i - 1];
    assert es == [es[0]] + es[1..];
  }

  lemma FirstNames(es: seq<Event>, id: uint32, k: nat)
    requires es != []
    ensures Named(es, id, k) <==> NamedBy(es[0], id, k) || Named(es[1..], id, k)
  {
    assert forall i :: 0 < i < |es| ==> es[i] == es[1..][i - 1];
    if Named(es, id, k) {
      var i :| 0 <= i < |es| && NamedBy(es[i], id, k);
      assert i > 0 ==> NamedBy(es[1..][i - 1], id, k);
    }
    if Named(es[1..], id, k) {
      var i :| 0 <= i < |es[1..]| && NamedBy(es[1..][i], id, k);
      assert NamedBy(es[i + 1], id, k);
    }
  }

  lemma UntouchedNames(es: seq<Event>, id: uint32, k: nat)
    requires !Touched(es, id)
    ensures !Named(es, id, k)
  {
  }

  /** What one bitfield for the message does to its entry. */
  ghost predicate MarkedBy(st: OutState, e: Event, id: uint32, st': OutState) {
    && st'.msgId == st.msgId && st'.data == st.data && st'.tries == st.tries && |st'.frags| == |st.frags|
    && forall k :: 0 <= k < |st.frags| ==>
         st'.frags[k] == st.frags[k].(ackd := st.frags[k].ackd || NamedBy(e, id, k))
  }

  lemma FieldMarks(st: OutState, id: uint32, nums: seq<nat>)
    ensures MarkedBy(st, BitfieldAck(id, nums), id, MarkAllAckd(st, nums))
  {
    if st.frags == [] {
      MarkNone(st, nums);
    } else {
      MarkAllExact(st, nums, 0);
      forall k | 0 <= k < |st.frags|
        ensures MarkAllAckd(st, nums).frags[k]
             == st.frags[k].(ackd := st.frags[k].ackd || NamedBy(BitfieldAck(id, nums), id, k))
      {
        MarkAllExact(st, nums, k);
      }
    }
  }

  lemma {:induction false} GoneStaysGone(out: OutTable, es: seq<Event>, id: uint32)
    requires id !in out
    ensures id !in OnAcks(out, es)
    decreases es
  {
    if es != [] {
      GoneStaysGone(OnAck(out, es[0]), es[1..], id);
    }
  }

  /** An event that is not about the message. */
  lemma OtherEvent(out: OutTable, e: Event, id: uint32)
    requires e.Received? || e.msgId != id
    ensures id in OnAck(out, e) <==> id in out
    ensures id in out ==> OnAck(out, e)[id] == out[id]
  {
  }

  // ------------------------------------------------------------------ all events

  lemma SkipFirst(st: OutState, es: seq<Event>, id: uint32, st': OutState)
    requires es != [] && (es[0].Received? || es[0].msgId != id)
    ensures Marked(st, es, id, st') <==> Marked(st, es[1..], id, st')
    ensures CoveredBy(st, es, id) <==> CoveredBy(st, es[1..], id)
  {
    forall k: nat ensures Named(es, id, k) <==> Named(es[1..], id, k) {
      FirstNames(es, id, k);
    }
  }

  lemma MarkFirst(st: OutState, es: seq<Event>, id: uint32, st1: OutState, st': OutState)
    requires es != [] && MarkedBy(st, es[0], id, st1)
    ensures Marked(st1, es[1..], id, st') ==> Marked(st, es, id, st')
    ensures CoveredBy(st1, es[1..], id) <==> CoveredBy(st, es, id)
  {
    forall k: nat ensures Named(es, id, k) <==> NamedBy(es[0], id, k) || Named(es[1..], id, k) {
      FirstNames(es, id, k);
    }
  }

  lemma CoveredByFirst(st: OutState, es: seq<Event>, id: uint32, st1: OutState)
    requires es != [] && MarkedBy(st, es[0], id, st1) && AllAckd(st1)
    ensures CoveredBy(st, es, id)
  {
    forall k | 0 <= k < |st.frags| ensures st.frags[k].ackd || Named(es, id, k) {
      FirstNames(es, id, k);
      assert st1.frags[k].ackd;
    }
  }

  lemma NotCoveredLater(st: OutState, es: seq<Event>, id: uint32)
    requires !AllAckd(st) && !Touched(es, id)
    ensures !CoveredBy(st, es, id)
  {
    var k :| 0 <= k < |st.frags| && !st.frags[k].ackd;
    UntouchedNames(es, id, k);
  }

  lemma NothingSaid(st: OutState, id: uint32)
    ensures Marked(st, [], id, st)
  {
    forall k: nat ensures !Named([], id, k) {
    }
  }

  lemma {:induction false} FieldApplied(out: OutTable, es: seq<Event>, id: uint32)
    requires es != [] && es[0].BitfieldAck? && es[0].msgId == id && id in out
    requires Applied(OnAck(out, es[0]), es[1..], OnAcks(OnAck(out, es[0]), es[1..]), id)
    ensures Applied(out, es, OnAcks(out, es), id)
  {
    var st, st1 := out[id], MarkAllAckd(out[id], es[0].nums);
    var out' := OnAcks(OnAck(out, es[0]), es[1..]);
    FieldMarks(st, id, es[0].nums);
    FirstEvent(es, id);
    if AllAckd(st1) {
      GoneStaysGone(OnAck(out, es[0]), es[1..], id);
      CoveredByFirst(st, es, id, st1);
    } else {
      MarkFirst(st, es, id, st1, if id in out' then out'[id] else st1);
      if !Touched(es[1..], id) {
        NotCoveredLater(st1, es[1..], id);
      }
    }
  }

  lemma {:induction false} OneApplied(out: OutTable, es: seq<Event>, id: uint32)
    ensures Applied(out, es, OnAcks(out, es), id)
    decreases es
  {
    if es == [] {
      if id in out {
        NothingSaid(out[id], id);
      }
    } else {
      var out1 := OnAck(out, es[0]);
      OneApplied(out1, es[1..], id);
      if id !in out {
        GoneStaysGone(out, es, id);
      } else if es[0].BitfieldAck? && es[0].msgId == id {
        FieldApplied(out, es, id);
      } else if es[0] == CompleteAck(id) {
        GoneStaysGone(out1, es[1..], id);
      } else {
        OtherEvent(out, es[0], id);
        FirstEvent(es, id);
        var out' := OnAcks(out1, es[1..]);
        SkipFirst(out[id], es, id, if id in out' then out'[id] else out[id]);
      }
    }
  }

  /** What a packet does at the sender, for every packet and table.  A message leaves the
      table exactly when its id is among the complete acknowledgements read, or when a
      bitfield for it was read and all of them, with the marks already there, cover its
      fragments.  What stays has exactly the named fragments marked in addition, and an
      entry the packet does not mention is unchanged. */
  lemma {:induction false} AcksApplied(r: Router, rh: RouterHash, b: seq<byte>, id: uint32)
    ensures var es, out' := ReadData(b).events, OnEvents(r, rh, ReadData(b).events).out;
      && Applied(r.out, es, out', id)
      && (CompleteAck(id) !in es && !Touched(es, id) && id in r.out ==> id in out' && out'[id] == r.out[id])
  {
    var es := ReadData(b).events;
    OutAfter(r, rh, es);
    OneApplied(r.out, es, id);
    if CompleteAck(id) !in es && !Touched(es, id) && id in r.out {
      Unmentioned(r.out[id], es, id, OnAcks(r.out, es)[id]);
    }
  }

  lemma Unmentioned(st: OutState, es: seq<Event>, id: uint32, st': OutState)
    requires Marked(st, es, id, st') && !Touched(es, id)
    ensures st' == st
  {
    forall k | 0 <= k < |st.frags| ensures st'.frags[k] == st.frags[k] {
      UntouchedNames(es, id, k);
    }
    assert st'.frags == st.frags;
  }
}
