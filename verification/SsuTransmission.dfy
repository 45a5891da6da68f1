/** How often one message is put on the wire: every interleaving of send callbacks,
    timer expiries and acknowledgements. */
module SsuTransmission {
  import opened Bytes
  import opened SsuPacket
  import opened SsuOutbound

  datatype Step = Callback | Timer | Ack(nums: seq<nat>) | Acknowledged

  /** The entry of the message, if it is still in the table; what `sendDataCallback`
      and what `timerCallback` transmitted so far. */
  datatype Sending = Sending(entry: Option<OutState>, first: seq<Fragment>, again: seq<Fragment>)

  function Fresh(id: uint32, data: seq<byte>): Sending {
    Sending(Some(OutState(id, data, [], 0)), [], [])
  }

  function OnCallback(s: Sending, st: OutState): Sending {
    match SendNext(st)
    case Err(_) => s
    case Ok((st', f)) => s.(entry := Some(st'), first := s.first + [f])
  }

  function OnExpiry(s: Sending, st: OutState): Sending {
    match OnTimer(st)
    case GiveUp => s.(entry := None)
    case Idle => s
    case Resend(st', f) => s.(entry := Some(st'), again := s.again + [f])
  }

  /** What an acknowledgement leaves of the entry, through the table of messages. */
  function Left(st: OutState, e: Event): Option<OutState> {
    var out := OnAck(map[st.msgId := st], e);
    if st.msgId in out then Some(out[st.msgId]) else None
  }

  function OnBitfield(s: Sending, st: OutState, nums: seq<nat>): Sending {
    s.(entry := Left(st, BitfieldAck(st.msgId, nums)))
  }

  function OnComplete(s: Sending, st: OutState): Sending {
    s.(entry := Left(st, CompleteAck(st.msgId)))
  }

  function Next(s: Sending, step: Step): Sending {
    if s.entry.None? then s
    else match step
      case Callback => OnCallback(s, s.entry.value)
      case Timer => OnExpiry(s, s.entry.value)
      case Ack(nums) => OnBitfield(s, s.entry.value, nums)
      case Acknowledged => OnComplete(s, s.entry.value)
  }

  function Run(s: Sending, steps: seq<Step>): Sending
    decreases steps
  {
    if steps == [] then s else Run(Next(s, steps[0]), steps[1..])
  }

  lemma {:induction false} RunAppend(s: Sending, a: seq<Step>, b: seq<Step>)
    ensures Run(s, a + b) == Run(Run(s, a), b)
    decreases a
  {
    if a == [] {
      assert a + b == b;
    } else {
      assert (a + b)[0] == a[0] && (a + b)[1..] == a[1..] + b;
      RunAppend(Next(s, a[0]), a[1..], b);
    }
  }

  // ---------------------------------------------------------------- the measure

  function UnsentCount(fs: seq<OutFragment>): nat {
    if fs == [] then 0 else (if fs[0].sent then 0 else 1) + UnsentCount(fs[1..])
  }

  lemma {:induction false} UnsentAll(fs: seq<OutFragment>)
    requires forall i :: 0 <= i < |fs| ==> !fs[i].sent
    ensures UnsentCount(fs) == |fs|
  {
    if fs != [] {
      UnsentAll(fs[1..]);
    }
  }

  lemma {:induction false} MarkCounts(fs: seq<OutFragment>, i: nat)
    requires i < |fs|
    ensures UnsentCount(fs[i := fs[i].(sent := true)]) == UnsentCount(fs) - if fs[i].sent then 0 else 1
  {
    var gs := fs[i := fs[i].(sent := true)];
    if i == 0 {
      assert gs[1..] == fs[1..];
    } else {
      assert gs[1..] == fs[1..][i - 1 := fs[1..][i - 1].(sent := true)];
      MarkCounts(fs[1..], i - 1);
    }
  }

  lemma {:induction false} SameSent(fs: seq<OutFragment>, gs: seq<OutFragment>)
    requires |fs| == |gs| && forall i :: 0 <= i < |fs| ==> fs[i].sent == gs[i].sent
    ensures UnsentCount(fs) == UnsentCount(gs)
  {
    if fs != [] {
      SameSent(fs[1..], gs[1..]);
    }
  }

  /** The fragments of a state are those of its message, numbered by position. */
  predicate Whole(st: OutState) {
    && |Cut(st.msgId, st.data)| <= 256
    && (st.frags != [] ==> CutOf(st))
  }

  predicate CutOf(st: OutState) {
    && |st.frags| == FragmentCount(|st.data|)
    && forall i :: 0 <= i < |st.frags| ==> st.frags[i].frag == FragmentAt(st.msgId, st.data, i)
  }

  /** Fragments that were never sent. */
  function Unspent(st: OutState): nat {
    if st.frags == [] then FragmentCount(|st.data|) else UnsentCount(st.frags)
  }

  lemma FragmentedCut(st: OutState)
    requires Whole(st)
    ensures CutOf(Fragmented(st)) && UnsentCount(Fragmented(st).frags) == Unspent(st)
  {
    if st.frags == [] {
      UnsentAll(Unsent(Cut(st.msgId, st.data)));
    }
  }

  lemma MarkSentKeeps(st: OutState, i: nat)
    requires CutOf(st) && i < |st.frags| <= 256
    ensures var st' := MarkSent(st, i);
      && CutOf(st') && st'.frags != [] && st'.tries == st.tries && st'.data == st.data && st'.msgId == st.msgId
      && UnsentCount(st'.frags) == UnsentCount(st.frags) - if st.frags[i].sent then 0 else 1
  {
    MarkCounts(st.frags, i);
  }

  lemma NumberIsIndex(st: OutState, i: nat)
    requires CutOf(st) && i < |st.frags| <= 256
    ensures st.frags[i].frag.fragNum == i
  {
  }

  lemma CallbackSpends(st: OutState)
    requires Whole(st) && SendNext(st).Ok?
    ensures var st' := SendNext(st).value.0;
      Whole(st') && st'.data == st.data && st'.tries == st.tries && Unspent(st') == Unspent(st) - 1
  {
    var st1 := Fragmented(st);
    FragmentedCut(st);
    NumberIsIndex(st1, FirstUnsent(st1.frags));
    MarkSentKeeps(st1, FirstUnsent(st1.frags));
  }

  lemma TimerSpends(st: OutState)
    requires Whole(st) && OnTimer(st).Resend?
    ensures var st' := OnTimer(st).st;
      Whole(st') && st'.data == st.data && st'.tries == st.tries + 1 && st.tries <= 5 && Unspent(st') <= Unspent(st)
  {
    TimerChoice(st);
    MarkSentKeeps(st, FirstUnackd(st.frags));
  }

  lemma {:induction false} MarksKeep(st: OutState, nums: seq<nat>)
    ensures var st' := MarkAllAckd(st, nums);
      && st'.(frags := []) == st.(frags := []) && |st'.frags| == |st.frags|
      && forall i :: 0 <= i < |st.frags| ==>
           && st'.frags[i].frag == st.frags[i].frag && st'.frags[i].sent == st.frags[i].sent
           && (st.frags[i].ackd ==> st'.frags[i].ackd)
    decreases nums
  {
    if nums != [] {
      MarksKeep(MarkAckd(st, nums[0] % 256), nums[1..]);
    }
  }

  lemma BitfieldKeeps(st: OutState, nums: seq<nat>)
    requires Whole(st)
    ensures var st' := MarkAllAckd(st, nums);
      Whole(st') && st'.data == st.data && st'.tries == st.tries && Unspent(st') == Unspent(st)
  {
    MarksKeep(st, nums);
    SameSent(st.frags, MarkAllAckd(st, nums).frags);
  }

  // --------------------------------------------------------------- bounded runs

  /** Every transmission is paid for: a callback by a fragment that was never sent,
      a retransmission by a try. */
  predicate Paid(s: Sending, n: nat) {
    && |s.first| <= n && |s.again| <= 6
    && (s.entry.Some? ==>
          && Whole(s.entry.value) && FragmentCount(|s.entry.value.data|) == n
          && |s.first| + Unspent(s.entry.value) <= n && |s.again| <= s.entry.value.tries <= 6)
  }

  lemma StepPaid(s: Sending, n: nat, step: Step)
    requires Paid(s, n)
    ensures Paid(Next(s, step), n)
  {
    if s.entry.Some? {
      var st := s.entry.value;
      match step
      case Callback =>
        if SendNext(st).Ok? {
          CallbackSpends(st);
        }
      case Timer =>
        if OnTimer(st).Resend? {
          TimerSpends(st);
        }
      case Ack(nums) => BitfieldKeeps(st, nums);
      case Acknowledged =>
    }
  }

  lemma {:induction false} RunPaid(s: Sending, n: nat, steps: seq<Step>)
    requires Paid(s, n)
    ensures Paid(Run(s, steps), n)
    decreases steps
  {
    if steps != [] {
      StepPaid(s, n, steps[0]);
      RunPaid(Next(s, steps[0]), n, steps[1..]);
    }
  }

  /** Bounded transmission: a message of n <= 256 fragments is put on the wire at most
      n + 6 times, n by callbacks and 6 by the timer, in every interleaving. */
  lemma {:induction false} BoundedTransmission(id: uint32, data: seq<byte>, steps: seq<Step>)
    requires FragmentCount(|data|) <= 256
    ensures var s := Run(Fresh(id, data), steps);
      |s.first| <= FragmentCount(|data|) && |s.again| <= 6 && |s.first| + |s.again| <= FragmentCount(|data|) + 6
  {
    RunPaid(Fresh(id, data), FragmentCount(|data|), steps);
  }

  // ------------------------------------------------------- the bound is reached

  /** Fragments 0..k-1 sent, nothing else happened. */
  predicate Progress(st: OutState, k: nat) {
    && st.frags != [] && CutOf(st) && k <= |st.frags|
    && forall i :: 0 <= i < |st.frags| ==> !st.frags[i].ackd && (st.frags[i].sent <==> i < k)
  }

  lemma FirstUnsentIs(fs: seq<OutFragment>, k: nat)
    requires k < |fs| && !fs[k].sent && forall i :: 0 <= i < k ==> fs[i].sent
    ensures FirstUnsent(fs) == k
  {
  }

  /** What the callback does to the flags: fragment 256 and its followers share numbers
      with earlier ones. */
  lemma MarkFresh(st: OutState, k: nat)
    requires Progress(st, k) && k < |st.frags| && k < 256
    ensures Progress(MarkSent(st, k), k + 1)
  {
  }

  lemma MarkAgain(st: OutState)
    requires st.frags != [] && st.frags[0].sent
    ensures MarkSent(st, 0) == st
  {
    assert st.frags[0].(sent := true) == st.frags[0];
  }

  /** The number of the next fragment, and how far that brings the sender. */
  function Numbered(k: nat): byte { if k < 256 then k else 0 }

  function Further(k: nat): nat { if k < 256 then k + 1 else 256 }

  lemma MarkNext(st: OutState, k: nat)
    requires Progress(st, k) && k < |st.frags| && k <= 256
    ensures Progress(MarkSent(st, Numbered(k)), Further(k))
    ensures MarkSent(st, Numbered(k)).(frags := []) == st.(frags := [])
    ensures |MarkSent(st, Numbered(k)).frags| == |st.frags|
  {
    if k < 256 {
      MarkFresh(st, k);
    } else {
      MarkAgain(st);
    }
  }

  lemma NumberOf(st: OutState, k: nat)
    requires CutOf(st) && k < |st.frags| && k <= 256
    ensures st.frags[k].frag.fragNum == Numbered(k)
  {
  }

  lemma ProgressCallback(st: OutState, k: nat)
    requires Progress(st, k) && k < |st.frags| && k <= 256
    ensures SendNext(st) == Ok((MarkSent(st, Numbered(k)), st.frags[k].frag))
  {
    FirstUnsentIs(st.frags, k);
    NumberOf(st, k);
  }

  lemma FirstCallback(id: uint32, data: seq<byte>)
    requires 0 < |data| <= 16383 * 127
    ensures SendNext(OutState(id, data, [], 0)) == SendNext(OutState(id, data, Unsent(Cut(id, data)), 0))
    ensures Progress(OutState(id, data, Unsent(Cut(id, data)), 0), 0)
  {
    assert FragmentCount(|data|) > 0;
  }

  /** m callbacks later the first k fragments have been sent. */
  predicate Advanced(s: Sending, s': Sending, m: nat, k: nat) {
    && s.entry.Some? && s'.entry.Some? && |s'.first| == |s.first| + m && s'.again == s.again
    && Progress(s'.entry.value, k)
    && s'.entry.value.(frags := []) == s.entry.value.(frags := [])
    && |s'.entry.value.frags| == |s.entry.value.frags|
  }

  lemma AdvancedMore(s: Sending, s1: Sending, s2: Sending, m: nat, k: nat, k': nat)
    requires Advanced(s, s1, 1, k) && Advanced(s1, s2, m, k')
    ensures Advanced(s, s2, m + 1, k')
  {
  }

  lemma CallbackStep(s: Sending, k: nat)
    requires s.entry.Some? && Progress(s.entry.value, k) && k < |s.entry.value.frags| && k <= 256
    ensures Advanced(s, Next(s, Callback), 1, Further(k))
  {
    MarkNext(s.entry.value, k);
    ProgressCallback(s.entry.value, k);
  }

  lemma RunOne(s: Sending, step: Step, m: nat)
    requires m > 0
    ensures Run(s, seq(m, _ => step)) == Run(Next(s, step), seq(m - 1, _ => step))
  {
    assert seq(m, _ => step)[1..] == seq(m - 1, _ => step);
  }

  lemma {:induction false} Callbacks(s: Sending, k: nat, m: nat)
    requires s.entry.Some? && Progress(s.entry.value, k) && k <= 256
    requires k + m <= |s.entry.value.frags| || |s.entry.value.frags| > 256
    ensures Advanced(s, Run(s, seq(m, _ => Callback)), m, Min(k + m, 256))
    decreases m
  {
    if m > 0 {
      var s1 := Next(s, Callback);
      CallbackStep(s, k);
      RunOne(s, Callback, m);
      Callbacks(s1, Further(k), m - 1);
      AdvancedMore(s, s1, Run(s1, seq(m - 1, _ => Callback)), m - 1, Further(k), Min(k + m, 256));
    }
  }

  lemma ExpiryResends(s: Sending, st: OutState)
    requires s.entry == Some(st) && Progress(st, |st.frags|) && st.tries <= 5
    ensures var s' := OnExpiry(s, st);
      && s'.entry.Some? && |s'.again| == |s.again| + 1 && s'.first == s.first
      && Progress(s'.entry.value, |s'.entry.value.frags|) && s'.entry.value.tries == st.tries + 1
  {
    assert FirstUnackd(st.frags) == 0;
    assert st.frags[0].(sent := true) == st.frags[0];
    assert st.frags[0].frag.fragNum == 0;
    assert MarkSent(st, 0) == st;
  }

  lemma {:induction false} Expiries(s: Sending, m: nat)
    requires s.entry.Some? && Progress(s.entry.value, |s.entry.value.frags|) && s.entry.value.tries + m <= 6
    ensures var s' := Run(s, seq(m, _ => Timer)); |s'.again| == |s.again| + m && s'.first == s.first
    decreases m
  {
    if m > 0 {
      ExpiryResends(s, s.entry.value);
      RunOne(s, Timer, m);
      Expiries(OnExpiry(s, s.entry.value), m - 1);
    }
  }

  lemma SendM(id: uint32, data: seq<byte>, m: nat)
    requires 0 < |data| <= 16383 * 127 && m > 0
    requires m <= FragmentCount(|data|) || FragmentCount(|data|) > 256
    ensures var s := Run(Fresh(id, data), seq(m, _ => Callback));
      && s.entry.Some? && |s.first| == m && s.again == [] && s.entry.value.tries == 0 && s.entry.value.data == data
      && Progress(s.entry.value, Min(m, 256))
  {
    FirstCallback(id, data);
    var cut := Sending(Some(OutState(id, data, Unsent(Cut(id, data)), 0)), [], []);
    var cbs := seq(m, _ => Callback);
    assert cbs[0] == Callback;
    assert Next(Fresh(id, data), Callback) == Next(cut, Callback);
    Callbacks(cut, 0, m);
  }

  /** Nothing smaller than n + 6 bounds the transmissions. */
  lemma {:induction false} BoundReached(id: uint32, data: seq<byte>)
    requires 0 < FragmentCount(|data|) <= 256
    ensures var s := Run(Fresh(id, data), seq(FragmentCount(|data|), _ => Callback) + seq(6, _ => Timer));
            |s.first| + |s.again| == FragmentCount(|data|) + 6
  {
    var n := FragmentCount(|data|);
    SendM(id, data, n);
    var s := Run(Fresh(id, data), seq(n, _ => Callback));
    RunAppend(Fresh(id, data), seq(n, _ => Callback), seq(6, _ => Timer));
    Expiries(s, 6);
  }

  /** With more than 256 fragments the callback never gets past fragment 256, whose
      number is kept as 0: it transmits without end. */
  lemma {:induction false} EndlessTransmission(id: uint32, data: seq<byte>, m: nat)
    requires FragmentCount(|data|) > 256 && |data| <= 16383 * 127 && m > 0
    ensures |Run(Fresh(id, data), seq(m, _ => Callback)).first| == m
  {
    SendM(id, data, m);
  }

  /** A message that is too large to be cut is never transmitted. */
  predicate Unsendable(s: Sending) {
    && s.first == [] && s.again == []
    && (s.entry.Some? ==> s.entry.value.frags == [] && |s.entry.value.data| > 16383 * 127)
  }

  lemma UnsendableStep(s: Sending, step: Step)
    requires Unsendable(s)
    ensures Unsendable(Next(s, step))
  {
    if s.entry.Some? && step.Ack? {
      MarksKeep(s.entry.value, step.nums);
    }
  }

  lemma {:induction false} NeverSent(s: Sending, steps: seq<Step>)
    requires Unsendable(s)
    ensures Unsendable(Run(s, steps))
    decreases steps
  {
    if steps != [] {
      UnsendableStep(s, steps[0]);
      NeverSent(Next(s, steps[0]), steps[1..]);
    }
  }

  function Transmissions(s: Sending): nat { |s.first| + |s.again| }

  /** Some number bounds the transmissions of the message in all interleavings. */
  ghost predicate Bounded(id: uint32, data: seq<byte>) {
    exists n: nat :: BoundedBy(id, data, n)
  }

  ghost predicate BoundedBy(id: uint32, data: seq<byte>, n: nat) {
    forall steps :: Transmissions(Run(Fresh(id, data), steps)) <= n
  }

  /** Transmission is bounded if and only if the message has at most 256 fragments or is
      too large to be sent at all. */
  lemma {:induction false} BoundedIff(id: uint32, data: seq<byte>)
    ensures Bounded(id, data) <==> FragmentCount(|data|) <= 256 || |data| > 16383 * 127
  {
    if FragmentCount(|data|) <= 256 {
      forall steps ensures Transmissions(Run(Fresh(id, data), steps)) <= FragmentCount(|data|) + 6 {
        BoundedTransmission(id, data, steps);
      }
      assert BoundedBy(id, data, FragmentCount(|data|) + 6);
    } else if |data| > 16383 * 127 {
      forall steps ensures Transmissions(Run(Fresh(id, data), steps)) <= 0 {
        NeverSent(Fresh(id, data), steps);
      }
      assert BoundedBy(id, data, 0);
    } else {
      forall n: nat ensures !BoundedBy(id, data, n) {
        EndlessTransmission(id, data, n + 1);
        assert Transmissions(Run(Fresh(id, data), seq(n + 1, _ => Callback))) > n;
      }
    }
  }

  // -------------------------------------------------- acknowledged fragments

  predicate Ackd(st: OutState, k: nat) {
    Whole(st) && k < |st.frags| && st.frags[k].ackd
  }

  /** Fragment k is acknowledged or the message is gone. */
  predicate Settled(s: Sending, k: nat) {
    s.entry.Some? ==> Ackd(s.entry.value, k)
  }

  lemma AckdCallback(st: OutState, k: nat)
    requires Ackd(st, k) && SendNext(st).Ok?
    ensures Ackd(SendNext(st).value.0, k)
  {
    CallbackSpends(st);
  }

  /** The timer picks the first fragment that is not acknowledged. */
  lemma TimerChoice(st: OutState)
    requires Whole(st) && OnTimer(st).Resend?
    ensures FirstUnackd(st.frags) < |st.frags| <= 256 && OnTimer(st).frag.fragNum == FirstUnackd(st.frags)
  {
  }

  lemma TimerKeepsAcks(st: OutState, k: nat)
    requires OnTimer(st).Resend? && k < |st.frags|
    ensures k < |OnTimer(st).st.frags| && OnTimer(st).st.frags[k].ackd == st.frags[k].ackd
  {
  }

  lemma AckdTimer(st: OutState, k: nat)
    requires Ackd(st, k) && OnTimer(st).Resend?
    ensures Ackd(OnTimer(st).st, k) && OnTimer(st).frag.fragNum != k
  {
    TimerSpends(st);
    TimerChoice(st);
    TimerKeepsAcks(st, k);
  }

  lemma AckdBitfield(st: OutState, k: nat, nums: seq<nat>)
    requires Ackd(st, k)
    ensures Ackd(MarkAllAckd(st, nums), k)
  {
    BitfieldKeeps(st, nums);
    MarksKeep(st, nums);
  }

  /** What a step adds to the retransmissions is not fragment k. */
  predicate Spared(again: seq<Fragment>, again': seq<Fragment>, k: nat) {
    && |again| <= |again'| && again'[..|again|] == again
    && forall i :: |again| <= i < |again'| ==> again'[i].fragNum != k
  }

  lemma SettledStep(s: Sending, k: nat, step: Step)
    requires Settled(s, k)
    ensures Settled(Next(s, step), k) && Spared(s.again, Next(s, step).again, k)
  {
    if s.entry.Some? {
      var st := s.entry.value;
      match step
      case Callback =>
        if SendNext(st).Ok? {
          AckdCallback(st, k);
        }
      case Timer =>
        if OnTimer(st).Resend? {
          AckdTimer(st, k);
        }
      case Ack(nums) => AckdBitfield(st, k, nums);
      case Acknowledged =>
    }
  }

  lemma SparedMore(a: seq<Fragment>, b: seq<Fragment>, c: seq<Fragment>, k: nat)
    requires Spared(a, b, k) && Spared(b, c, k)
    ensures Spared(a, c, k)
  {
    assert c[..|a|] == c[..|b|][..|a|];
    forall i | |a| <= i < |b| ensures c[i].fragNum != k {
      assert c[..|b|][i] == b[i];
    }
  }

  /** Once fragment k is acknowledged, no later retransmission is of fragment k. */
  lemma {:induction false} AckedNeverResent(s: Sending, k: nat, steps: seq<Step>)
    requires Settled(s, k)
    ensures Spared(s.again, Run(s, steps).again, k)
    decreases steps
  {
    if steps != [] {
      SettledStep(s, k, steps[0]);
      AckedNeverResent(Next(s, steps[0]), k, steps[1..]);
      SparedMore(s.again, Next(s, steps[0]).again, Run(s, steps).again, k);
    }
  }

  // ------------------------------------------------------- after the last word

  lemma {:induction false} GoneStaysQuiet(s: Sending, steps: seq<Step>)
    requires s.entry.None?
    ensures Run(s, steps) == s
    decreases steps
  {
    if steps != [] {
      GoneStaysQuiet(Next(s, steps[0]), steps[1..]);
    }
  }

  /** Once a message is acknowledged as complete, nothing of it is transmitted any more. */
  lemma {:induction false} AcknowledgedNeverSent(s: Sending, steps: seq<Step>)
    ensures var s' := Run(Next(s, Acknowledged), steps);
      s'.entry.None? && s'.first == s.first && s'.again == s.again
  {
    assert Next(s, Acknowledged).entry.None?;
    GoneStaysQuiet(Next(s, Acknowledged), steps);
  }

  // ------------------------------------------------- which fragment is transmitted

  ghost predicate NextToSend(fs: seq<OutFragment>, i: nat) {
    i < |fs| && !fs[i].sent && forall j :: 0 <= j < i ==> fs[j].sent
  }

  ghost predicate NextToResend(fs: seq<OutFragment>, i: nat) {
    i < |fs| && !fs[i].ackd && forall j :: 0 <= j < i ==> fs[j].ackd
  }

  /** The send callback: it transmits the first fragment that was never sent and flags just
      that; it throws iff there is none, or the message has to be cut and is too large. */
  lemma CallbackExact(st: OutState)
    requires Whole(st)
    ensures st.frags == [] && |st.data| > 16383 * 127 ==> SendNext(st) == Err(TooLarge)
    ensures !(st.frags == [] && |st.data| > 16383 * 127) ==>
      var fs := if st.frags == [] then Unsent(Cut(st.msgId, st.data)) else st.frags;
      && (SendNext(st).Err? <==> forall i :: 0 <= i < |fs| ==> fs[i].sent)
      && forall i: nat :: NextToSend(fs, i) ==>
           SendNext(st) == Ok((st.(frags := fs[i := fs[i].(sent := true)]), fs[i].frag))
  {
    var st1 := Fragmented(st);
    FragmentedCut(st);
    forall i: nat | NextToSend(st1.frags, i) ensures FirstUnsent(st1.frags) == i && st1.frags[i].frag.fragNum == i {
      NumberIsIndex(st1, i);
    }
  }

  /** The timer: it gives up iff there were six tries; else it retransmits the first
      fragment that is not acknowledged and counts a try, or does nothing if there is none. */
  lemma TimerExact(st: OutState)
    requires Whole(st)
    ensures OnTimer(st).GiveUp? <==> st.tries >= 6
    ensures st.tries < 6 ==> (OnTimer(st).Idle? <==> AllAckd(st))
    ensures forall i: nat :: st.tries < 6 && NextToResend(st.frags, i) ==>
      OnTimer(st)
      == Resend(st.(frags := st.frags[i := st.frags[i].(sent := true)], tries := st.tries + 1), st.frags[i].frag)
  {
    forall i: nat | NextToResend(st.frags, i) ensures FirstUnackd(st.frags) == i && st.frags[i].frag.fragNum == i {
      NumberIsIndex(st, i);
    }
  }
}
