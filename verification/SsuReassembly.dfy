/** Cutting a message and putting it together again: what the receiver knows
    depends only on the set of fragments that arrived. */
module SsuReassembly {
  import opened Bytes
  import opened SsuPacket
  import opened SsuOutbound
  import opened SsuInbound

  /** The fragments of a message that can be delivered: numbered from 0 within
      seven bits, the last one and no other flagged last. */
  predicate Numbered(cut: seq<Fragment>) {
    && 1 <= |cut| <= 128
    && forall k :: 0 <= k < |cut| ==> cut[k].fragNum == k && (cut[k].isLast <==> k == |cut| - 1)
  }

  function Joined(cut: seq<Fragment>): seq<byte> {
    if cut == [] then [] else Joined(cut[..|cut| - 1]) + cut[|cut| - 1].data
  }

  // -------------------------------------------------- what the receiver knows

  /** The state a receiver is in once exactly the fragments of `got` have arrived. */
  ghost predicate Knows(st: InState, cut: seq<Fragment>, got: set<nat>) {
    && |st.frags| <= |cut|
    && (st.frags != [] ==> |st.frags| - 1 in got)
    && (forall k :: k in got ==> k < |st.frags|)
    && (forall k :: 0 <= k < |st.frags| ==> st.frags[k] == if k in got then Some(cut[k].data) else None)
    && (st.gotLast <==> |cut| - 1 in got)
    && st.lastFragment == (if st.gotLast && |cut| <= 128 then |cut| - 1 else 0)
    && TotalRight(st)
  }

  /** There is only one such state. */
  lemma KnowsUnique(st: InState, st': InState, cut: seq<Fragment>, got: set<nat>)
    requires Knows(st, cut, got) && Knows(st', cut, got)
    ensures st == st'
  {
    assert |st.frags| == |st'.frags|;
    assert st.frags == st'.frags;
  }

  lemma KnowsNothing(cut: seq<Fragment>)
    requires cut != []
    ensures Knows(EMPTY, cut, {})
  {
  }

  /** One more fragment, new or repeated. */
  lemma KnowsOneMore(st: InState, cut: seq<Fragment>, got: set<nat>, k: nat)
    requires Numbered(cut) && Knows(st, cut, got) && k < |cut|
    ensures Knows(AddFragment(st, cut[k]), cut, got + {k})
  {
    var f := cut[k];
    AddKeepsCount(st, f.fragNum, f.data, f.isLast);
    if k in got {
      assert got + {k} == got;
    } else {
      var grown := Grown(st.frags, k + 1);
      assert AddFragment(st, f).frags == grown[k := Some(f.data)];
    }
  }

  /** Fragments of one message arriving in the order of `ks`. */
  function Arrive(cut: seq<Fragment>, ks: seq<nat>): InState
    requires forall i :: 0 <= i < |ks| ==> ks[i] < |cut|
  {
    if ks == [] then EMPTY else AddFragment(Arrive(cut, ks[..|ks| - 1]), cut[ks[|ks| - 1]])
  }

  ghost function Elements(ks: seq<nat>): set<nat> { set k | k in ks }

  lemma ElementsLast(ks: seq<nat>)
    requires ks != []
    ensures Elements(ks) == Elements(ks[..|ks| - 1]) + {ks[|ks| - 1]}
  {
    assert ks == ks[..|ks| - 1] + [ks[|ks| - 1]];
  }

  /** Any order, any repetition: the state is the one for the set of arrivals. */
  lemma {:induction false} ArrivalOrderIrrelevant(cut: seq<Fragment>, ks: seq<nat>)
    requires Numbered(cut) && forall i :: 0 <= i < |ks| ==> ks[i] < |cut|
    ensures Knows(Arrive(cut, ks), cut, Elements(ks))
  {
    if ks == [] {
      KnowsNothing(cut);
      assert Elements(ks) == {};
    } else {
      var m := |ks| - 1;
      ArrivalOrderIrrelevant(cut, ks[..m]);
      KnowsOneMore(Arrive(cut, ks[..m]), cut, Elements(ks[..m]), ks[m]);
      ElementsLast(ks);
    }
  }

  ghost predicate Whole(cut: seq<Fragment>, got: set<nat>) {
    forall k :: 0 <= k < |cut| ==> k in got
  }

  /** `allFragmentsReceived` holds exactly when every fragment was seen. */
  lemma CompleteIffWhole(st: InState, cut: seq<Fragment>, got: set<nat>)
    requires cut != [] && Knows(st, cut, got)
    ensures AllReceived(st) <==> Whole(cut, got)
  {
    if AllReceived(st) {
      assert |cut| - 1 in got;
      assert |st.frags| == |cut|;
    }
    if Whole(cut, got) {
      assert |cut| - 1 in got;
    }
  }

  lemma {:induction false} StoredIsJoined(frags: Slots, cut: seq<Fragment>)
    requires |frags| == |cut| && forall i :: 0 <= i < |frags| ==> frags[i] == Some(cut[i].data)
    ensures Stored(frags) == Joined(cut)
  {
    if cut != [] {
      StoredIsJoined(frags[..|cut| - 1], cut[..|cut| - 1]);
    }
  }

  lemma KnowsMeans(st: InState, cut: seq<Fragment>, got: set<nat>)
    requires cut != [] && Knows(st, cut, got)
    ensures AllReceived(st) <==> Whole(cut, got)
    ensures AllReceived(st) ==> Stored(st.frags) == Joined(cut)
    ensures st.byteTotal == |Stored(st.frags)|
  {
    CompleteIffWhole(st, cut, got);
    if AllReceived(st) {
      assert |st.frags| == |cut|;
      StoredIsJoined(st.frags, cut);
    }
  }

  // -------------------------------------------------- the fragments of a message

  /** Messages whose last fragment is flagged last and whose fragment numbers fit
      the seven bits of the wire. */
  predicate Deliverable(data: seq<byte>) {
    |data| % 1120 != 0 && |data| < 128 * 1120
  }

  lemma FragmentIsNumbered(id: uint32, data: seq<byte>, k: nat)
    requires Deliverable(data) && k < FragmentCount(|data|)
    ensures FragmentAt(id, data, k).fragNum == k
    ensures FragmentAt(id, data, k).isLast <==> k == FragmentCount(|data|) - 1
    ensures FragmentAt(id, data, k).msgId == id && |FragmentAt(id, data, k).data| <= 1120
  {
  }

  lemma CutIsNumbered(id: uint32, data: seq<byte>)
    requires Deliverable(data)
    ensures Numbered(Cut(id, data))
    ensures forall k :: 0 <= k < |Cut(id, data)| ==>
              Cut(id, data)[k].msgId == id && |Cut(id, data)[k].data| <= 1120
  {
    forall k | 0 <= k < FragmentCount(|data|) {
      FragmentIsNumbered(id, data, k);
    }
  }

  lemma {:induction false} JoinPrefix(id: uint32, data: seq<byte>, k: nat)
    requires k <= FragmentCount(|data|)
    ensures Joined(Cut(id, data)[..k]) == data[..Min(1120 * k, |data|)]
  {
    if k > 0 {
      JoinPrefix(id, data, k - 1);
      FragmentBounds(|data|, k - 1);
      var cut := Cut(id, data);
      assert cut[..k][..k - 1] == cut[..k - 1];
      TakeMore(data, 1120 * (k - 1), Min(1120 * k, |data|));
    }
  }

  /** The fragments put one after the other are the message. */
  lemma JoinedCut(id: uint32, data: seq<byte>)
    ensures Joined(Cut(id, data)) == data
  {
    var n := FragmentCount(|data|);
    JoinPrefix(id, data, n);
    assert Cut(id, data)[..n] == Cut(id, data);
    assert data[..|data|] == data;
  }

  /** SSU reassembly: for fragments of one message arriving in any order and any
      number of times, the message is complete exactly when all of them arrived, and
      then it is the message that was cut. */
  lemma {:induction false} Reassembly(id: uint32, data: seq<byte>, ks: seq<nat>)
    requires Deliverable(data) && forall i :: 0 <= i < |ks| ==> ks[i] < |Cut(id, data)|
    ensures var st := Arrive(Cut(id, data), ks);
      && (AllReceived(st) <==> Whole(Cut(id, data), Elements(ks)))
      && (AllReceived(st) ==> Stored(st.frags) == data)
      && st.byteTotal == |Stored(st.frags)|
  {
    var cut := Cut(id, data);
    CutIsNumbered(id, data);
    JoinedCut(id, data);
    ArrivalOrderIrrelevant(cut, ks);
    KnowsMeans(Arrive(cut, ks), cut, Elements(ks));
  }

  // ------------------------------------- which messages can be delivered at all

  /** The first k fragments, as they come off the wire, in order. */
  function InOrder(cut: seq<Fragment>, k: nat): InState
    requires k <= |cut|
  {
    if k == 0 then EMPTY else AddFragment(InOrder(cut, k - 1), OnWire(cut[k - 1]))
  }

  /** Without a last flag nothing completes. */
  lemma {:induction false} UnflaggedNeverLast(cut: seq<Fragment>, k: nat)
    requires k <= |cut| && forall i :: 0 <= i < |cut| ==> !cut[i].isLast
    ensures !InOrder(cut, k).gotLast
  {
    if k > 0 {
      UnflaggedNeverLast(cut, k - 1);
    }
  }

  predicate FullPrefix(st: InState, n: nat) {
    !st.gotLast && |st.frags| == n && forall i :: 0 <= i < n ==> st.frags[i].Some?
  }

  lemma NextSlot(st: InState, n: nat, f: Fragment)
    requires FullPrefix(st, n) && n < 128 && f.fragNum == n && !f.isLast
    ensures FullPrefix(AddFragment(st, f), n + 1)
  {
  }

  lemma Repeated(st: InState, n: nat, f: Fragment)
    requires FullPrefix(st, n) && f.fragNum < n && n <= 128
    ensures AddFragment(st, f) == st
  {
  }

  /** From the 129th fragment on the numbers repeat and are taken for duplicates,
      the one flagged last included. */
  lemma {:induction false} RepeatsNeverLast(cut: seq<Fragment>, k: nat)
    requires |cut| > 128 && k <= |cut|
    requires forall i :: 0 <= i < |cut| ==> cut[i].fragNum == i % 256 && (cut[i].isLast ==> i == |cut| - 1)
    ensures FullPrefix(InOrder(cut, k), Min(k, 128))
  {
    if k > 0 {
      RepeatsNeverLast(cut, k - 1);
      if k <= 128 {
        NextSlot(InOrder(cut, k - 1), k - 1, OnWire(cut[k - 1]));
      } else {
        Repeated(InOrder(cut, k - 1), 128, OnWire(cut[k - 1]));
      }
    }
  }

  ghost function Below(k: nat): (r: set<nat>)
    ensures forall i: nat :: i in r <==> i < k
  {
    if k == 0 then {} else Below(k - 1) + {k - 1}
  }

  lemma {:induction false} InOrderKnows(cut: seq<Fragment>, k: nat)
    requires Numbered(cut) && k <= |cut|
    ensures Knows(InOrder(cut, k), cut, Below(k))
  {
    if k == 0 {
      KnowsNothing(cut);
    } else {
      InOrderKnows(cut, k - 1);
      assert OnWire(cut[k - 1]) == cut[k - 1];
      KnowsOneMore(InOrder(cut, k - 1), cut, Below(k - 1), k - 1);
    }
  }

  lemma CutFlags(id: uint32, data: seq<byte>)
    ensures |data| % 1120 == 0 ==> forall i :: 0 <= i < |Cut(id, data)| ==> !Cut(id, data)[i].isLast
    ensures forall i :: 0 <= i < |Cut(id, data)| ==>
              Cut(id, data)[i].fragNum == i % 256 && (Cut(id, data)[i].isLast ==> i == |Cut(id, data)| - 1)
  {
    forall i | 0 <= i < FragmentCount(|data|)
      ensures |data| % 1120 == 0 ==> !FragmentAt(id, data, i).isLast
      ensures FragmentAt(id, data, i).isLast ==> i == FragmentCount(|data|) - 1
    {
      FragmentBounds(|data|, i);
    }
  }

  /** A message whose fragments all arrive in order is received as it was sent if
      and only if its length is not a multiple of 1120 and below 128 * 1120. */
  lemma {:induction false} DeliveredIffDeliverable(id: uint32, data: seq<byte>)
    ensures var st := InOrder(Cut(id, data), |Cut(id, data)|);
            AllReceived(st) && Stored(st.frags) == data <==> Deliverable(data)
  {
    var cut := Cut(id, data);
    CutFlags(id, data);
    if |data| % 1120 == 0 {
      UnflaggedNeverLast(cut, |cut|);
    } else if |data| >= 128 * 1120 {
      RepeatsNeverLast(cut, |cut|);
    } else {
      CutIsNumbered(id, data);
      JoinedCut(id, data);
      InOrderKnows(cut, |cut|);
      KnowsMeans(InOrder(cut, |cut|), cut, Below(|cut|));
    }
  }

  // ------------------------------------- whatever completes, in any order of arrival

  /** The fragments as they come off the wire. */
  function Wired(cut: seq<Fragment>): (r: seq<Fragment>)
    ensures |r| == |cut| && forall i :: 0 <= i < |cut| ==> r[i] == OnWire(cut[i])
  {
    seq(|cut|, i requires 0 <= i < |cut| => OnWire(cut[i]))
  }

  lemma {:induction false} UnflaggedNeverCompletes(cut: seq<Fragment>, ks: seq<nat>)
    requires forall i :: 0 <= i < |ks| ==> ks[i] < |cut|
    requires forall i :: 0 <= i < |cut| ==> !cut[i].isLast
    ensures !Arrive(cut, ks).gotLast
  {
    if ks != [] {
      UnflaggedNeverCompletes(cut, ks[..|ks| - 1]);
    }
  }

  /** No slot holds more than a fragment. */
  predicate Slim(frags: Slots) {
    forall i :: 0 <= i < |frags| && frags[i].Some? ==> |frags[i].value| <= 1120
  }

  lemma {:induction false} SlimStored(frags: Slots)
    requires Slim(frags)
    ensures |Stored(frags)| <= 1120 * |frags|
  {
    if frags != [] {
      SlimStored(frags[..|frags| - 1]);
    }
  }

  lemma AddSlim(st: InState, f: Fragment)
    requires Slim(st.frags) && |f.data| <= 1120
    ensures Slim(AddFragment(st, f).frags)
  {
  }

  function UpTo(k: nat): (r: seq<nat>)
    ensures |r| == k && forall i :: 0 <= i < k ==> r[i] == i
  {
    seq(k, i requires 0 <= i < k => i)
  }

  lemma {:induction false} PrefixArrives(cut: seq<Fragment>, k: nat)
    requires k <= |cut| && k <= 128
    requires forall i :: 0 <= i < k ==> cut[i].fragNum == i && !cut[i].isLast && |cut[i].data| <= 1120
    ensures FullPrefix(Arrive(cut, UpTo(k)), k) && Slim(Arrive(cut, UpTo(k)).frags)
  {
    if k > 0 {
      PrefixArrives(cut, k - 1);
      assert UpTo(k)[..k - 1] == UpTo(k - 1);
      NextSlot(Arrive(cut, UpTo(k - 1)), k - 1, cut[k - 1]);
      AddSlim(Arrive(cut, UpTo(k - 1)), cut[k - 1]);
    }
  }

  /** A flagged fragment behind a full prefix completes the message. */
  lemma EndsPrefix(st: InState, n: nat, f: Fragment)
    requires FullPrefix(st, n) && n < 128 && f.fragNum == n && f.isLast
    ensures AllReceived(AddFragment(st, f)) && |AddFragment(st, f).frags| == n + 1
  {
  }

  lemma {:induction false} ShortCompletion(cut: seq<Fragment>, m: nat) returns (ks: seq<nat>)
    requires m < 128 && m < |cut|
    requires forall i :: 0 <= i < m ==> cut[i].fragNum == i && !cut[i].isLast
    requires forall i :: 0 <= i < |cut| ==> |cut[i].data| <= 1120
    requires cut[|cut| - 1].fragNum == m && cut[|cut| - 1].isLast
    ensures forall i :: 0 <= i < |ks| ==> ks[i] < |cut|
    ensures AllReceived(Arrive(cut, ks)) && |Stored(Arrive(cut, ks).frags)| <= 128 * 1120
  {
    var n := |cut| - 1;
    ks := UpTo(m) + [n];
    assert ks[..m] == UpTo(m);
    var st := Arrive(cut, UpTo(m));
    PrefixArrives(cut, m);
    EndsPrefix(st, m, cut[n]);
    AddSlim(st, cut[n]);
    SlimStored(AddFragment(st, cut[n]).frags);
  }

  lemma LowBits(i: nat)
    ensures (i % 256) % 128 == i % 128
  {
  }

  /** Only a fragment that is not full is flagged, and only the last can be that. */
  lemma FlaggedIffShort(length: nat, i: nat)
    requires i < FragmentCount(length)
    ensures Min(1120 * i + 1120, length) - 1120 * i < 1120 <==> i == FragmentCount(length) - 1 && length % 1120 != 0
  {
    FragmentBounds(length, i);
  }

  lemma WiredAt(id: uint32, data: seq<byte>, i: nat)
    requires i < FragmentCount(|data|)
    ensures var f := Wired(Cut(id, data))[i];
      && f.fragNum == i % 128 && |f.data| <= 1120
      && (f.isLast <==> i == FragmentCount(|data|) - 1 && |data| % 1120 != 0)
  {
    FragmentBounds(|data|, i);
    LowBits(i);
    FlaggedIffShort(|data|, i);
  }

  /** The number of the last fragment, in seven bits. */
  lemma LastNumber(id: uint32, data: seq<byte>)
    requires FragmentCount(|data|) > 128 && |data| % 1120 != 0
    ensures var cut, m := Wired(Cut(id, data)), (FragmentCount(|data|) - 1) % 128;
      && cut[|cut| - 1].fragNum == m && cut[|cut| - 1].isLast
      && (forall i :: 0 <= i < m ==> cut[i].fragNum == i && !cut[i].isLast)
      && (forall i :: 0 <= i < |cut| ==> |cut[i].data| <= 1120)
  {
    forall i | 0 <= i < FragmentCount(|data|)
      ensures var f := Wired(Cut(id, data))[i];
        && f.fragNum == i % 128 && |f.data| <= 1120
        && (f.isLast <==> i == FragmentCount(|data|) - 1)
    {
      WiredAt(id, data, i);
    }
  }

  /** However the fragments of `data` arrive, what the receiver takes for complete is `data`. */
  ghost predicate OnlyCompletesAs(id: uint32, data: seq<byte>) {
    forall ks: seq<nat> | (forall i :: 0 <= i < |ks| ==> ks[i] < FragmentCount(|data|)) ::
      var st := Arrive(Wired(Cut(id, data)), ks);
      AllReceived(st) ==> Stored(st.frags) == data
  }

  /** In any order of arrival, complete or not: what completes is the message that was sent,
      if and only if it has at most 128 fragments or no fragment is flagged last at all. */
  lemma {:induction false} CompletesIffNumbered(id: uint32, data: seq<byte>)
    ensures OnlyCompletesAs(id, data) <==> FragmentCount(|data|) <= 128 || |data| % 1120 == 0
  {
    var cut := Cut(id, data);
    if |data| % 1120 == 0 {
      CutFlags(id, data);
      forall ks: seq<nat> | forall i :: 0 <= i < |ks| ==> ks[i] < |cut| ensures !AllReceived(Arrive(Wired(cut), ks)) {
        UnflaggedNeverCompletes(Wired(cut), ks);
      }
    } else if |cut| <= 128 {
      CutIsNumbered(id, data);
      assert Wired(cut) == cut;
      forall ks: seq<nat> | forall i :: 0 <= i < |ks| ==> ks[i] < |cut|
        ensures AllReceived(Arrive(cut, ks)) ==> Stored(Arrive(cut, ks).frags) == data
      {
        Reassembly(id, data, ks);
      }
    } else {
      LastNumber(id, data);
      var ks := ShortCompletion(Wired(cut), (|cut| - 1) % 128);
      assert Stored(Arrive(Wired(cut), ks).frags) != data;
    }
  }
}
