/** Putting tunnel messages together at an endpoint: `FragmentState` and
    `FragmentHandler`. */
module TunnelReassembly {
  import opened Bytes
  import opened BuildRecords
  import opened TunnelFragments

  // ---------------------------------------------------------------- one message

  datatype Head = Head(delivery: Delivery, fragmented: bool, payload: seq<byte>)

  /** A stored follow-on fragment. */
  datatype Piece = Piece(num: byte, payload: seq<byte>)

  datatype FragState = FragState(lastFragNum: byte, first: Option<Head>, follow: seq<Piece>)

  const EMPTY: FragState := FragState(0, None, [])

  function SetFirst(st: FragState, h: Head): Result<FragState> {
    if st.first.Some? then Err(Duplicate) else Ok(st.(first := Some(h)))
  }

  predicate Has(follow: seq<Piece>, num: byte) {
    exists i :: 0 <= i < |follow| && follow[i].num == num
  }

  /** `addFollowOnFragment`: a second last fragment throws, a known number is kept out. */
  function AddFollowOn(st: FragState, p: Piece, isLast: bool): Result<FragState> {
    if isLast && st.lastFragNum != 0 then Err(Duplicate)
    else Ok(FragState(if isLast then p.num else st.lastFragNum, st.first,
                      if Has(st.follow, p.num) then st.follow else st.follow + [p]))
  }

  predicate Complete(st: FragState) {
    && st.first.Some?
    && (st.first.value.fragmented ==> st.lastFragNum != 0 && |st.follow| == st.lastFragNum)
  }

  /** The order `std::list::sort` leaves the fragments in. */
  function Insert(p: Piece, s: seq<Piece>): seq<Piece> {
    if s == [] || p.num < s[0].num then [p] + s else [s[0]] + Insert(p, s[1..])
  }

  function Sort(s: seq<Piece>): seq<Piece> {
    if s == [] then [] else Insert(s[|s| - 1], Sort(s[..|s| - 1]))
  }

  function PayloadsOf(s: seq<Piece>): seq<byte> {
    if s == [] then [] else s[0].payload + PayloadsOf(s[1..])
  }

  /** `compile`. */
  function Assembled(st: FragState): seq<byte>
    requires st.first.Some?
  {
    st.first.value.payload + PayloadsOf(Sort(st.follow))
  }

  class FragmentState {
    var lastFragNum: byte
    var first: Option<Head>
    var follow: seq<Piece>

    function Value(): FragState
      reads this
    {
      FragState(lastFragNum, first, follow)
    }

    constructor (st: FragState)
      ensures Value() == st
    {
      lastFragNum, first, follow := st.lastFragNum, st.first, st.follow;
    }

    method SetFirstFragment(h: Head) returns (ok: bool)
      modifies this`first
      ensures ok <==> SetFirst(old(Value()), h).Ok?
      ensures Value() == if ok then SetFirst(old(Value()), h).value else old(Value())
    {
      ok := first.None?;
      if ok {
        first := Some(h);
      }
    }

    method AddFollowOnFragment(p: Piece, isLast: bool) returns (ok: bool)
      modifies this`lastFragNum, this`follow
      ensures ok <==> AddFollowOn(old(Value()), p, isLast).Ok?
      ensures Value() == if ok then AddFollowOn(old(Value()), p, isLast).value else old(Value())
    {
      if isLast {
        if lastFragNum != 0 {
          return false;
        }
        lastFragNum := p.num;
      }
      var known := false;
      for i := 0 to |follow|
        invariant known <==> exists j :: 0 <= j < i && follow[j].num == p.num
      {
        known := known || follow[i].num == p.num;
      }
      if !known {
        follow := follow + [p];
      }
      ok := true;
    }

    /** `compile`: the list is sorted in place. */
    method Compile() returns (data: seq<byte>)
      requires first.Some?
      modifies this`follow
      ensures data == Assembled(old(Value())) && Value() == old(Value()).(follow := Sort(old(follow)))
    {
      follow := Sort(follow);
      data := first.value.payload;
      var rest := follow;
      while rest != []
        invariant follow == Sort(old(follow))
        invariant data + PayloadsOf(rest) == first.value.payload + PayloadsOf(follow)
      {
        Assoc(data, rest[0].payload, PayloadsOf(rest[1..]));
        data := data + rest[0].payload;
        rest := rest[1..];
      }
      assert data + [] == data;
    }
  }

  // ---------------------------------------------------------------- the handler

  /** A message handed on: wrapped for a tunnel, whose id and router are missing when the
      delivery instructions had none, or as an I2NP message for a router. */
  datatype Sent =
    | ForTunnel(router: Option<Bytes32>, tunnelId: Option<uint32>, payload: seq<byte>)
    | ForRouter(hash: Bytes32, msgId: uint32, payload: seq<byte>)

  datatype Handler = Handler(states: map<uint32, FragState>, sent: seq<Sent>)

  /** How a call ends, and what it leaves behind either way. */
  datatype Outcome = Done(h: Handler) | Thrown(h: Handler)

  /** Whether `I2NP::Message::fromBytes` makes a message of the bytes. */
  type Parses = (uint32, seq<byte>) -> bool

  const ZERO: uint32 := Word(0, 0, 0, 0)

  function Lookup(states: map<uint32, FragState>, id: uint32): FragState {
    if id in states then states[id] else EMPTY
  }

  /** What the delivery instructions ask for. */
  function Dispatched(d: Delivery, id: uint32, payload: seq<byte>): seq<Sent> {
    match d
    case ToTunnel(tunnelId, hash) => [ForTunnel(Some(hash), Some(tunnelId), payload)]
    case ToRouter(hash) => [ForRouter(hash, id, payload)]
    case Local => []
  }

  /** A message that was not cut goes out as a `TunnelGateway` message whatever the
      delivery mode; outside tunnel mode its tunnel id was never set. */
  function Uncut(d: Delivery, payload: seq<byte>): Sent {
    match d
    case ToTunnel(tunnelId, hash) => ForTunnel(Some(hash), Some(tunnelId), payload)
    case ToRouter(hash) => ForTunnel(Some(hash), None, payload)
    case Local => ForTunnel(None, None, payload)
  }

  predicate Unreadable(parses: Parses, d: Delivery, id: uint32, payload: seq<byte>) {
    d.ToRouter? && !parses(id, payload)
  }

  /** `checkAndFlush`: looking at `m_states[msgId]` creates the entry.  A message for a
      router that cannot be parsed throws; its state stays, with the list sorted. */
  function Flush(parses: Parses, h: Handler, id: uint32): Outcome {
    var st := Lookup(h.states, id);
    if !Complete(st) then Done(Handler(h.states[id := st], h.sent))
    else if Unreadable(parses, st.first.value.delivery, id, Assembled(st))
    then Thrown(Handler(h.states[id := st.(follow := Sort(st.follow))], h.sent))
    else Done(Handler(h.states - {id}, h.sent + Dispatched(st.first.value.delivery, id, Assembled(st))))
  }

  /** Store what an operation on the state of a message gave, and flush; if it threw,
      nothing has changed. */
  function Store(parses: Parses, h: Handler, id: uint32, r: Result<FragState>): Outcome {
    match r
    case Err(_) => Thrown(h)
    case Ok(st) => Flush(parses, h.(states := h.states[id := st]), id)
  }

  /** One round of the loop in `receiveFragments`. */
  function OnFragment(parses: Parses, h: Handler, f: Fragment): Outcome {
    match f
    case First(d, None, payload) => Flush(parses, h.(sent := h.sent + [Uncut(d, payload)]), ZERO)
    case First(d, Some(id), payload) => Store(parses, h, id, SetFirst(Lookup(h.states, id), Head(d, true, payload)))
    case FollowOn(id, n, last, payload) =>
      Store(parses, h, id, AddFollowOn(Lookup(h.states, id), Piece(n, payload), last))
  }

  /** The fragments up to the first that throws. */
  function OnFragments(parses: Parses, h: Handler, fs: seq<Fragment>): Outcome
    decreases fs
  {
    if fs == [] then Done(h)
    else
      var o := OnFragment(parses, h, fs[0]);
      if o.Thrown? then o else OnFragments(parses, o.h, fs[1..])
  }

  /** How fragments are spread over tunnel messages makes no difference until one throws. */
  lemma {:induction false} BatchesIrrelevant(parses: Parses, h: Handler, a: seq<Fragment>, b: seq<Fragment>)
    ensures var o := OnFragments(parses, h, a);
      OnFragments(parses, h, a + b) == if o.Thrown? then o else OnFragments(parses, o.h, b)
    decreases a
  {
    if a == [] {
      assert a + b == b;
    } else {
      assert (a + b)[0] == a[0] && (a + b)[1..] == a[1..] + b;
      if OnFragment(parses, h, a[0]).Done? {
        BatchesIrrelevant(parses, OnFragment(parses, h, a[0]).h, a[1..], b);
      }
    }
  }

  method StoreFirst(st: FragState, h: Head) returns (r: Result<FragState>)
    ensures r == SetFirst(st, h)
  {
    var s := new FragmentState(st);
    var ok := s.SetFirstFragment(h);
    r := if ok then Ok(s.Value()) else Err(Duplicate);
  }

  method StoreFollowOn(st: FragState, p: Piece, isLast: bool) returns (r: Result<FragState>)
    ensures r == AddFollowOn(st, p, isLast)
  {
    var s := new FragmentState(st);
    var ok := s.AddFollowOnFragment(p, isLast);
    r := if ok then Ok(s.Value()) else Err(Duplicate);
  }

  method Assemble(st: FragState) returns (st': FragState, data: seq<byte>)
    requires st.first.Some?
    ensures data == Assembled(st) && st' == st.(follow := Sort(st.follow))
  {
    var s := new FragmentState(st);
    data := s.Compile();
    st' := s.Value();
  }

  class FragmentHandler {
    const parses: Parses
    var states: map<uint32, FragState>
    var sent: seq<Sent>

    function Value(): Handler
      reads this
    {
      Handler(states, sent)
    }

    constructor (parses: Parses)
      ensures Value() == Handler(map[], []) && this.parses == parses
    {
      this.parses := parses;
      states, sent := map[], [];
    }

    /** False when it throws. */
    method CheckAndFlush(id: uint32) returns (ok: bool)
      modifies this
      ensures Flush(parses, old(Value()), id) == if ok then Done(Value()) else Thrown(Value())
    {
      var st := Lookup(states, id);
      if !Complete(st) {
        states := states[id := st];
        return true;
      }
      var st', data := Assemble(st);
      var delivery := st.first.value.delivery;
      if delivery.ToRouter? && !parses(id, data) {
        states := states[id := st'];
        return false;
      }
      sent := sent + Dispatched(delivery, id, data);
      states := states - {id};
      ok := true;
    }

    method StoreAndFlush(id: uint32, r: Result<FragState>) returns (ok: bool)
      modifies this
      ensures Store(parses, old(Value()), id, r) == if ok then Done(Value()) else Thrown(Value())
    {
      if r.Err? {
        return false;
      }
      states := states[id := r.value];
      ok := CheckAndFlush(id);
    }

    method ReceiveFragment(f: Fragment) returns (ok: bool)
      modifies this
      ensures OnFragment(parses, old(Value()), f) == if ok then Done(Value()) else Thrown(Value())
    {
      match f
      case First(d, None, payload) =>
        sent := sent + [Uncut(d, payload)];
        ok := CheckAndFlush(ZERO);
      case First(d, Some(id), payload) =>
        var st := StoreFirst(Lookup(states, id), Head(d, true, payload));
        ok := StoreAndFlush(id, st);
      case FollowOn(id, n, last, payload) =>
        var st := StoreFollowOn(Lookup(states, id), Piece(n, payload), last);
        ok := StoreAndFlush(id, st);
    }

    /** `receiveFragments`; false when it throws, which loses the rest of the list. */
    method ReceiveFragments(fs: seq<Fragment>) returns (ok: bool)
      modifies this
      ensures OnFragments(parses, old(Value()), fs) == if ok then Done(Value()) else Thrown(Value())
    {
      var rest := fs;
      while rest != []
        invariant OnFragments(parses, Value(), rest) == OnFragments(parses, old(Value()), fs)
        decreases rest
      {
        var good := ReceiveFragment(rest[0]);
        if !good {
          return false;
        }
        rest := rest[1..];
      }
      ok := true;
    }

    method TimerCallback(id: uint32)
      modifies this`states
      ensures states == old(states) - {id}
    {
      states := states - {id};
    }
  }

  // ------------------------------------------------------------------ sorting

  predicate Ordered(s: seq<Piece>) {
    forall i, j :: 0 <= i < j < |s| ==> s[i].num < s[j].num
  }

  predicate Distinct(s: seq<Piece>) {
    forall i, j :: 0 <= i < j < |s| ==> s[i].num != s[j].num
  }

  ghost predicate SameElements(a: seq<Piece>, b: seq<Piece>) {
    |a| == |b| && forall p :: p in a <==> p in b
  }

  lemma {:induction false} InsertSpec(p: Piece, s: seq<Piece>)
    requires Ordered(s) && !Has(s, p.num)
    ensures Ordered(Insert(p, s)) && SameElements(Insert(p, s), [p] + s)
  {
    if s != [] && p.num >= s[0].num {
      assert s[0].num < p.num;
      forall i | 0 <= i < |s[1..]| ensures s[1..][i].num != p.num {
        assert s[i + 1].num != p.num;
      }
      InsertSpec(p, s[1..]);
      var t := Insert(p, s[1..]);
      InsertHead(s[0], t, p, s[1..]);
      assert s == [s[0]] + s[1..];
    }
  }

  lemma InsertHead(h: Piece, t: seq<Piece>, p: Piece, s: seq<Piece>)
    requires Ordered(t) && SameElements(t, [p] + s) && h.num < p.num
    requires forall i :: 0 <= i < |s| ==> h.num < s[i].num
    ensures Ordered([h] + t) && SameElements([h] + t, [p] + ([h] + s))
  {
    forall j | 0 <= j < |t| ensures h.num < t[j].num {
      assert t[j] in [p] + s;
    }
  }

  lemma {:induction false} SortSpec(s: seq<Piece>)
    requires Distinct(s)
    ensures Ordered(Sort(s)) && SameElements(Sort(s), s)
  {
    if s != [] {
      var n := |s| - 1;
      var a, p := s[..n], s[n];
      SortSpec(a);
      forall i | 0 <= i < |Sort(a)| ensures Sort(a)[i].num != p.num {
        assert Sort(a)[i] in a;
      }
      InsertSpec(p, Sort(a));
      assert s == a + [p];
    }
  }

  /** n different numbers out of 1..n, in order, are 1, 2, ..., n. */
  lemma {:induction false} OrderedLow(s: seq<Piece>, i: nat)
    requires Ordered(s) && i < |s| && forall j :: 0 <= j < |s| ==> 1 <= s[j].num
    ensures s[i].num >= i + 1
  {
    if i > 0 {
      OrderedLow(s, i - 1);
    }
  }

  lemma {:induction false} OrderedHigh(s: seq<Piece>, n: nat, i: nat)
    requires Ordered(s) && i < |s| && forall j :: 0 <= j < |s| ==> s[j].num <= n
    ensures s[i].num + (|s| - 1 - i) <= n
    decreases |s| - i
  {
    if i < |s| - 1 {
      OrderedHigh(s, n, i + 1);
    }
  }

  // -------------------------------------------------- what is known of a message

  /** A message cut into a first fragment and follow-ons 1..n, n <= 63. */
  datatype Msg = Msg(delivery: Delivery, pieces: seq<seq<byte>>)

  predicate Cut(m: Msg) {
    2 <= |m.pieces| <= 64
  }

  function FragmentOf(id: uint32, m: Msg, k: nat): Fragment
    requires Cut(m) && k < |m.pieces|
  {
    if k == 0 then First(m.delivery, Some(id), m.pieces[0])
    else FollowOn(id, k, k == |m.pieces| - 1, m.pieces[k])
  }

  ghost function Nums(follow: seq<Piece>): set<nat> {
    set p | p in follow :: p.num as nat
  }

  /** The state once exactly the fragments of `got` have arrived. */
  ghost predicate Knows(st: FragState, m: Msg, got: set<nat>) {
    && Cut(m) && (forall k :: k in got ==> k < |m.pieces|)
    && st.first == (if 0 in got then Some(Head(m.delivery, true, m.pieces[0])) else None)
    && st.lastFragNum == (if |m.pieces| - 1 in got then |m.pieces| - 1 else 0)
    && Distinct(st.follow) && Nums(st.follow) == got - {0}
    && forall i :: 0 <= i < |st.follow| ==>
         st.follow[i].num < |m.pieces| && st.follow[i].payload == m.pieces[st.follow[i].num]
  }

  ghost predicate Full(m: Msg, got: set<nat>) {
    forall k :: 0 <= k < |m.pieces| ==> k in got
  }

  lemma KnowsNothing(m: Msg)
    requires Cut(m)
    ensures Knows(EMPTY, m, {})
  {
  }

  lemma KnowsFirst(st: FragState, m: Msg, got: set<nat>)
    requires Knows(st, m, got) && 0 !in got
    ensures var r := SetFirst(st, Head(m.delivery, true, m.pieces[0]));
      r.Ok? && Knows(r.value, m, got + {0})
  {
    assert got + {0} - {0} == got - {0};
  }

  lemma NewNumber(follow: seq<Piece>, p: Piece)
    requires Distinct(follow) && p.num as nat !in Nums(follow)
    ensures !Has(follow, p.num) && Distinct(follow + [p]) && Nums(follow + [p]) == Nums(follow) + {p.num as nat}
  {
    forall i | 0 <= i < |follow| ensures follow[i].num != p.num {
      assert follow[i] in follow;
    }
    var more := follow + [p];
    assert forall q :: q in more <==> q in follow || q == p;
  }

  lemma KnowsFollowOn(st: FragState, m: Msg, got: set<nat>, k: nat)
    requires Knows(st, m, got) && 0 < k < |m.pieces| && k !in got
    ensures var r := AddFollowOn(st, Piece(k, m.pieces[k]), k == |m.pieces| - 1);
      r.Ok? && Knows(r.value, m, got + {k})
  {
    NewNumber(st.follow, Piece(k, m.pieces[k]));
    assert got + {k} - {0} == got - {0} + {k};
  }

  // ------------------------------------------------------------- completeness

  ghost function UpTo(n: nat): (r: set<nat>)
    ensures |r| == n && forall k: nat :: k in r <==> 1 <= k <= n
  {
    if n == 0 then {} else UpTo(n - 1) + {n}
  }

  lemma {:induction false} NumsCount(follow: seq<Piece>)
    requires Distinct(follow)
    ensures |Nums(follow)| == |follow|
  {
    if follow != [] {
      var n := |follow| - 1;
      var a, p := follow[..n], follow[n];
      NumsCount(a);
      assert follow == a + [p];
      assert p.num as nat !in Nums(a);
      NewNumber(a, p);
    } else {
      assert Nums(follow) == {};
    }
  }

  lemma {:induction false} SubsetFull(a: set<nat>, b: set<nat>)
    requires a <= b && |a| == |b|
    ensures a == b
  {
    if a != {} {
      var x :| x in a;
      SubsetFull(a - {x}, b - {x});
    }
  }

  lemma CountFull(got: set<nat>, n: nat, all: set<nat>)
    requires |all| == n && forall k: nat :: k in all <==> 1 <= k <= n
    requires forall k :: k in got ==> k <= n
    ensures |got - {0}| == n <==> forall k :: 1 <= k <= n ==> k in got
  {
    assert got - {0} <= all;
    if |got - {0}| == n {
      SubsetFull(got - {0}, all);
      forall k: int | 1 <= k <= n ensures k in got {
        var m: nat := k;
        assert m in all;
      }
    }
    if forall k :: 1 <= k <= n ==> k in got {
      assert got - {0} == all;
    }
  }

  /** `isComplete` holds exactly when every fragment has arrived. */
  lemma CompleteIffFull(st: FragState, m: Msg, got: set<nat>)
    requires Knows(st, m, got)
    ensures Complete(st) <==> Full(m, got)
  {
    var n := |m.pieces| - 1;
    NumsCount(st.follow);
    CountFull(got, n, UpTo(n));
    assert Full(m, got) <==> 0 in got && forall k :: 1 <= k <= n ==> k in got;
  }

  lemma {:induction false} PayloadsInOrder(s: seq<Piece>, pieces: seq<seq<byte>>)
    requires |s| == |pieces| && forall i :: 0 <= i < |s| ==> s[i].payload == pieces[i]
    ensures PayloadsOf(s) == Concat(pieces)
  {
    if s != [] {
      PayloadsInOrder(s[1..], pieces[1..]);
    }
  }

  lemma SortedPiece(s: seq<Piece>, m: Msg, i: nat)
    requires Cut(m) && Ordered(s) && |s| == |m.pieces| - 1 && i < |s|
    requires forall j :: 0 <= j < |s| ==> 1 <= s[j].num <= |m.pieces| - 1 && s[j].payload == m.pieces[s[j].num]
    ensures s[i].payload == m.pieces[1..][i]
  {
    OrderedLow(s, i);
    OrderedHigh(s, |m.pieces| - 1, i);
  }

  lemma SortedPieces(st: FragState, m: Msg, got: set<nat>)
    requires Knows(st, m, got) && |st.follow| == |m.pieces| - 1
    ensures PayloadsOf(Sort(st.follow)) == Concat(m.pieces[1..])
  {
    var s := Sort(st.follow);
    SortSpec(st.follow);
    forall j | 0 <= j < |s| ensures 1 <= s[j].num <= |m.pieces| - 1 && s[j].payload == m.pieces[s[j].num] {
      assert s[j] in st.follow;
      assert s[j].num as nat in Nums(st.follow);
    }
    forall i | 0 <= i < |s| ensures s[i].payload == m.pieces[1..][i] {
      SortedPiece(s, m, i);
    }
    PayloadsInOrder(s, m.pieces[1..]);
  }

  lemma FullAssembles(st: FragState, m: Msg, got: set<nat>)
    requires Knows(st, m, got) && Complete(st)
    ensures Assembled(st) == Concat(m.pieces)
    ensures st.first.value.delivery == m.delivery
  {
    SortedPieces(st, m, got);
  }

  // ---------------------------------------------------------- any interleaving

  /** A fragment of one of the messages, or a message that was not cut. */
  datatype Arrival = Part(id: uint32, k: nat) | Single(delivery: Delivery, payload: seq<byte>)

  type Messages = map<uint32, Msg>

  predicate Known(msgs: Messages, a: Arrival) {
    a.Part? ==> a.id in msgs && Cut(msgs[a.id]) && a.k < |msgs[a.id].pieces|
  }

  /** Fragments of the messages, in any order and any number of times. */
  predicate Arrivals(msgs: Messages, arr: seq<Arrival>) {
    && (forall id :: id in msgs ==> Cut(msgs[id]))
    && (forall i :: 0 <= i < |arr| ==> Known(msgs, arr[i]))
  }

  function OnWire(msgs: Messages, a: Arrival): Fragment
    requires Known(msgs, a)
  {
    match a
    case Part(id, k) => FragmentOf(id, msgs[id], k)
    case Single(d, payload) => First(d, None, payload)
  }

  function AllOnWire(msgs: Messages, arr: seq<Arrival>): (r: seq<Fragment>)
    requires forall i :: 0 <= i < |arr| ==> Known(msgs, arr[i])
    ensures |r| == |arr| && forall i :: 0 <= i < |arr| ==> r[i] == OnWire(msgs, arr[i])
  {
    seq(|arr|, i requires 0 <= i < |arr| => OnWire(msgs, arr[i]))
  }

  /** What is left to remember: nothing once a message is complete. */
  ghost function Rest(m: Msg, got: set<nat>): set<nat> {
    if Full(m, got) then {} else got
  }

  /** The fragments of a message that have arrived since it was last complete. */
  ghost function Window(m: Msg, id: uint32, arr: seq<Arrival>): set<nat> {
    if arr == [] then {}
    else
      var a, before := arr[|arr| - 1], Window(m, id, arr[..|arr| - 1]);
      if a.Part? && a.id == id then Rest(m, before + {a.k}) else before
  }

  /** The arrival makes its message complete. */
  ghost predicate Finishes(msgs: Messages, arr: seq<Arrival>, a: Arrival) {
    a.Part? && a.id in msgs && Full(msgs[a.id], Window(msgs[a.id], a.id, arr) + {a.k})
  }

  /** What is handed on: a message put together again, or one that was not cut. */
  datatype Item = Whole(id: uint32) | Alone(delivery: Delivery, payload: seq<byte>)

  ghost function Served(msgs: Messages, arr: seq<Arrival>): seq<Item> {
    if arr == [] then []
    else
      var a, before := arr[|arr| - 1], arr[..|arr| - 1];
      Served(msgs, before) + Serves(msgs, before, a)
  }

  /** A message with the arrival that completes it, one that was not cut at once. */
  ghost function Serves(msgs: Messages, arr: seq<Arrival>, a: Arrival): seq<Item> {
    match a
    case Single(d, payload) => [Alone(d, payload)]
    case Part(id, _) => if Finishes(msgs, arr, a) then [Whole(id)] else []
  }

  /** What delivery instructions ask for, field by field: for a tunnel, one message wrapped
      for that tunnel at that router; for a router, one I2NP message with that id to it; for
      local delivery none.  Either way with the whole payload. */
  ghost predicate Follows(out: seq<Sent>, d: Delivery, id: uint32, payload: seq<byte>) {
    && |out| == (if d.Local? then 0 else 1)
    && forall i :: 0 <= i < |out| ==>
         && out[i].payload == payload
         && (d.ToTunnel? ==> out[i].ForTunnel? && out[i].router == Some(d.hash) && out[i].tunnelId == Some(d.tunnelId))
         && (d.ToRouter? ==> out[i].ForRouter? && out[i].hash == d.hash && out[i].msgId == id)
  }

  lemma FollowsUnique(a: seq<Sent>, b: seq<Sent>, d: Delivery, id: uint32, payload: seq<byte>)
    requires Follows(a, d, id, payload) && Follows(b, d, id, payload)
    ensures a == b
  {
    if !d.Local? {
      assert a[0] == b[0];
    }
  }

  /** A message put together again, sent as its delivery instructions say. */
  ghost function Delivered(id: uint32, m: Msg): (out: seq<Sent>)
    ensures Follows(out, m.delivery, id, Concat(m.pieces))
  {
    AsAsked(m.delivery, id, Concat(m.pieces))
  }

  ghost function AsAsked(d: Delivery, id: uint32, payload: seq<byte>): (out: seq<Sent>)
    ensures Follows(out, d, id, payload)
  {
    if d.ToTunnel? then [ForTunnel(Some(d.hash), Some(d.tunnelId), payload)]
    else if d.ToRouter? then [ForRouter(d.hash, id, payload)] else []
  }

  ghost function Output(msgs: Messages, item: Item): (out: seq<Sent>)
    ensures item.Alone? ==>
      && |out| == 1 && out[0].ForTunnel? && out[0].payload == item.payload
      && out[0].router == (if item.delivery.Local? then None else Some(item.delivery.hash))
      && out[0].tunnelId == (if item.delivery.ToTunnel? then Some(item.delivery.tunnelId) else None)
  {
    match item
    case Whole(id) => if id in msgs then Delivered(id, msgs[id]) else []
    case Alone(d, payload) =>
      [ForTunnel(if d.Local? then None else Some(d.hash), if d.ToTunnel? then Some(d.tunnelId) else None, payload)]
  }

  lemma DispatchedFollows(d: Delivery, id: uint32, payload: seq<byte>)
    ensures Follows(Dispatched(d, id, payload), d, id, payload)
    ensures Dispatched(d, id, payload) == AsAsked(d, id, payload)
  {
    FollowsUnique(Dispatched(d, id, payload), AsAsked(d, id, payload), d, id, payload);
  }

  lemma UncutIs(msgs: Messages, d: Delivery, payload: seq<byte>)
    ensures [Uncut(d, payload)] == Output(msgs, Alone(d, payload))
  {
  }

  ghost function Outputs(msgs: Messages, items: seq<Item>): seq<Sent> {
    if items == [] then [] else Outputs(msgs, items[..|items| - 1]) + Output(msgs, items[|items| - 1])
  }

  lemma OutputsOne(msgs: Messages, items: seq<Item>, item: Item)
    ensures Outputs(msgs, items + [item]) == Outputs(msgs, items) + Output(msgs, item)
  {
    assert (items + [item])[..|items|] == items;
  }

  // ---- when the handler throws

  ghost predicate Unsendable(parses: Parses, id: uint32, m: Msg) {
    Unreadable(parses, m.delivery, id, Concat(m.pieces))
  }

  /** A second first or last fragment of a message that is not complete yet. */
  ghost predicate Repeats(msgs: Messages, arr: seq<Arrival>, a: Arrival) {
    && a.Part? && a.id in msgs && a.k in Window(msgs[a.id], a.id, arr)
    && (a.k == 0 || a.k == |msgs[a.id].pieces| - 1)
  }

  ghost predicate Throws(parses: Parses, msgs: Messages, arr: seq<Arrival>, a: Arrival) {
    Repeats(msgs, arr, a) || (Finishes(msgs, arr, a) && Unsendable(parses, a.id, msgs[a.id]))
  }

  ghost predicate ThrowsAt(parses: Parses, msgs: Messages, arr: seq<Arrival>, i: nat) {
    i < |arr| && Throws(parses, msgs, arr[..i], arr[i])
  }

  // ---- what the handler remembers

  ghost predicate AllRemembered(msgs: Messages, states: map<uint32, FragState>, arr: seq<Arrival>) {
    forall id :: id in msgs ==> Knows(Lookup(states, id), msgs[id], Window(msgs[id], id, arr))
  }

  /** Looking for the state of a message that was not cut leaves an empty one. */
  ghost predicate NoStrays(msgs: Messages, states: map<uint32, FragState>) {
    forall id :: id in states && id !in msgs ==> id == ZERO && states[id] == EMPTY
  }

  ghost predicate OnlyBegun(msgs: Messages, states: map<uint32, FragState>, arr: seq<Arrival>) {
    forall id :: id in states && id in msgs && id != ZERO ==> Window(msgs[id], id, arr) != {}
  }

  ghost predicate StatesOk(msgs: Messages, states: map<uint32, FragState>, arr: seq<Arrival>) {
    AllRemembered(msgs, states, arr) && NoStrays(msgs, states) && OnlyBegun(msgs, states, arr)
  }

  ghost predicate Handled(msgs: Messages, arr: seq<Arrival>, h: Handler) {
    h.sent == Outputs(msgs, Served(msgs, arr)) && StatesOk(msgs, h.states, arr)
  }

  lemma WindowMore(m: Msg, id: uint32, arr: seq<Arrival>, a: Arrival)
    ensures Window(m, id, arr + [a])
         == if a.Part? && a.id == id then Rest(m, Window(m, id, arr) + {a.k}) else Window(m, id, arr)
  {
    assert (arr + [a])[..|arr|] == arr;
  }

  lemma ServedMore(msgs: Messages, arr: seq<Arrival>, a: Arrival)
    ensures Served(msgs, arr + [a]) == Served(msgs, arr) + Serves(msgs, arr, a)
  {
    assert (arr + [a])[..|arr|] == arr;
  }

  lemma {:induction false} WindowOpen(m: Msg, id: uint32, arr: seq<Arrival>)
    requires Cut(m)
    ensures !Full(m, Window(m, id, arr))
  {
    if arr == [] {
      assert 0 !in Window(m, id, arr);
    } else {
      WindowOpen(m, id, arr[..|arr| - 1]);
      assert !Full(m, {}) by {
        var none: set<nat> := {};
        assert 0 !in none;
      }
    }
  }

  // ---- one arrival

  /** What a step may do to the state of one message. */
  ghost predicate OnlyThat(states: map<uint32, FragState>, states': map<uint32, FragState>, id: uint32) {
    forall j :: j != id ==> Lookup(states', j) == Lookup(states, j) && (j in states' <==> j in states)
  }

  /** What handling a fragment comes to when `got` has arrived of its message by then. */
  ghost predicate Becomes(h: Handler, m: Msg, got: set<nat>, id: uint32, h': Handler) {
    && Knows(Lookup(h'.states, id), m, Rest(m, got)) && OnlyThat(h.states, h'.states, id)
    && (id in h'.states ==> !Full(m, got))
    && h'.sent == h.sent + if Full(m, got) then Delivered(id, m) else []
  }

  /** What is left when it throws: nothing sent, and all that has arrived still known. */
  ghost predicate Stays(h: Handler, m: Msg, got: set<nat>, id: uint32, h': Handler) {
    h'.sent == h.sent && Knows(Lookup(h'.states, id), m, got) && OnlyThat(h.states, h'.states, id)
  }

  lemma NumsSorted(s: seq<Piece>)
    requires Distinct(s)
    ensures Distinct(Sort(s)) && Nums(Sort(s)) == Nums(s)
  {
    SortSpec(s);
  }

  lemma KnowsSorted(st: FragState, m: Msg, got: set<nat>)
    requires Knows(st, m, got)
    ensures Knows(st.(follow := Sort(st.follow)), m, got)
  {
    NumsSorted(st.follow);
    SortSpec(st.follow);
    forall i | 0 <= i < |Sort(st.follow)|
      ensures Sort(st.follow)[i].num < |m.pieces| && Sort(st.follow)[i].payload == m.pieces[Sort(st.follow)[i].num]
    {
      assert Sort(st.follow)[i] in st.follow;
    }
  }

  lemma FlushKnown(parses: Parses, h: Handler, m: Msg, got: set<nat>, id: uint32, st: FragState)
    requires Knows(st, m, got)
    ensures var o := Flush(parses, h.(states := h.states[id := st]), id);
      && (o.Thrown? <==> Full(m, got) && Unsendable(parses, id, m))
      && (o.Thrown? ==> Stays(h, m, got, id, o.h))
      && (o.Done? ==> Becomes(h, m, got, id, o.h))
  {
    CompleteIffFull(st, m, got);
    KnowsNothing(m);
    if Complete(st) {
      FullAssembles(st, m, got);
      KnowsSorted(st, m, got);
      DispatchedFollows(m.delivery, id, Concat(m.pieces));
    } else {
      assert h.sent + [] == h.sent;
    }
  }

  /** A fragment that is new. */
  lemma NewPart(parses: Parses, h: Handler, m: Msg, got: set<nat>, id: uint32, k: nat)
    requires Cut(m) && k < |m.pieces| && k !in got && Knows(Lookup(h.states, id), m, got)
    ensures var o := OnFragment(parses, h, FragmentOf(id, m, k));
      && (o.Thrown? <==> Full(m, got + {k}) && Unsendable(parses, id, m))
      && (o.Thrown? ==> Stays(h, m, got + {k}, id, o.h))
      && (o.Done? ==> Becomes(h, m, got + {k}, id, o.h))
  {
    var st := Lookup(h.states, id);
    var st' := if k == 0 then SetFirst(st, Head(m.delivery, true, m.pieces[0]))
               else AddFollowOn(st, Piece(k, m.pieces[k]), k == |m.pieces| - 1);
    if k == 0 {
      KnowsFirst(st, m, got);
    } else {
      KnowsFollowOn(st, m, got, k);
    }
    FlushKnown(parses, h, m, got + {k}, id, st'.value);
  }

  lemma HasKnown(follow: seq<Piece>, num: byte)
    requires num as nat in Nums(follow)
    ensures Has(follow, num)
  {
    var p :| p in follow && p.num == num;
    var i :| 0 <= i < |follow| && follow[i] == p;
  }

  /** A repeat of the first or the last throws; another is ignored. */
  lemma OldPart(parses: Parses, h: Handler, m: Msg, got: set<nat>, id: uint32, k: nat)
    requires Cut(m) && k < |m.pieces| && k in got && Knows(Lookup(h.states, id), m, got) && !Full(m, got)
    ensures var o := OnFragment(parses, h, FragmentOf(id, m, k));
      && (o.Thrown? <==> k == 0 || k == |m.pieces| - 1)
      && (o.Thrown? ==> Stays(h, m, got, id, o.h))
      && (o.Done? ==> Becomes(h, m, got, id, o.h))
  {
    var st := Lookup(h.states, id);
    if 0 < k < |m.pieces| - 1 {
      assert k in Nums(st.follow);
      HasKnown(st.follow, k);
      assert AddFollowOn(st, Piece(k, m.pieces[k]), false) == Ok(st);
      FlushKnown(parses, h, m, got, id, st);
    }
  }

  /** A message that was not cut leaves every state as it was, and is handed on as its
      delivery instructions say iff they name a tunnel. */
  lemma SingleStep(parses: Parses, h: Handler, d: Delivery, payload: seq<byte>)
    requires !Complete(Lookup(h.states, ZERO))
    ensures var o := OnFragment(parses, h, First(d, None, payload));
      && o.Done? && o.h.sent == h.sent + Output(map[], Alone(d, payload)) && ZERO in o.h.states
      && (forall j :: Lookup(o.h.states, j) == Lookup(h.states, j) && (j in o.h.states ==> j in h.states || j == ZERO))
      && (o.h.sent == h.sent + AsAsked(d, ZERO, payload) <==> d.ToTunnel?)
  {
    UncutIs(map[], d, payload);
    DispatchedFollows(d, ZERO, payload);
    DropPrefix(h.sent, [Uncut(d, payload)]);
    DropPrefix(h.sent, AsAsked(d, ZERO, payload));
  }

  lemma NoStraysKept(msgs: Messages, states: map<uint32, FragState>, states': map<uint32, FragState>, id: uint32)
    requires NoStrays(msgs, states) && OnlyThat(states, states', id) && id in msgs
    ensures NoStrays(msgs, states')
  {
    forall j | j in states' && j !in msgs ensures j == ZERO && states'[j] == EMPTY {
      assert Lookup(states', j) == Lookup(states, j);
    }
  }

  lemma PartRemembered(msgs: Messages, states: map<uint32, FragState>, arr: seq<Arrival>, a: Arrival,
                       states': map<uint32, FragState>)
    requires AllRemembered(msgs, states, arr) && a.Part? && a.id in msgs && OnlyThat(states, states', a.id)
    requires Knows(Lookup(states', a.id), msgs[a.id], Rest(msgs[a.id], Window(msgs[a.id], a.id, arr) + {a.k}))
    ensures AllRemembered(msgs, states', arr + [a])
  {
    forall id | id in msgs ensures Knows(Lookup(states', id), msgs[id], Window(msgs[id], id, arr + [a])) {
      WindowMore(msgs[id], id, arr, a);
    }
  }

  lemma PartBegun(msgs: Messages, states: map<uint32, FragState>, arr: seq<Arrival>, a: Arrival,
                  states': map<uint32, FragState>)
    requires OnlyBegun(msgs, states, arr) && a.Part? && a.id in msgs && OnlyThat(states, states', a.id)
    requires a.id in states' ==> !Full(msgs[a.id], Window(msgs[a.id], a.id, arr) + {a.k})
    ensures OnlyBegun(msgs, states', arr + [a])
  {
    forall id | id in states' && id in msgs && id != ZERO ensures Window(msgs[id], id, arr + [a]) != {} {
      WindowMore(msgs[id], id, arr, a);
      if id == a.id {
        assert a.k in Window(msgs[id], id, arr + [a]);
      }
    }
  }

  lemma PartKeeps(msgs: Messages, h: Handler, arr: seq<Arrival>, a: Arrival, h': Handler)
    requires StatesOk(msgs, h.states, arr) && a.Part? && a.id in msgs
    requires Becomes(h, msgs[a.id], Window(msgs[a.id], a.id, arr) + {a.k}, a.id, h')
    ensures StatesOk(msgs, h'.states, arr + [a])
  {
    PartRemembered(msgs, h.states, arr, a, h'.states);
    NoStraysKept(msgs, h.states, h'.states, a.id);
    PartBegun(msgs, h.states, arr, a, h'.states);
  }

  lemma PartSends(msgs: Messages, h: Handler, arr: seq<Arrival>, a: Arrival, h': Handler)
    requires h.sent == Outputs(msgs, Served(msgs, arr)) && a.Part? && a.id in msgs
    requires Becomes(h, msgs[a.id], Window(msgs[a.id], a.id, arr) + {a.k}, a.id, h')
    ensures h'.sent == Outputs(msgs, Served(msgs, arr + [a]))
  {
    ServedMore(msgs, arr, a);
    if Finishes(msgs, arr, a) {
      OutputsOne(msgs, Served(msgs, arr), Whole(a.id));
    } else {
      assert Served(msgs, arr) + [] == Served(msgs, arr) && h.sent + [] == h.sent;
    }
  }

  lemma SingleKeeps(msgs: Messages, h: Handler, arr: seq<Arrival>, a: Arrival, states: map<uint32, FragState>)
    requires StatesOk(msgs, h.states, arr) && a.Single?
    requires forall j :: Lookup(states, j) == Lookup(h.states, j) && (j in states ==> j in h.states || j == ZERO)
    ensures StatesOk(msgs, states, arr + [a])
  {
    forall id | id in msgs ensures Window(msgs[id], id, arr + [a]) == Window(msgs[id], id, arr) {
      WindowMore(msgs[id], id, arr, a);
    }
    forall id | id in states && id !in msgs ensures id == ZERO && states[id] == EMPTY {
      assert Lookup(states, id) == Lookup(h.states, id);
    }
  }

  lemma ZeroIncomplete(msgs: Messages, states: map<uint32, FragState>, arr: seq<Arrival>)
    requires StatesOk(msgs, states, arr) && forall id :: id in msgs ==> Cut(msgs[id])
    ensures !Complete(Lookup(states, ZERO))
  {
    if ZERO in msgs {
      WindowOpen(msgs[ZERO], ZERO, arr);
      CompleteIffFull(Lookup(states, ZERO), msgs[ZERO], Window(msgs[ZERO], ZERO, arr));
    }
  }

  lemma PartStep(parses: Parses, msgs: Messages, h: Handler, arr: seq<Arrival>, a: Arrival)
    requires Known(msgs, a) && a.Part? && AllRemembered(msgs, h.states, arr)
    ensures var o := OnFragment(parses, h, OnWire(msgs, a));
      && (o.Thrown? <==> Throws(parses, msgs, arr, a))
      && (o.Thrown? ==> Stays(h, msgs[a.id], Window(msgs[a.id], a.id, arr) + {a.k}, a.id, o.h))
      && (o.Done? ==> Becomes(h, msgs[a.id], Window(msgs[a.id], a.id, arr) + {a.k}, a.id, o.h))
  {
    var m := msgs[a.id];
    var got := Window(m, a.id, arr);
    WindowOpen(m, a.id, arr);
    if a.k in got {
      assert got + {a.k} == got;
      OldPart(parses, h, m, got, a.id, a.k);
    } else {
      NewPart(parses, h, m, got, a.id, a.k);
    }
  }

  lemma PartHandled(msgs: Messages, h: Handler, arr: seq<Arrival>, a: Arrival, h': Handler)
    requires Handled(msgs, arr, h) && a.Part? && a.id in msgs
    requires Becomes(h, msgs[a.id], Window(msgs[a.id], a.id, arr) + {a.k}, a.id, h')
    ensures Handled(msgs, arr + [a], h')
  {
    PartKeeps(msgs, h, arr, a, h');
    PartSends(msgs, h, arr, a, h');
  }

  /** What a throw on arrival of `a` leaves behind: what was sent before, and of every message
      the fragments that have arrived since it was last complete, `a` included. */
  ghost predicate Left(msgs: Messages, arr: seq<Arrival>, a: Arrival, h: Handler) {
    && a.Part? && h.sent == Outputs(msgs, Served(msgs, arr))
    && forall id :: id in msgs ==>
         Knows(Lookup(h.states, id), msgs[id],
               if id == a.id then Window(msgs[id], id, arr) + {a.k} else Window(msgs[id], id, arr))
  }

  lemma PartLeft(msgs: Messages, h: Handler, arr: seq<Arrival>, a: Arrival, h': Handler)
    requires Handled(msgs, arr, h) && a.Part? && a.id in msgs
    requires Stays(h, msgs[a.id], Window(msgs[a.id], a.id, arr) + {a.k}, a.id, h')
    ensures Left(msgs, arr, a, h')
  {
  }

  lemma PartArrival(parses: Parses, msgs: Messages, h: Handler, arr: seq<Arrival>, a: Arrival, o: Outcome)
    requires Known(msgs, a) && a.Part? && Handled(msgs, arr, h) && o == OnFragment(parses, h, OnWire(msgs, a))
    ensures o.Thrown? <==> Throws(parses, msgs, arr, a)
    ensures o.Thrown? ==> Left(msgs, arr, a, o.h)
    ensures o.Done? ==> Handled(msgs, arr + [a], o.h)
  {
    PartStep(parses, msgs, h, arr, a);
    if o.Done? {
      PartHandled(msgs, h, arr, a, o.h);
    } else {
      PartLeft(msgs, h, arr, a, o.h);
    }
  }

  lemma SingleHandled(msgs: Messages, h: Handler, arr: seq<Arrival>, a: Arrival, h': Handler)
    requires Handled(msgs, arr, h) && a.Single? && h'.sent == h.sent + Output(map[], Alone(a.delivery, a.payload))
    requires forall j :: Lookup(h'.states, j) == Lookup(h.states, j) && (j in h'.states ==> j in h.states || j == ZERO)
    ensures Handled(msgs, arr + [a], h')
  {
    SingleKeeps(msgs, h, arr, a, h'.states);
    ServedMore(msgs, arr, a);
    OutputsOne(msgs, Served(msgs, arr), Alone(a.delivery, a.payload));
  }

  lemma SingleArrival(parses: Parses, msgs: Messages, h: Handler, arr: seq<Arrival>, a: Arrival, o: Outcome)
    requires Arrivals(msgs, arr) && a.Single? && Handled(msgs, arr, h)
    requires o == OnFragment(parses, h, First(a.delivery, None, a.payload))
    ensures o.Done? && Handled(msgs, arr + [a], o.h)
  {
    ZeroIncomplete(msgs, h.states, arr);
    SingleStep(parses, h, a.delivery, a.payload);
    SingleHandled(msgs, h, arr, a, o.h);
  }

  /** One more arrival, for the handler and for what is expected of it. */
  lemma ArrivalStep(parses: Parses, msgs: Messages, h: Handler, arr: seq<Arrival>, a: Arrival, o: Outcome)
    requires Arrivals(msgs, arr) && Known(msgs, a) && Handled(msgs, arr, h)
    requires o == OnFragment(parses, h, OnWire(msgs, a))
    ensures o.Thrown? <==> Throws(parses, msgs, arr, a)
    ensures o.Thrown? ==> Left(msgs, arr, a, o.h)
    ensures o.Done? ==> Handled(msgs, arr + [a], o.h)
  {
    if a.Part? {
      PartArrival(parses, msgs, h, arr, a, o);
    } else {
      SingleArrival(parses, msgs, h, arr, a, o);
    }
  }

  // ---- whole runs

  lemma AllOnWireLast(msgs: Messages, arr: seq<Arrival>)
    requires arr != [] && forall i :: 0 <= i < |arr| ==> Known(msgs, arr[i])
    ensures AllOnWire(msgs, arr) == AllOnWire(msgs, arr[..|arr| - 1]) + [OnWire(msgs, arr[|arr| - 1])]
  {
  }

  lemma OneFragment(parses: Parses, h: Handler, f: Fragment)
    ensures OnFragments(parses, h, [f]) == OnFragment(parses, h, f)
  {
    assert [f][1..] == [];
  }

  lemma ArrivalsBefore(msgs: Messages, arr: seq<Arrival>)
    requires Arrivals(msgs, arr) && arr != []
    ensures Arrivals(msgs, arr[..|arr| - 1]) && Known(msgs, arr[|arr| - 1])
  {
  }

  lemma HandledNothing(msgs: Messages)
    requires forall id :: id in msgs ==> Cut(msgs[id])
    ensures Handled(msgs, [], Handler(map[], []))
  {
    forall id | id in msgs ensures Knows(EMPTY, msgs[id], Window(msgs[id], id, [])) {
      KnowsNothing(msgs[id]);
    }
  }

  /** The last arrival is handled last. */
  lemma LastArrival(parses: Parses, msgs: Messages, start: Handler, arr: seq<Arrival>)
    requires arr != [] && forall i :: 0 <= i < |arr| ==> Known(msgs, arr[i])
    ensures var o := OnFragments(parses, start, AllOnWire(msgs, arr[..|arr| - 1]));
      OnFragments(parses, start, AllOnWire(msgs, arr))
      == if o.Thrown? then o else OnFragment(parses, o.h, OnWire(msgs, arr[|arr| - 1]))
  {
    var n := |arr| - 1;
    var o := OnFragments(parses, start, AllOnWire(msgs, arr[..n]));
    AllOnWireLast(msgs, arr);
    BatchesIrrelevant(parses, start, AllOnWire(msgs, arr[..n]), [OnWire(msgs, arr[n])]);
    OneFragment(parses, o.h, OnWire(msgs, arr[n]));
  }

  /** The handler, given all fragments one after the other. */
  ghost function Outcomes(parses: Parses, msgs: Messages, arr: seq<Arrival>): Outcome
    requires forall i :: 0 <= i < |arr| ==> Known(msgs, arr[i])
  {
    OnFragments(parses, Handler(map[], []), AllOnWire(msgs, arr))
  }

  ghost predicate SomeThrow(parses: Parses, msgs: Messages, arr: seq<Arrival>) {
    exists i: nat :: ThrowsAt(parses, msgs, arr, i)
  }

  lemma ThrowMore(parses: Parses, msgs: Messages, arr: seq<Arrival>, a: Arrival)
    ensures SomeThrow(parses, msgs, arr + [a]) <==> SomeThrow(parses, msgs, arr) || Throws(parses, msgs, arr, a)
  {
    var n, all := |arr|, arr + [a];
    forall i: nat | i < n ensures ThrowsAt(parses, msgs, arr, i) <==> ThrowsAt(parses, msgs, all, i) {
      assert all[..i] == arr[..i] && all[i] == arr[i];
    }
    assert all[..n] == arr && all[n] == a;
    assert ThrowsAt(parses, msgs, all, n) <==> Throws(parses, msgs, arr, a);
  }

  /** The run ended with the throw on arrival i. */
  ghost predicate StoppedAt(parses: Parses, msgs: Messages, arr: seq<Arrival>, i: nat, h: Handler) {
    && ThrowsAt(parses, msgs, arr, i) && (forall j: nat :: j < i ==> !ThrowsAt(parses, msgs, arr, j))
    && Left(msgs, arr[..i], arr[i], h)
  }

  lemma StoppedMore(parses: Parses, msgs: Messages, arr: seq<Arrival>, a: Arrival, i: nat, h: Handler)
    requires StoppedAt(parses, msgs, arr, i, h)
    ensures StoppedAt(parses, msgs, arr + [a], i, h)
  {
    forall j: nat | j <= i ensures ThrowsAt(parses, msgs, arr + [a], j) <==> ThrowsAt(parses, msgs, arr, j) {
      assert (arr + [a])[..j] == arr[..j] && (arr + [a])[j] == arr[j];
    }
    assert (arr + [a])[..i] == arr[..i];
  }

  lemma StoppedNow(parses: Parses, msgs: Messages, arr: seq<Arrival>, a: Arrival, h: Handler)
    requires !SomeThrow(parses, msgs, arr) && Throws(parses, msgs, arr, a) && Left(msgs, arr, a, h)
    ensures StoppedAt(parses, msgs, arr + [a], |arr|, h)
  {
    var all := arr + [a];
    assert all[..|arr|] == arr && all[|arr|] == a;
    forall j: nat | j < |arr| ensures !ThrowsAt(parses, msgs, all, j) {
      assert all[..j] == arr[..j] && all[j] == arr[j];
      assert !ThrowsAt(parses, msgs, arr, j);
    }
  }

  lemma OneMoreArrival(parses: Parses, msgs: Messages, arr: seq<Arrival>, a: Arrival, o: Outcome, o': Outcome)
    requires Arrivals(msgs, arr) && Known(msgs, a) && Reassembled(parses, msgs, arr, o)
    requires o' == if o.Thrown? then o else OnFragment(parses, o.h, OnWire(msgs, a))
    ensures o'.Thrown? <==> o.Thrown? || Throws(parses, msgs, arr, a)
    ensures o'.Thrown? ==> exists i: nat :: StoppedAt(parses, msgs, arr + [a], i, o'.h)
    ensures o'.Done? ==> Handled(msgs, arr + [a], o'.h)
  {
    if o.Done? {
      ArrivalStep(parses, msgs, o.h, arr, a, o');
      if o'.Thrown? {
        StoppedNow(parses, msgs, arr, a, o'.h);
      }
    } else {
      var i: nat :| StoppedAt(parses, msgs, arr, i, o.h);
      StoppedMore(parses, msgs, arr, a, i, o.h);
    }
  }

  ghost predicate Reassembled(parses: Parses, msgs: Messages, arr: seq<Arrival>, o: Outcome) {
    && (o.Thrown? <==> SomeThrow(parses, msgs, arr)) && (o.Done? ==> Handled(msgs, arr, o.h))
    && (o.Thrown? ==> exists i: nat :: StoppedAt(parses, msgs, arr, i, o.h))
  }

  lemma ReassembledNone(parses: Parses, msgs: Messages)
    requires Arrivals(msgs, [])
    ensures Reassembled(parses, msgs, [], Done(Handler(map[], [])))
  {
    HandledNothing(msgs);
  }

  lemma ReassembledMore(parses: Parses, msgs: Messages, arr: seq<Arrival>, a: Arrival, o: Outcome, o': Outcome)
    requires Arrivals(msgs, arr) && Known(msgs, a) && Reassembled(parses, msgs, arr, o)
    requires o' == if o.Thrown? then o else OnFragment(parses, o.h, OnWire(msgs, a))
    ensures Reassembled(parses, msgs, arr + [a], o')
  {
    ThrowMore(parses, msgs, arr, a);
    OneMoreArrival(parses, msgs, arr, a, o, o');
  }

  lemma {:induction false} AllReassembled(parses: Parses, msgs: Messages, arr: seq<Arrival>) returns (o: Outcome)
    requires Arrivals(msgs, arr)
    ensures o == Outcomes(parses, msgs, arr) && Reassembled(parses, msgs, arr, o)
  {
    o := Outcomes(parses, msgs, arr);
    if arr == [] {
      ReassembledNone(parses, msgs);
    } else {
      var n := |arr| - 1;
      ArrivalsBefore(msgs, arr);
      var before := AllReassembled(parses, msgs, arr[..n]);
      LastArrival(parses, msgs, Handler(map[], []), arr);
      assert arr == arr[..n] + [arr[n]];
      ReassembledMore(parses, msgs, arr[..n], arr[n], before, o);
    }
  }

  /** Tunnel reassembly under interleaving: fragments of any number of messages, and
      messages that were not cut, in any order and any number of times.  The handler throws
      iff the first or last fragment of a message that is not complete comes again, or a
      message for a router becomes complete that cannot be parsed.  Otherwise what is handed
      on is each message with every arrival that makes it complete, counting from the last
      time, its payload in order; a state is left exactly of the fragments since then. */
  lemma {:induction false} Reassembly(parses: Parses, msgs: Messages, arr: seq<Arrival>)
    requires Arrivals(msgs, arr)
    ensures var o := Outcomes(parses, msgs, arr);
      && (o.Thrown? <==> SomeThrow(parses, msgs, arr))
      && (o.Thrown? ==> exists i: nat :: StoppedAt(parses, msgs, arr, i, o.h))
      && (o.Done? ==> Handled(msgs, arr, o.h))
  {
    var o := AllReassembled(parses, msgs, arr);
  }

  // ---- messages that were not cut

  /** What the delivery instructions of an item ask for. */
  ghost function Instruction(msgs: Messages, item: Item): seq<Sent> {
    match item
    case Whole(id) => if id in msgs then Delivered(id, msgs[id]) else []
    case Alone(d, payload) => AsAsked(d, ZERO, payload)
  }

  ghost function Instructions(msgs: Messages, items: seq<Item>): seq<Sent> {
    if items == [] then []
    else Instructions(msgs, items[..|items| - 1]) + Instruction(msgs, items[|items| - 1])
  }

  lemma SameParts<T>(a: seq<T>, b: seq<T>, x: seq<T>, y: seq<T>)
    requires |a| >= |b| && |x| >= |y|
    ensures a + x == b + y <==> a == b && x == y
  {
    if a + x == b + y {
      assert |a| == |b|;
      DropPrefix(a, x);
      DropPrefix(b, y);
    }
  }

  ghost predicate TunnelsOnly(items: seq<Item>) {
    forall i :: 0 <= i < |items| && items[i].Alone? ==> items[i].delivery.ToTunnel?
  }

  lemma {:induction false} FollowedItems(msgs: Messages, items: seq<Item>)
    ensures |Outputs(msgs, items)| >= |Instructions(msgs, items)|
    ensures Outputs(msgs, items) == Instructions(msgs, items) <==> TunnelsOnly(items)
  {
    if items != [] {
      var n := |items| - 1;
      var x, y := Output(msgs, items[n]), Instruction(msgs, items[n]);
      FollowedItems(msgs, items[..n]);
      SameParts(Outputs(msgs, items[..n]), Instructions(msgs, items[..n]), x, y);
      assert x == y <==> (items[n].Alone? ==> items[n].delivery.ToTunnel?);
      assert forall i :: 0 <= i < n ==> items[..n][i] == items[i];
    }
  }

  ghost predicate SinglesToTunnels(arr: seq<Arrival>) {
    forall i :: 0 <= i < |arr| && arr[i].Single? ==> arr[i].delivery.ToTunnel?
  }

  lemma {:induction false} ServedSingles(msgs: Messages, arr: seq<Arrival>)
    ensures TunnelsOnly(Served(msgs, arr)) <==> SinglesToTunnels(arr)
  {
    if arr != [] {
      var n := |arr| - 1;
      var items, more := Served(msgs, arr[..n]), Serves(msgs, arr[..n], arr[n]);
      ServedSingles(msgs, arr[..n]);
      assert arr == arr[..n] + [arr[n]];
      TunnelsAppend(items, more);
      ServesTunnels(msgs, arr[..n], arr[n]);
      SinglesAppend(arr[..n], arr[n]);
    }
  }

  lemma ServesTunnels(msgs: Messages, arr: seq<Arrival>, a: Arrival)
    ensures TunnelsOnly(Serves(msgs, arr, a)) <==> (a.Single? ==> a.delivery.ToTunnel?)
  {
    if a.Single? {
      assert Serves(msgs, arr, a)[0] == Alone(a.delivery, a.payload);
    }
  }

  lemma TunnelsAppend(a: seq<Item>, b: seq<Item>)
    ensures TunnelsOnly(a + b) <==> TunnelsOnly(a) && TunnelsOnly(b)
  {
    assert forall i :: 0 <= i < |a| ==> (a + b)[i] == a[i];
    assert forall i :: 0 <= i < |b| ==> (a + b)[|a| + i] == b[i];
  }

  lemma SinglesAppend(arr: seq<Arrival>, a: Arrival)
    ensures SinglesToTunnels(arr + [a]) <==> SinglesToTunnels(arr) && (a.Single? ==> a.delivery.ToTunnel?)
  {
    assert forall i :: 0 <= i < |arr| ==> (arr + [a])[i] == arr[i];
    assert (arr + [a])[|arr|] == a;
  }

  /** Delivery instructions: over a whole run the handler sends what they ask for, iff every
      message that was not cut names a tunnel. */
  lemma {:induction false} FollowedIffTunnels(parses: Parses, msgs: Messages, arr: seq<Arrival>)
    requires Arrivals(msgs, arr) && Outcomes(parses, msgs, arr).Done?
    ensures Outcomes(parses, msgs, arr).h.sent == Instructions(msgs, Served(msgs, arr)) <==> SinglesToTunnels(arr)
  {
    Reassembly(parses, msgs, arr);
    FollowedItems(msgs, Served(msgs, arr));
    ServedSingles(msgs, arr);
  }

  // ---- without repeats

  predicate Once(arr: seq<Arrival>) {
    forall i, j :: 0 <= i < j < |arr| && arr[i].Part? ==> arr[i] != arr[j]
  }

  ghost function Got(arr: seq<Arrival>, id: uint32): set<nat> {
    set a | a in arr && a.Part? && a.id == id :: a.k
  }

  lemma GotMore(arr: seq<Arrival>, a: Arrival, id: uint32)
    ensures Got(arr + [a], id) == if a.Part? && a.id == id then Got(arr, id) + {a.k} else Got(arr, id)
  {
    assert forall x :: x in arr + [a] <==> x in arr || x == a;
  }

  lemma NotYet(arr: seq<Arrival>, a: Arrival)
    requires Once(arr + [a]) && a.Part?
    ensures a.k !in Got(arr, a.id)
  {
    var all := arr + [a];
    forall i | 0 <= i < |arr| ensures arr[i] != a {
      assert all[i] == arr[i] && all[|arr|] == a;
    }
  }

  lemma OnceBefore(arr: seq<Arrival>, i: nat)
    requires Once(arr) && i < |arr|
    ensures Once(arr[..i]) && Once(arr[..i] + [arr[i]])
  {
    assert arr[..i] + [arr[i]] == arr[..i + 1];
  }

  /** Until a message is complete, what arrived since then is what arrived. */
  lemma {:induction false} WindowOnce(m: Msg, id: uint32, arr: seq<Arrival>)
    requires Once(arr) && Cut(m)
    requires forall i :: 0 <= i < |arr| && arr[i].Part? && arr[i].id == id ==> arr[i].k < |m.pieces|
    ensures Window(m, id, arr) == Rest(m, Got(arr, id))
  {
    if arr == [] {
      assert Got(arr, id) == {};
    } else {
      var n := |arr| - 1;
      OnceBefore(arr, n);
      WindowOnce(m, id, arr[..n]);
      assert arr == arr[..n] + [arr[n]];
      GotMore(arr[..n], arr[n], id);
      if arr[n].Part? && arr[n].id == id {
        NotYet(arr[..n], arr[n]);
        assert arr[n].k < |m.pieces|;
      }
    }
  }

  lemma KnownPieces(msgs: Messages, arr: seq<Arrival>, id: uint32)
    requires Arrivals(msgs, arr) && id in msgs
    ensures forall i :: 0 <= i < |arr| && arr[i].Part? && arr[i].id == id ==> arr[i].k < |msgs[id].pieces|
  {
    forall i | 0 <= i < |arr| && arr[i].Part? && arr[i].id == id ensures arr[i].k < |msgs[id].pieces| {
      assert Known(msgs, arr[i]);
    }
  }

  /** An arrival that is new finishes its message iff now everything has arrived, and does
      not throw as a repeat. */
  lemma NewArrival(msgs: Messages, arr: seq<Arrival>, a: Arrival)
    requires Arrivals(msgs, arr + [a]) && Once(arr + [a]) && a.Part? && a.id in msgs
    ensures Finishes(msgs, arr, a) <==> Full(msgs[a.id], Got(arr + [a], a.id))
    ensures !Repeats(msgs, arr, a) && !Full(msgs[a.id], Got(arr, a.id))
  {
    var m := msgs[a.id];
    OnceBefore(arr + [a], |arr|);
    assert (arr + [a])[..|arr|] == arr;
    KnownPieces(msgs, arr + [a], a.id);
    assert (arr + [a])[|arr|] == a;
    assert forall i :: 0 <= i < |arr| ==> (arr + [a])[i] == arr[i];
    WindowOnce(m, a.id, arr);
    GotMore(arr, a, a.id);
    NotYet(arr, a);
  }

  lemma StillFull(msgs: Messages, arr: seq<Arrival>, a: Arrival, id: uint32)
    requires id in msgs
    ensures Full(msgs[id], Got(arr, id)) ==> Full(msgs[id], Got(arr + [a], id))
    ensures !(a.Part? && a.id == id) ==> Got(arr + [a], id) == Got(arr, id)
  {
    GotMore(arr, a, id);
  }

  ghost predicate CompletedOnce(msgs: Messages, arr: seq<Arrival>, items: seq<Item>) {
    && (forall i, j :: 0 <= i < j < |items| && items[i].Whole? ==> items[i] != items[j])
    && (forall id :: id in msgs ==> (Whole(id) in items <==> Full(msgs[id], Got(arr, id))))
    && (forall i :: 0 <= i < |items| && items[i].Whole? ==> items[i].id in msgs)
  }

  lemma AddWhole(msgs: Messages, arr: seq<Arrival>, a: Arrival, items: seq<Item>)
    requires CompletedOnce(msgs, arr, items) && a.Part? && a.id in msgs
    requires Full(msgs[a.id], Got(arr + [a], a.id)) && !Full(msgs[a.id], Got(arr, a.id))
    ensures CompletedOnce(msgs, arr + [a], items + [Whole(a.id)])
  {
    forall id | id in msgs
      ensures Whole(id) in items + [Whole(a.id)] <==> Full(msgs[id], Got(arr + [a], id))
    {
      StillFull(msgs, arr, a, id);
    }
  }

  lemma AddNone(msgs: Messages, arr: seq<Arrival>, a: Arrival, items: seq<Item>)
    requires CompletedOnce(msgs, arr, items)
    requires a.Part? && a.id in msgs ==> !Full(msgs[a.id], Got(arr + [a], a.id))
    ensures CompletedOnce(msgs, arr + [a], items)
    ensures a.Single? ==> CompletedOnce(msgs, arr + [a], items + [Alone(a.delivery, a.payload)])
  {
    forall id | id in msgs ensures Whole(id) in items <==> Full(msgs[id], Got(arr + [a], id)) {
      StillFull(msgs, arr, a, id);
    }
  }

  lemma NoneCompleted(msgs: Messages)
    requires forall id :: id in msgs ==> Cut(msgs[id])
    ensures CompletedOnce(msgs, [], [])
  {
    forall id | id in msgs ensures !Full(msgs[id], Got([], id)) {
      assert 0 !in Got([], id);
    }
  }

  lemma {:induction false} ServedOnce(msgs: Messages, arr: seq<Arrival>)
    requires Arrivals(msgs, arr) && Once(arr)
    ensures CompletedOnce(msgs, arr, Served(msgs, arr))
  {
    if arr == [] {
      NoneCompleted(msgs);
    } else {
      var n := |arr| - 1;
      var a, before := arr[n], arr[..n];
      ArrivalsBefore(msgs, arr);
      OnceBefore(arr, n);
      ServedOnce(msgs, before);
      assert arr == before + [a];
      if a.Part? {
        NewArrival(msgs, before, a);
        if Finishes(msgs, before, a) {
          AddWhole(msgs, before, a, Served(msgs, before));
        } else {
          assert Served(msgs, before) + [] == Served(msgs, before);
          AddNone(msgs, before, a, Served(msgs, before));
        }
      } else {
        AddNone(msgs, before, a, Served(msgs, before));
      }
    }
  }

  /** Some message is complete that cannot be sent. */
  ghost predicate Stuck(parses: Parses, msgs: Messages, arr: seq<Arrival>) {
    exists id :: id in msgs && Full(msgs[id], Got(arr, id)) && Unsendable(parses, id, msgs[id])
  }

  lemma StuckMore(parses: Parses, msgs: Messages, arr: seq<Arrival>, a: Arrival)
    requires Arrivals(msgs, arr + [a]) && Once(arr + [a]) && Known(msgs, a)
    ensures Stuck(parses, msgs, arr + [a]) <==> Stuck(parses, msgs, arr) || Throws(parses, msgs, arr, a)
  {
    if a.Part? {
      NewArrival(msgs, arr, a);
    }
    if Stuck(parses, msgs, arr) {
      var id :| id in msgs && Full(msgs[id], Got(arr, id)) && Unsendable(parses, id, msgs[id]);
      StillFull(msgs, arr, a, id);
      assert Full(msgs[id], Got(arr + [a], id));
    }
    if Stuck(parses, msgs, arr + [a]) {
      var id :| id in msgs && Full(msgs[id], Got(arr + [a], id)) && Unsendable(parses, id, msgs[id]);
      StillFull(msgs, arr, a, id);
      if !(a.Part? && a.id == id) {
        assert Full(msgs[id], Got(arr, id));
      }
    }
  }

  lemma {:induction false} ThrowsIffStuck(parses: Parses, msgs: Messages, arr: seq<Arrival>)
    requires Arrivals(msgs, arr) && Once(arr)
    ensures SomeThrow(parses, msgs, arr) <==> Stuck(parses, msgs, arr)
  {
    if arr == [] {
      NoneCompleted(msgs);
      assert forall i: nat :: !ThrowsAt(parses, msgs, arr, i);
    } else {
      var n := |arr| - 1;
      ArrivalsBefore(msgs, arr);
      OnceBefore(arr, n);
      ThrowsIffStuck(parses, msgs, arr[..n]);
      ThrowMore(parses, msgs, arr[..n], arr[n]);
      assert arr == arr[..n] + [arr[n]];
      StuckMore(parses, msgs, arr[..n], arr[n]);
    }
  }

  /** Without repeats: the handler throws iff a complete message cannot be sent; otherwise
      what it has sent is made of items among which every message is found at most once, and
      is found iff all its fragments have arrived. */
  lemma {:induction false} ExactlyOnce(parses: Parses, msgs: Messages, arr: seq<Arrival>)
    requires Arrivals(msgs, arr) && Once(arr)
    ensures var o := Outcomes(parses, msgs, arr);
      && (o.Thrown? <==> Stuck(parses, msgs, arr))
      && (o.Done? ==> o.h.sent == Outputs(msgs, Served(msgs, arr)) && CompletedOnce(msgs, arr, Served(msgs, arr)))
  {
    Reassembly(parses, msgs, arr);
    ThrowsIffStuck(parses, msgs, arr);
    ServedOnce(msgs, arr);
  }
}
