/** DHT searches: `SearchState` and `SearchManager`. */
module DhtSearch {
  import opened Bytes
  import opened Lists

  type Hash = seq<byte>
  type Key = seq<byte>

  // ---------------------------------------------------------------- one search

  datatype Phase = Connecting | LookupSent

  /** `SearchState`; the iterator `m_current` is a position in `alternates`. */
  datatype Search = Search(phase: Phase, goal: Key, current: Hash,
                           excluded: seq<Hash>, alternates: seq<Hash>, cursor: nat)

  predicate ValidSearch(s: Search) {
    NoDuplicates(s.alternates) && s.cursor < |s.alternates| && s.current == s.alternates[s.cursor]
  }

  /** `countAlternates`: how many are left behind the cursor. */
  function Count(s: Search): nat {
    if s.cursor < |s.alternates| then |s.alternates| - s.cursor - 1 else 0
  }

  function IndexOf(xs: seq<Hash>, x: Hash): (i: nat)
    ensures i <= |xs| && (i < |xs| ==> xs[i] == x) && forall j :: 0 <= j < i ==> xs[j] != x
  {
    if xs == [] || xs[0] == x then 0
    else
      var i := IndexOf(xs[1..], x);
      assert forall j :: 0 < j < 1 + i ==> xs[j] == xs[1..][j - 1];
      1 + i
  }

  function NewSearch(goal: Key, start: Hash): Search {
    Search(Connecting, goal, start, [], [start], 0)
  }

  /** The copy constructor finds the cursor again by value. */
  function Copied(s: Search): Search {
    s.(cursor := IndexOf(s.alternates, s.current))
  }

  function WithAlternate(s: Search, h: Hash): Search {
    if h in s.alternates then s else s.(alternates := s.alternates + [h])
  }

  function WithAlternates(s: Search, hs: seq<Hash>): Search
    decreases hs
  {
    if hs == [] then s else WithAlternates(WithAlternate(s, hs[0]), hs[1..])
  }

  function Pop(s: Search): Search {
    if Count(s) > 0 then s.(cursor := s.cursor + 1, current := s.alternates[s.cursor + 1]) else s
  }

  /** `ModifyState(exclude)`. */
  function Exclude(s: Search, h: Hash): Search {
    s.(phase := Connecting, excluded := s.excluded + [h])
  }

  /** Later in the life of the same search: more alternates behind, a cursor that only
      moved forward. */
  predicate Advances(s: Search, s': Search) {
    s.goal == s'.goal && s.alternates <= s'.alternates && s.cursor <= s'.cursor
  }

  /** Copying preserves the cursor. */
  lemma CopyKeepsCursor(s: Search)
    requires ValidSearch(s)
    ensures Copied(s) == s
  {
    var i := IndexOf(s.alternates, s.current);
    assert i <= s.cursor && s.alternates[i] == s.alternates[s.cursor];
  }

  lemma AddKeeps(s: Search, h: Hash)
    requires ValidSearch(s)
    ensures ValidSearch(WithAlternate(s, h)) && Advances(s, WithAlternate(s, h))
    ensures WithAlternate(s, h).cursor == s.cursor && h in WithAlternate(s, h).alternates
  {
    var t := WithAlternate(s, h).alternates;
    if h !in s.alternates {
      assert t[|s.alternates|] == h;
    }
  }

  lemma {:induction false} AddAllKeeps(s: Search, hs: seq<Hash>)
    requires ValidSearch(s)
    ensures ValidSearch(WithAlternates(s, hs)) && Advances(s, WithAlternates(s, hs))
    decreases hs
  {
    if hs != [] {
      AddKeeps(s, hs[0]);
      AddAllKeeps(WithAlternate(s, hs[0]), hs[1..]);
      AdvancesMore(s, WithAlternate(s, hs[0]), WithAlternates(s, hs));
    }
  }

  lemma PopKeeps(s: Search)
    requires ValidSearch(s)
    ensures ValidSearch(Pop(s)) && Advances(s, Pop(s))
    ensures Count(s) > 0 ==> Count(Pop(s)) == Count(s) - 1 && Pop(s).cursor == s.cursor + 1
  {
  }

  lemma AdvancesMore(a: Search, b: Search, c: Search)
    requires Advances(a, b) && Advances(b, c)
    ensures Advances(a, c)
  {
  }

  /** A search that has moved on is at a router it was not at before. */
  lemma MovedOnIsNew(s: Search, s': Search)
    requires ValidSearch(s) && ValidSearch(s') && Advances(s, s')
    ensures s'.alternates[s.cursor] == s.current
    ensures s.current == s'.current <==> s.cursor == s'.cursor
  {
  }

  /** `SearchState`. */
  class SearchState {
    var phase: Phase
    const goal: Key
    var current: Hash
    var excluded: seq<Hash>
    var alternates: seq<Hash>
    var cursor: nat

    function Value(): Search
      reads this
    {
      Search(phase, goal, current, excluded, alternates, cursor)
    }

    ghost predicate Valid()
      reads this
    {
      ValidSearch(Value())
    }

    constructor (goal: Key, start: Hash)
      ensures Valid() && Value() == NewSearch(goal, start)
    {
      this.goal, phase, current, excluded, alternates, cursor := goal, Connecting, start, [], [start], 0;
    }

    constructor Copy(s: Search)
      requires ValidSearch(s)
      ensures Valid() && Value() == s
    {
      goal, phase, current, excluded, alternates := s.goal, s.phase, s.current, s.excluded, s.alternates;
      var i := Find(s.alternates, s.current);
      cursor := i;
      CopyKeepsCursor(s);
    }

    method AddAlternate(h: Hash)
      requires Valid()
      modifies this`alternates
      ensures Valid() && Value() == WithAlternate(old(Value()), h)
    {
      AddKeeps(Value(), h);
      var i := Find(alternates, h);
      if i == |alternates| {
        alternates := alternates + [h];
      }
    }

    method PopAlternate()
      requires Valid()
      modifies this`current, this`cursor
      ensures Valid() && Value() == Pop(old(Value()))
    {
      if |alternates| - cursor - 1 > 0 {
        cursor := cursor + 1;
        current := alternates[cursor];
      }
    }
  }

  method Find(xs: seq<Hash>, x: Hash) returns (i: nat)
    ensures i == IndexOf(xs, x) && (i == |xs| <==> x !in xs)
  {
    i := 0;
    while i < |xs| && xs[i] != x
      invariant i <= IndexOf(xs, x)
    {
      i := i + 1;
    }
  }

  // ------------------------------------------------------------ all searches

  /** What the manager asks the transport and other routers for. */
  datatype Action = Connect(to: Hash) | Lookup(to: Hash, key: Key, excluded: seq<Hash>)

  /** The life of searches: `Succeeded`, `Failed` and `Refused` are the signals;
      `Dropped` is a search that ends without one. */
  datatype Note = Started(key: Key) | Succeeded(key: Key) | Failed(key: Key) | Dropped(key: Key) | Refused(key: Key)

  datatype Searches = Searches(active: map<Key, Search>, timers: set<Key>, nlc: set<Key>,
                               actions: seq<Action>, log: seq<Note>)

  const NONE: Searches := Searches(map[], {}, {}, [], [])

  /** `createSearch` with the starting points `points`; their absence is not checked. */
  function Create(w: Searches, k: Key, points: seq<Hash>): Result<Searches> {
    if k in w.nlc then Ok(w.(log := w.log + [Refused(k)]))
    else if k in w.active then Ok(w)
    else if points == [] then Err(Overrun)
    else
      var s := Copied(WithAlternates(NewSearch(k, points[0]), points[1..]));
      Ok(Searches(w.active[k := s], w.timers + {k}, w.nlc, w.actions + [Connect(s.current)], w.log + [Started(k)]))
  }

  function Cancelled(w: Searches, k: Key): Searches {
    if k in w.active then Searches(w.active - {k}, w.timers - {k}, w.nlc + {k}, w.actions, w.log + [Failed(k)]) else w
  }

  /** What the index by current router finds: any search that is at `h`, if there is one. */
  predicate Found(w: Searches, h: Hash, pick: Option<Key>) {
    match pick
    case Some(k) => k in w.active && w.active[k].current == h
    case None => forall k :: k in w.active ==> w.active[k].current != h
  }

  function OnConnected(w: Searches, h: Hash, pick: Option<Key>): Searches
    requires Found(w, h, pick)
  {
    if pick.None? || w.active[pick.value].phase != Connecting then w
    else
      var k, s := pick.value, w.active[pick.value];
      w.(active := w.active[k := s.(phase := LookupSent)], actions := w.actions + [Lookup(h, k, s.excluded)])
  }

  /** The loop that skips alternates the database does not know. */
  function SkipUnknown(s: Search, known: set<Hash>): Option<Search>
    decreases Count(s)
  {
    if s.current in known then Some(s) else if Count(s) > 0 then SkipUnknown(Pop(s), known) else None
  }

  ghost predicate AllValid(active: map<Key, Search>) {
    forall k :: k in active ==> ValidSearch(active[k]) && active[k].goal == k
  }

  function OnConnectionFailure(w: Searches, h: Hash, pick: Option<Key>, known: set<Hash>): Searches
    requires Found(w, h, pick)
  {
    if pick.None? then w
    else
      var k, s := pick.value, w.active[pick.value];
      if Count(s) == 0 then Cancelled(w, k)
      else match SkipUnknown(Pop(s), known)
        case None => Cancelled(w, k)
        case Some(s') => w.(active := w.active[k := Exclude(s', h)], actions := w.actions + [Connect(s'.current)])
  }

  function OnSearchReply(w: Searches, from: Hash, query: Key, hashes: seq<Hash>, known: set<Hash>): Searches {
    if query !in w.active || w.active[query].phase != LookupSent then w
    else
      var s := WithAlternates(w.active[query], hashes);
      if Count(s) == 0 then Cancelled(w, query)
      else
        var s' := Exclude(Pop(s), from);
        w.(active := w.active[query := s'],
           actions := w.actions + [if s'.current in known then Connect(s'.current)
                                   else Lookup(from, s'.current, s'.excluded)])
  }

  function OnDatabaseStore(w: Searches, from: Hash, k: Key, isRouterInfo: bool, pick: Option<Key>): Searches
    requires Found(w, from, pick)
  {
    if k in w.active then
      w.(active := w.active - {k}, timers := w.timers - {k},
         log := w.log + [if isRouterInfo then Succeeded(k) else Dropped(k)])
    else if isRouterInfo && pick.Some? && w.active[pick.value].current == k then w.(actions := w.actions + [Connect(k)])
    else w
  }

  /** `SearchManager`. */
  class SearchManager {
    var active: map<Key, Search>
    var timers: set<Key>
    var nlc: set<Key>
    var actions: seq<Action>
    var log: seq<Note>

    function Value(): Searches
      reads this
    {
      Searches(active, timers, nlc, actions, log)
    }

    ghost predicate Valid()
      reads this
    {
      AllValid(active)
    }

    constructor ()
      ensures Valid() && Value() == NONE
    {
      active, timers, nlc, actions, log := map[], {}, {}, [], [];
    }

    method CreateSearch(k: Key, points: seq<Hash>) returns (ok: bool)
      requires Valid()
      modifies this
      ensures Valid() && (ok <==> Create(old(Value()), k, points).Ok?)
      ensures Value() == if ok then Create(old(Value()), k, points).value else old(Value())
    {
      if k in nlc {
        log := log + [Refused(k)];
        return true;
      }
      if k in active {
        return true;
      }
      if points == [] {
        return false;
      }
      var s := BeginSearch(k, points);
      active, timers := active[k := s], timers + {k};
      actions, log := actions + [Connect(s.current)], log + [Started(k)];
      ok := true;
    }

    method Cancel(k: Key)
      requires Valid()
      modifies this
      ensures Valid() && Value() == Cancelled(old(Value()), k)
    {
      if k in active {
        log := log + [Failed(k)];
        active, timers, nlc := active - {k}, timers - {k}, nlc + {k};
      }
    }

    method Timeout(k: Key)
      requires Valid()
      modifies this
      ensures Valid() && Value() == Cancelled(old(Value()), k)
    {
      Cancel(k);
    }

    method FindByCurrent(h: Hash) returns (pick: Option<Key>)
      ensures Found(Value(), h, pick)
    {
      if k :| k in active && active[k].current == h {
        pick := Some(k);
      } else {
        pick := None;
      }
    }

    method Connected(h: Hash) returns (pick: Option<Key>)
      requires Valid()
      modifies this
      ensures Valid() && Found(old(Value()), h, pick) && Value() == OnConnected(old(Value()), h, pick)
    {
      pick := FindByCurrent(h);
      if pick.Some? {
        var k, s := pick.value, active[pick.value];
        if s.phase == Connecting {
          active := active[k := s.(phase := LookupSent)];
          actions := actions + [Lookup(h, k, s.excluded)];
        }
      }
    }

    method ConnectionFailure(h: Hash, known: set<Hash>) returns (pick: Option<Key>)
      requires Valid()
      modifies this
      ensures Valid() && Found(old(Value()), h, pick)
      ensures Value() == OnConnectionFailure(old(Value()), h, pick, known)
    {
      pick := FindByCurrent(h);
      if pick.None? {
        return;
      }
      var k := pick.value;
      var next := NextKnown(active[k], known);
      if next.None? {
        Cancel(k);
      } else {
        active := active[k := Exclude(next.value, h)];
        actions := actions + [Connect(next.value.current)];
      }
    }

    method SearchReply(from: Hash, query: Key, hashes: seq<Hash>, known: set<Hash>)
      requires Valid()
      modifies this
      ensures Valid() && Value() == OnSearchReply(old(Value()), from, query, hashes, known)
    {
      if query !in active || active[query].phase != LookupSent {
        return;
      }
      AddAllKeeps(active[query], hashes);
      var s := PushAll(active[query], hashes);
      if Count(s) == 0 {
        Cancel(query);
        return;
      }
      PopKeeps(s);
      s := Exclude(Pop(s), from);
      active := active[query := s];
      actions := actions + [if s.current in known then Connect(s.current) else Lookup(from, s.current, s.excluded)];
    }

    method DatabaseStore(from: Hash, k: Key, isRouterInfo: bool) returns (pick: Option<Key>)
      requires Valid()
      modifies this
      ensures Valid() && Found(old(Value()), from, pick)
      ensures Value() == OnDatabaseStore(old(Value()), from, k, isRouterInfo, pick)
    {
      pick := FindByCurrent(from);
      if k in active {
        log := log + [if isRouterInfo then Succeeded(k) else Dropped(k)];
        active, timers := active - {k}, timers - {k};
        return;
      }
      if !isRouterInfo {
        return;
      }
      if pick.Some? && active[pick.value].current == k {
        actions := actions + [Connect(k)];
      }
    }
  }

  method PushAll(s: Search, hs: seq<Hash>) returns (r: Search)
    requires ValidSearch(s)
    ensures r == WithAlternates(s, hs) && ValidSearch(r)
  {
    var ss := new SearchState.Copy(s);
    var rest := hs;
    while rest != []
      invariant ss.Valid() && WithAlternates(ss.Value(), rest) == WithAlternates(s, hs)
      decreases |rest|
    {
      ss.AddAlternate(rest[0]);
      rest := rest[1..];
    }
    r := ss.Value();
  }

  method BeginSearch(k: Key, points: seq<Hash>) returns (s: Search)
    requires points != []
    ensures s == Copied(WithAlternates(NewSearch(k, points[0]), points[1..]))
    ensures ValidSearch(s) && s.goal == k
  {
    var begun := PushAll(NewSearch(k, points[0]), points[1..]);
    AddAllKeeps(NewSearch(k, points[0]), points[1..]);
    CopyKeepsCursor(begun);
    s := begun;
  }

  /** The alternate `connectionFailure` settles on. */
  method NextKnown(s: Search, known: set<Hash>) returns (r: Option<Search>)
    requires ValidSearch(s)
    ensures r == if Count(s) == 0 then None else SkipUnknown(Pop(s), known)
    ensures r.Some? ==> ValidSearch(r.value) && Advances(s, r.value) && r.value.cursor > s.cursor
  {
    if Count(s) == 0 {
      return None;
    }
    var ss := new SearchState.Copy(s);
    PopKeeps(s);
    ss.PopAlternate();
    while ss.current !in known
      invariant ss.Valid() && SkipUnknown(ss.Value(), known) == SkipUnknown(Pop(s), known)
      invariant Advances(s, ss.Value()) && ss.cursor > s.cursor
      decreases |ss.alternates| - ss.cursor
    {
      if Count(ss.Value()) == 0 {
        return None;
      }
      PopKeeps(ss.Value());
      ss.PopAlternate();
    }
    r := Some(ss.Value());
  }

  // ------------------------------------------------------------------------ runs

  /** A handler call, with what the index lookup picked and what the database knew. */
  datatype Event =
    | CreateSearch(k: Key, points: seq<Hash>)
    | Timeout(k: Key)
    | Connected(h: Hash, pick: Option<Key>)
    | ConnectionFailure(h: Hash, pick: Option<Key>, known: set<Hash>)
    | SearchReply(from: Hash, query: Key, hashes: seq<Hash>, known: set<Hash>)
    | DatabaseStore(from: Hash, k: Key, isRouterInfo: bool, pick: Option<Key>)

  ghost predicate Enabled(w: Searches, e: Event) {
    match e
    case CreateSearch(k, points) => points != []
    case Connected(h, pick) => Found(w, h, pick)
    case ConnectionFailure(h, pick, _) => Found(w, h, pick)
    case DatabaseStore(from, _, _, pick) => Found(w, from, pick)
    case _ => true
  }

  ghost function Next(w: Searches, e: Event): Searches
    requires Enabled(w, e)
  {
    match e
    case CreateSearch(k, points) => Create(w, k, points).value
    case Timeout(k) => Cancelled(w, k)
    case Connected(h, pick) => OnConnected(w, h, pick)
    case ConnectionFailure(h, pick, known) => OnConnectionFailure(w, h, pick, known)
    case SearchReply(from, query, hashes, known) => OnSearchReply(w, from, query, hashes, known)
    case DatabaseStore(from, k, isRouterInfo, pick) => OnDatabaseStore(w, from, k, isRouterInfo, pick)
  }

  ghost predicate CanRun(w: Searches, es: seq<Event>)
    decreases es
  {
    es == [] || (Enabled(w, es[0]) && CanRun(Next(w, es[0]), es[1..]))
  }

  ghost function Run(w: Searches, es: seq<Event>): Searches
    requires CanRun(w, es)
    decreases es
  {
    if es == [] then w else Run(Next(w, es[0]), es[1..])
  }

  // ------------------------------------------------------------ bookkeeping

  function Starts(log: seq<Note>, k: Key): nat {
    if log == [] then 0 else Starts(log[..|log| - 1], k) + if log[|log| - 1] == Started(k) then 1 else 0
  }

  predicate Ending(n: Note, k: Key) {
    n == Succeeded(k) || n == Failed(k) || n == Dropped(k)
  }

  function Ends(log: seq<Note>, k: Key): nat {
    if log == [] then 0 else Ends(log[..|log| - 1], k) + if Ending(log[|log| - 1], k) then 1 else 0
  }

  /** The signals emitted for searches of k that were started. */
  function Signals(log: seq<Note>, k: Key): nat {
    if log == [] then 0
    else Signals(log[..|log| - 1], k) + if log[|log| - 1] == Succeeded(k) || log[|log| - 1] == Failed(k) then 1 else 0
  }

  lemma {:induction false} SignalsAreEnds(log: seq<Note>, k: Key)
    ensures Signals(log, k) <= Ends(log, k)
  {
    if log != [] {
      SignalsAreEnds(log[..|log| - 1], k);
    }
  }

  lemma OneMoreNote(log: seq<Note>, n: Note, k: Key)
    ensures Starts(log + [n], k) == Starts(log, k) + if n == Started(k) then 1 else 0
    ensures Ends(log + [n], k) == Ends(log, k) + if Ending(n, k) then 1 else 0
  {
    assert (log + [n])[..|log|] == log;
  }

  /** Every start is matched by at most one end, and is still unmatched exactly while the
      search is active. */
  ghost predicate Balanced(active: map<Key, Search>, log: seq<Note>) {
    forall k :: Starts(log, k) == Ends(log, k) + if k in active then 1 else 0
  }

  ghost predicate Inv(w: Searches) {
    && AllValid(w.active)
    && w.timers == w.active.Keys
    && w.active.Keys !! w.nlc
    && Balanced(w.active, w.log)
  }

  lemma BalancedNote(active: map<Key, Search>, active': map<Key, Search>, log: seq<Note>, n: Note)
    requires Balanced(active, log)
    requires forall k :: k in active' <==> (k in active || n == Started(k)) && !Ending(n, k)
    requires n.Started? ==> n.key !in active
    requires Ending(n, n.key) ==> n.key in active
    ensures Balanced(active', log + [n])
  {
    forall k {
      OneMoreNote(log, n, k);
    }
  }

  lemma CancelKeeps(w: Searches, k: Key)
    requires Inv(w)
    ensures Inv(Cancelled(w, k))
  {
    if k in w.active {
      BalancedNote(w.active, w.active - {k}, w.log, Failed(k));
    }
  }

  lemma CreateKeeps(w: Searches, k: Key, points: seq<Hash>)
    requires Inv(w) && points != []
    ensures Inv(Create(w, k, points).value)
  {
    if k in w.nlc {
      BalancedNote(w.active, w.active, w.log, Refused(k));
    } else if k !in w.active {
      var s := WithAlternates(NewSearch(k, points[0]), points[1..]);
      AddAllKeeps(NewSearch(k, points[0]), points[1..]);
      CopyKeepsCursor(s);
      BalancedNote(w.active, w.active[k := s], w.log, Started(k));
    }
  }

  lemma {:induction false} SkipKeeps(s: Search, known: set<Hash>)
    requires ValidSearch(s)
    ensures SkipUnknown(s, known).Some? ==>
      var s' := SkipUnknown(s, known).value;
      ValidSearch(s') && Advances(s, s') && s'.current in known
    decreases Count(s)
  {
    if s.current !in known && Count(s) > 0 {
      PopKeeps(s);
      SkipKeeps(Pop(s), known);
      if SkipUnknown(s, known).Some? {
        AdvancesMore(s, Pop(s), SkipUnknown(s, known).value);
      }
    }
  }

  lemma ConnectionFailureKeeps(w: Searches, h: Hash, pick: Option<Key>, known: set<Hash>)
    requires Inv(w) && Found(w, h, pick)
    ensures Inv(OnConnectionFailure(w, h, pick, known))
  {
    if pick.Some? {
      var s := w.active[pick.value];
      PopKeeps(s);
      SkipKeeps(Pop(s), known);
      CancelKeeps(w, pick.value);
    }
  }

  lemma SearchReplyKeeps(w: Searches, from: Hash, query: Key, hashes: seq<Hash>, known: set<Hash>)
    requires Inv(w)
    ensures Inv(OnSearchReply(w, from, query, hashes, known))
  {
    if query in w.active {
      AddAllKeeps(w.active[query], hashes);
      PopKeeps(WithAlternates(w.active[query], hashes));
      CancelKeeps(w, query);
    }
  }

  lemma DatabaseStoreKeeps(w: Searches, from: Hash, k: Key, isRouterInfo: bool, pick: Option<Key>)
    requires Inv(w) && Found(w, from, pick)
    ensures Inv(OnDatabaseStore(w, from, k, isRouterInfo, pick))
  {
    if k in w.active {
      BalancedNote(w.active, w.active - {k}, w.log, if isRouterInfo then Succeeded(k) else Dropped(k));
    }
  }

  lemma StepKeeps(w: Searches, e: Event)
    requires Inv(w) && Enabled(w, e)
    ensures Inv(Next(w, e))
  {
    match e
    case CreateSearch(k, points) => CreateKeeps(w, k, points);
    case Timeout(k) => CancelKeeps(w, k);
    case Connected(h, pick) =>
    case ConnectionFailure(h, pick, known) => ConnectionFailureKeeps(w, h, pick, known);
    case SearchReply(from, query, hashes, known) => SearchReplyKeeps(w, from, query, hashes, known);
    case DatabaseStore(from, k, isRouterInfo, pick) => DatabaseStoreKeeps(w, from, k, isRouterInfo, pick);
  }

  lemma {:induction false} RunKeeps(w: Searches, es: seq<Event>)
    requires Inv(w) && CanRun(w, es)
    ensures Inv(Run(w, es))
    decreases es
  {
    if es != [] {
      StepKeeps(w, es[0]);
      RunKeeps(Next(w, es[0]), es[1..]);
    }
  }

  /** Search bookkeeping, in every reachable state: the timers are those of the active
      goals, no active goal is in the negative cache, every search started for a goal has
      ended exactly once unless it is the active one, and no search emits more than one
      signal. */
  lemma {:induction false} Bookkeeping(es: seq<Event>, k: Key)
    requires CanRun(NONE, es)
    ensures var w := Run(NONE, es);
      && w.timers == w.active.Keys && (k in w.active ==> k !in w.nlc)
      && Starts(w.log, k) == Ends(w.log, k) + (if k in w.active then 1 else 0)
      && Signals(w.log, k) <= Starts(w.log, k)
  {
    assert Balanced(map[], []);
    RunKeeps(NONE, es);
    SignalsAreEnds(Run(NONE, es).log, k);
  }

  /** The log and the negative cache only grow. */
  lemma StepGrows(w: Searches, e: Event)
    requires Enabled(w, e)
    ensures w.nlc <= Next(w, e).nlc && w.log <= Next(w, e).log
  {
  }

  lemma {:induction false} RunGrows(w: Searches, es: seq<Event>)
    requires CanRun(w, es)
    ensures w.nlc <= Run(w, es).nlc && w.log <= Run(w, es).log
    decreases es
  {
    if es != [] {
      StepGrows(w, es[0]);
      RunGrows(Next(w, es[0]), es[1..]);
    }
  }

  /** A goal that was cancelled fails at once whenever it is searched for again: nothing
      is started and the only effect is the failure signal. */
  lemma {:induction false} CancelledStaysRefused(w: Searches, k: Key, es: seq<Event>, points: seq<Hash>)
    requires k in w.active && CanRun(Cancelled(w, k), es)
    ensures var w' := Run(Cancelled(w, k), es);
      Create(w', k, points) == Ok(w'.(log := w'.log + [Refused(k)]))
  {
    RunGrows(Cancelled(w, k), es);
  }

  // --------------------------------------------------------------- progress

  lemma StepAdvances(w: Searches, e: Event, k: Key)
    requires Inv(w) && Enabled(w, e) && k in w.active && k in Next(w, e).active
    ensures Advances(w.active[k], Next(w, e).active[k])
  {
    match e
    case ConnectionFailure(h, pick, known) =>
      if pick == Some(k) {
        var s := w.active[k];
        PopKeeps(s);
        SkipKeeps(Pop(s), known);
        if SkipUnknown(Pop(s), known).Some? {
          AdvancesMore(s, Pop(s), SkipUnknown(Pop(s), known).value);
        }
      }
    case SearchReply(from, query, hashes, known) =>
      if query == k {
        var s := WithAlternates(w.active[k], hashes);
        AddAllKeeps(w.active[k], hashes);
        PopKeeps(s);
        AdvancesMore(w.active[k], s, Pop(s));
      }
    case _ =>
  }

  /** The search for k goes on through all of the run. */
  ghost predicate Lives(w: Searches, es: seq<Event>, k: Key)
    requires CanRun(w, es)
    decreases es
  {
    k in w.active && (es != [] ==> Lives(Next(w, es[0]), es[1..], k))
  }

  lemma {:induction false} RunAdvances(w: Searches, es: seq<Event>, k: Key)
    requires Inv(w) && CanRun(w, es) && Lives(w, es, k)
    ensures k in Run(w, es).active && Advances(w.active[k], Run(w, es).active[k])
    decreases es
  {
    if es != [] {
      var w' := Next(w, es[0]);
      assert k in w'.active;
      StepAdvances(w, es[0], k);
      StepKeeps(w, es[0]);
      RunAdvances(w', es[1..], k);
      AdvancesMore(w.active[k], w'.active[k], Run(w, es).active[k]);
    }
  }

  /** Search progress: between any two moments of a search's life, either it has stayed
      at the same router or it is now at one it had not been at; the routers it has been
      at are the alternates up to the cursor, all different. */
  lemma {:induction false} NeverRevisits(before: seq<Event>, after: seq<Event>, k: Key)
    requires CanRun(NONE, before)
    requires CanRun(Run(NONE, before), after) && Lives(Run(NONE, before), after, k)
    ensures k in Run(NONE, before).active && k in Run(Run(NONE, before), after).active
    ensures var s, s' := Run(NONE, before).active[k], Run(Run(NONE, before), after).active[k];
      && s.cursor <= s'.cursor < |s'.alternates| && NoDuplicates(s'.alternates)
      && s.current == s'.alternates[s.cursor] && s'.current == s'.alternates[s'.cursor]
      && (s.current == s'.current <==> s.cursor == s'.cursor)
  {
    assert Balanced(map[], []);
    RunKeeps(NONE, before);
    var w := Run(NONE, before);
    RunKeeps(w, after);
    RunAdvances(w, after, k);
    MovedOnIsNew(w.active[k], Run(w, after).active[k]);
  }
}
