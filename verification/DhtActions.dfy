/** What every handler of a search does, and what the searches of a run make the router do:
    whom it connects to, whom it asks for what, and which signals it gives. */
module DhtActions {
  import opened Bytes
  import opened Lists
  import opened DhtSearch

  // ------------------------------------------------------------------ alternates

  /** `more` are the new ones among `hs`, in the order of their first occurrence. */
  ghost predicate NewOnes(had: seq<Hash>, hs: seq<Hash>, more: seq<Hash>) {
    && (forall i :: 0 <= i < |more| ==> more[i] in hs && more[i] !in had)
    && (forall h :: h in hs ==> h in had || h in more)
    && (forall i, j :: 0 <= i < j < |more| ==> IndexOf(hs, more[i]) < IndexOf(hs, more[j]))
  }

  lemma NoneNew(had: seq<Hash>)
    ensures NewOnes(had, [], [])
  {
  }

  lemma OldFirst(had: seq<Hash>, h: Hash, hs: seq<Hash>, more: seq<Hash>)
    requires h in had && NewOnes(had, hs, more)
    ensures NewOnes(had, [h] + hs, more)
  {
    var all := [h] + hs;
    assert all[1..] == hs;
    forall i | 0 <= i < |more| ensures IndexOf(all, more[i]) == 1 + IndexOf(hs, more[i]) {
      assert more[i] != h;
    }
  }

  lemma NewFirst(had: seq<Hash>, h: Hash, hs: seq<Hash>, more: seq<Hash>)
    requires h !in had && NewOnes(had + [h], hs, more)
    ensures NewOnes(had, [h] + hs, [h] + more)
  {
    var all := [h] + hs;
    assert all[1..] == hs && h in had + [h];
    forall i | 0 <= i < |more| ensures IndexOf(all, more[i]) == 1 + IndexOf(hs, more[i]) && more[i] in all {
      assert more[i] != h;
    }
  }

  /** Alternates are only ever added behind, the new ones in the order they came. */
  lemma {:induction false} Added(s: Search, hs: seq<Hash>) returns (more: seq<Hash>)
    ensures WithAlternates(s, hs) == s.(alternates := s.alternates + more) && NewOnes(s.alternates, hs, more)
    decreases hs
  {
    if hs == [] {
      more := [];
      NoneNew(s.alternates);
      assert s.alternates + [] == s.alternates;
    } else {
      var s1 := WithAlternate(s, hs[0]);
      var rest := Added(s1, hs[1..]);
      assert hs == [hs[0]] + hs[1..];
      if hs[0] in s.alternates {
        more := rest;
        OldFirst(s.alternates, hs[0], hs[1..], rest);
      } else {
        more := [hs[0]] + rest;
        NewFirst(s.alternates, hs[0], hs[1..], rest);
        Assoc(s.alternates, [hs[0]], rest);
      }
    }
  }

  // ------------------------------------------------------- what a handler may do

  /** Only the search for k has changed, to s, and one action was asked for. */
  ghost predicate Moves(w: Searches, w': Searches, k: Key, s: Search, a: Action) {
    && k in w.active && w'.active == w.active[k := s] && w'.actions == w.actions + [a]
    && w'.timers == w.timers && w'.nlc == w.nlc && w'.log == w.log
  }

  /** Only the search for k has ended, with one note and no action. */
  ghost predicate Ends(w: Searches, w': Searches, k: Key, note: Note, cached: bool) {
    && k in w.active && w'.active == w.active - {k} && w'.timers == w.timers - {k}
    && w'.nlc == (if cached then w.nlc + {k} else w.nlc)
    && w'.actions == w.actions && w'.log == w.log + [note]
  }

  /** A search begins: at the first of the starting points, with the others as alternates. */
  lemma CreateLaw(w: Searches, k: Key, points: seq<Hash>)
    requires points != []
    ensures Create(w, k, points).Ok?
    ensures var w' := Create(w, k, points).value;
      && (k in w.nlc ==> w' == w.(log := w.log + [Refused(k)]))
      && (k !in w.nlc && k in w.active ==> w' == w)
      && (k !in w.nlc && k !in w.active ==>
            && k in w'.active && w'.active == w.active[k := w'.active[k]] && w'.timers == w.timers + {k}
            && w'.nlc == w.nlc && w'.actions == w.actions + [Connect(points[0])] && w'.log == w.log + [Started(k)]
            && var s := w'.active[k];
            && s.phase == Connecting && s.goal == k && s.current == points[0] && s.excluded == [] && s.cursor == 0
            && s.alternates != [] && s.alternates[0] == points[0]
            && NewOnes([points[0]], points[1..], s.alternates[1..]))
  {
    var begun := NewSearch(k, points[0]);
    var more := Added(begun, points[1..]);
    AddAllKeeps(begun, points[1..]);
    CopyKeepsCursor(WithAlternates(begun, points[1..]));
    assert ([points[0]] + more)[1..] == more;
  }

  /** A router answers the connection: a search that was connecting to it asks it for the
      goal, leaving out the excluded routers. */
  lemma ConnectedLaw(w: Searches, h: Hash, pick: Option<Key>)
    requires Found(w, h, pick)
    ensures var w' := OnConnected(w, h, pick);
      if pick.Some? && w.active[pick.value].phase == Connecting
      then Moves(w, w', pick.value, w.active[pick.value].(phase := LookupSent),
                 Lookup(h, pick.value, w.active[pick.value].excluded))
      else w' == w
  {
  }

  /** Alternate j is the first behind the cursor that the database knows. */
  ghost predicate NextKnownAt(s: Search, known: set<Hash>, j: nat) {
    && s.cursor < j < |s.alternates| && s.alternates[j] in known
    && forall i :: s.cursor < i < j ==> s.alternates[i] !in known
  }

  ghost predicate KnownFrom(s: Search, known: set<Hash>, j: nat) {
    && s.cursor <= j < |s.alternates| && s.alternates[j] in known
    && forall i :: s.cursor <= i < j ==> s.alternates[i] !in known
  }

  lemma {:induction false} SkipLaw(s: Search, known: set<Hash>)
    requires ValidSearch(s)
    ensures forall j: nat :: KnownFrom(s, known, j) ==>
              SkipUnknown(s, known) == Some(s.(cursor := j, current := s.alternates[j]))
    ensures (forall j :: s.cursor <= j < |s.alternates| ==> s.alternates[j] !in known) ==> SkipUnknown(s, known) == None
    decreases Count(s)
  {
    if s.current !in known && Count(s) > 0 {
      PopKeeps(s);
      SkipLaw(Pop(s), known);
    }
  }

  /** A connection fails: the search at that router excludes it and connects to the next
      alternate the database knows, or fails if there is none. */
  lemma FailureLaw(w: Searches, h: Hash, pick: Option<Key>, known: set<Hash>)
    requires Found(w, h, pick) && AllValid(w.active)
    ensures var w' := OnConnectionFailure(w, h, pick, known);
      && (pick.None? ==> w' == w)
      && (pick.Some? ==>
            var k, s := pick.value, w.active[pick.value];
            && (forall j: nat :: NextKnownAt(s, known, j) ==>
                  Moves(w, w', k, s.(phase := Connecting, current := s.alternates[j], cursor := j,
                                     excluded := s.excluded + [h]), Connect(s.alternates[j])))
            && ((forall j: nat :: !NextKnownAt(s, known, j)) ==> Ends(w, w', k, Failed(k), true)))
  {
    if pick.Some? {
      var s := w.active[pick.value];
      if Count(s) > 0 {
        PopKeeps(s);
        SkipLaw(Pop(s), known);
        assert forall j: nat :: NextKnownAt(s, known, j) ==> KnownFrom(Pop(s), known, j);
        if forall j: nat :: !NextKnownAt(s, known, j) {
          NoneKnown(s, known);
        }
      }
    }
  }

  lemma {:induction false} FirstKnown(s: Search, known: set<Hash>, i: nat) returns (j: nat)
    requires s.cursor < i < |s.alternates| && s.alternates[i] in known
    ensures NextKnownAt(s, known, j)
    decreases i
  {
    j := i;
    if i' :| s.cursor < i' < i && s.alternates[i'] in known {
      j := FirstKnown(s, known, i');
    }
  }

  lemma NoneKnown(s: Search, known: set<Hash>)
    requires forall j: nat :: !NextKnownAt(s, known, j)
    ensures forall i :: s.cursor < i < |s.alternates| ==> s.alternates[i] !in known
  {
    forall i: nat | s.cursor < i < |s.alternates| ensures s.alternates[i] !in known {
      if s.alternates[i] in known {
        var j := FirstKnown(s, known, i);
      }
    }
  }

  /** A reply with other routers: they become alternates, the replier is excluded, and the
      search goes on to the next alternate: it connects to it if the database knows it, and
      asks the replier for it if not.  With no alternate left the search fails. */
  lemma ReplyLaw(w: Searches, from: Hash, query: Key, hashes: seq<Hash>, known: set<Hash>) returns (more: seq<Hash>)
    requires AllValid(w.active)
    ensures var w' := OnSearchReply(w, from, query, hashes, known);
      && (query !in w.active || w.active[query].phase != LookupSent ==> w' == w)
      && (query in w.active && w.active[query].phase == LookupSent ==>
            var s := w.active[query];
            var all, c, excluded := s.alternates + more, s.cursor + 1, s.excluded + [from];
            && NewOnes(s.alternates, hashes, more)
            && (c == |all| ==> Ends(w, w', query, Failed(query), true))
            && (c < |all| ==>
                  Moves(w, w', query, Search(Connecting, s.goal, all[c], excluded, all, c),
                        if all[c] in known then Connect(all[c]) else Lookup(from, all[c], excluded))))
  {
    more := [];
    if query in w.active && w.active[query].phase == LookupSent {
      more := Added(w.active[query], hashes);
    }
  }

  /** Something is stored: an active search for it ends, with success iff it is a RouterInfo;
      else the RouterInfo of a router that a search is at makes us connect to it. */
  lemma StoreLaw(w: Searches, from: Hash, k: Key, isRouterInfo: bool, pick: Option<Key>)
    requires Found(w, from, pick)
    ensures var w' := OnDatabaseStore(w, from, k, isRouterInfo, pick);
      && (k in w.active ==> Ends(w, w', k, if isRouterInfo then Succeeded(k) else Dropped(k), false))
      && (k !in w.active ==>
            w' == if isRouterInfo && k == from && pick.Some? then w.(actions := w.actions + [Connect(k)]) else w)
  {
  }

  lemma CancelLaw(w: Searches, k: Key)
    ensures if k in w.active then Ends(w, Cancelled(w, k), k, Failed(k), true) else Cancelled(w, k) == w
  {
  }

  // ------------------------------------------------------------ the actions of a run

  /** Why the router may be asked for: a connection to a router that is a starting point, is
      known to the database or was just stored; a lookup at a router that has just been
      connected to, for the goal of a search at it, or at one that has just replied, for a
      router the database does not know, leaving out the replier. */
  ghost predicate Justified(e: Event, a: Action) {
    match a
    case Connect(h) =>
      || (e.CreateSearch? && e.points != [] && h == e.points[0])
      || (e.ConnectionFailure? && h in e.known) || (e.SearchReply? && h in e.known)
      || (e.DatabaseStore? && e.isRouterInfo && h == e.k)
    case Lookup(to, key, excluded) =>
      || (e.Connected? && to == e.h && e.pick == Some(key))
      || (e.SearchReply? && to == e.from && key !in e.known && e.from in excluded)
  }

  /** At most one action, and that one justified. */
  ghost predicate OneJustified(e: Event, before: seq<Action>, after: seq<Action>) {
    after == before || exists a :: after == before + [a] && Justified(e, a)
  }

  lemma FailureJustified(w: Searches, e: Event)
    requires e.ConnectionFailure? && Found(w, e.h, e.pick) && AllValid(w.active)
    ensures OneJustified(e, w.actions, OnConnectionFailure(w, e.h, e.pick, e.known).actions)
  {
    FailureLaw(w, e.h, e.pick, e.known);
    if e.pick.Some? {
      var s := w.active[e.pick.value];
      if j: nat :| NextKnownAt(s, e.known, j) {
        assert Justified(e, Connect(s.alternates[j]));
      }
    }
  }

  lemma ReplyJustified(w: Searches, e: Event)
    requires e.SearchReply? && AllValid(w.active)
    ensures OneJustified(e, w.actions, OnSearchReply(w, e.from, e.query, e.hashes, e.known).actions)
  {
    var more := ReplyLaw(w, e.from, e.query, e.hashes, e.known);
    if e.query in w.active && w.active[e.query].phase == LookupSent {
      var s := w.active[e.query];
      var all, c, excluded := s.alternates + more, s.cursor + 1, s.excluded + [e.from];
      assert e.from in excluded;
      if c < |all| {
        assert Justified(e, if all[c] in e.known then Connect(all[c]) else Lookup(e.from, all[c], excluded));
      }
    }
  }

  lemma StepJustified(w: Searches, e: Event)
    requires Inv(w) && Enabled(w, e)
    ensures OneJustified(e, w.actions, Next(w, e).actions)
  {
    match e
    case CreateSearch(k, points) =>
      CreateLaw(w, k, points);
      assert Justified(e, Connect(points[0]));
    case Timeout(k) => CancelLaw(w, k);
    case Connected(h, pick) =>
      ConnectedLaw(w, h, pick);
      if pick.Some? {
        assert Justified(e, Lookup(h, pick.value, w.active[pick.value].excluded));
      }
    case ConnectionFailure(_, _, _) => FailureJustified(w, e);
    case SearchReply(_, _, _, _) => ReplyJustified(w, e);
    case DatabaseStore(from, k, isRouterInfo, pick) =>
      StoreLaw(w, from, k, isRouterInfo, pick);
      if isRouterInfo {
        assert Justified(e, Connect(k));
      }
  }

  ghost predicate JustifiedBy(es: seq<Event>, a: Action) {
    exists i :: 0 <= i < |es| && Justified(es[i], a)
  }

  lemma {:induction false} RunJustified(w: Searches, es: seq<Event>, a: Action)
    requires Inv(w) && CanRun(w, es)
    ensures |Run(w, es).actions| <= |w.actions| + |es|
    ensures a in Run(w, es).actions ==> a in w.actions || JustifiedBy(es, a)
    decreases es
  {
    if es != [] {
      StepKeeps(w, es[0]);
      StepJustified(w, es[0]);
      RunJustified(Next(w, es[0]), es[1..], a);
      if a in Run(w, es).actions && JustifiedBy(es[1..], a) {
        var i :| 0 <= i < |es[1..]| && Justified(es[1..][i], a);
        assert Justified(es[i + 1], a);
      } else if a in Run(w, es).actions && a !in w.actions {
        assert Justified(es[0], a);
      }
    }
  }

  /** Everything a run of searches asks for has its reason in an event of the run: no router
      is connected to that is not a starting point, known or just stored, and no router is
      asked that is not connected or has not just replied.  No event asks for more than one
      thing. */
  lemma {:induction false} ActionsJustified(es: seq<Event>, a: Action)
    requires CanRun(NONE, es)
    ensures |Run(NONE, es).actions| <= |es|
    ensures a in Run(NONE, es).actions ==> JustifiedBy(es, a)
  {
    assert Balanced(map[], []);
    RunJustified(NONE, es, a);
  }
}
