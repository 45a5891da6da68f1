/** How often a message is posted: `checkAndPost` runs after every fragment, so a complete
    message is posted again with every repeat until a flush or a timeout erases its state. */
module SsuPosts {
  import opened Bytes
  import opened SsuPacket
  import opened SsuOutbound
  import opened SsuInbound
  import opened SsuReassembly
  import opened SsuAck
  import opened SsuProtocol

  function Copies(posts: seq<Post>, id: uint32): nat {
    if posts == [] then 0
    else Copies(posts[..|posts| - 1], id) + if posts[|posts| - 1].msgId == id then 1 else 0
  }

  // ------------------------------------------------------ what the steps alone say

  /** All of n fragments. */
  ghost predicate AllOf(n: nat, got: set<nat>) {
    forall k :: 0 <= k < n ==> k in got
  }

  /** The fragments of a message of n fragments that have arrived since its state was last
      erased, before and after a step. */
  ghost function AfterStep(s: Step, id: uint32, n: nat, got: set<nat>): set<nat> {
    match s
    case DeliverData(f) => if f.msgId == id then got + {f.fragNum as nat} else got
    case Flush(_, _) => if AllOf(n, got) then {} else got
    case Expire(i) => if i == id then {} else got
    case _ => got
  }

  ghost function Window(steps: seq<Step>, id: uint32, n: nat): set<nat> {
    if steps == [] then {} else AfterStep(steps[|steps| - 1], id, n, Window(steps[..|steps| - 1], id, n))
  }

  /** The step is an arrival after which everything since the last erasure is there. */
  ghost function Completes(s: Step, id: uint32, n: nat, got: set<nat>): nat {
    if s.DeliverData? && s.frag.msgId == id && AllOf(n, AfterStep(s, id, n, got)) then 1 else 0
  }

  ghost function Completions(steps: seq<Step>, id: uint32, n: nat): nat {
    if steps == [] then 0
    else
      var before := steps[..|steps| - 1];
      Completions(before, id, n) + Completes(steps[|steps| - 1], id, n, Window(before, id, n))
  }

  // --------------------------------------------------------- and what the world does

  /** The receiver holds exactly `got` of the message and has posted it `count` times. */
  ghost predicate Tracks(w: World, id: uint32, got: set<nat>, count: nat) {
    Holds(w.inb, id, got) && Copies(w.posts, id) == count
  }

  ghost predicate Holds(inb: InTable, id: uint32, got: set<nat>) {
    if id in inb then got != {} && Got(inb[id].state) == got else got == {}
  }

  lemma CopiesOne(posts: seq<Post>, p: Post, id: uint32)
    ensures Copies(posts + [p], id) == Copies(posts, id) + if p.msgId == id then 1 else 0
  {
    assert (posts + [p])[..|posts|] == posts;
  }

  /** Posting for one message leaves the count of the others alone. */
  lemma CopiesPosted(posts: seq<Post>, e: Entry, i: uint32, id: uint32)
    ensures Copies(posts + Posted(e, i), id) == Copies(posts, id) + if i == id then |Posted(e, i)| else 0
  {
    if Posted(e, i) == [] {
      assert posts + [] == posts;
    } else {
      CopiesOne(posts, Posted(e, i)[0], id);
    }
  }

  /** A piece of the message arrives: it is posted iff now all of it is there. */
  lemma ArrivalPosts(m: map<uint32, seq<byte>>, cuts: Cuts, seen: Seen, inb: InTable, f: Fragment, got: set<nat>)
    requires CutsOk(m, cuts) && IsPiece(cuts, f) && Holds(inb, f.msgId, got)
    requires f.msgId in inb ==> EntryOk(cuts[f.msgId], seen, f.msgId, inb[f.msgId])
    ensures var e, got' := Updated(inb, PEER, f), got + {f.fragNum as nat};
      Got(e.state) == got' && |Posted(e, f.msgId)| == if AllOf(|cuts[f.msgId]|, got') then 1 else 0
  {
    var id, cut := f.msgId, cuts[f.msgId];
    var e := Updated(inb, PEER, f);
    if id in inb {
      UpdatedState(inb[id].state, cut, f.fragNum);
    } else {
      KnowsNothing(cut);
      assert Got(EMPTY) == {};
      UpdatedState(EMPTY, cut, f.fragNum);
    }
    UpdatedOk(cut, seen, inb, f);
    CompleteIffWhole(e.state, cut, Got(e.state));
    if AllReceived(e.state) {
      CompletePosts(cut, id, e);
    }
  }

  /** What the invariant says of a piece on its way, and of a message being received. */
  lemma PieceFacts(w: World, f: Fragment)
    requires Inv(w) && Data(f) in w.net
    ensures CutsOk(w.messages, w.cuts) && IsPiece(w.cuts, f) && f.fragNum < 128 && |f.data| <= 1120
    ensures f.msgId in w.inb ==> EntryOk(w.cuts[f.msgId], w.seen, f.msgId, w.inb[f.msgId])
  {
    assert IsPiece(w.cuts, f) && GoodCut(f.msgId, w.cuts[f.msgId]);
  }

  lemma EntryFacts(w: World, id: uint32)
    requires Inv(w) && id in w.inb
    ensures id in w.cuts && w.cuts[id] != [] && Knows(w.inb[id].state, w.cuts[id], Got(w.inb[id].state))
  {
    assert EntryOk(w.cuts[id], w.seen, id, w.inb[id]) && GoodCut(id, w.cuts[id]);
  }

  lemma FiledTracks(w: World, f: Fragment, e: Entry, id: uint32, got: set<nat>, got': set<nat>, count: nat, more: nat)
    requires Tracks(w, id, got, count)
    requires if f.msgId == id then Got(e.state) == got' && got' != {} && more == |Posted(e, id)|
             else got' == got && more == 0
    ensures Tracks(Filed(w, f, e), id, got', count + more)
  {
    CopiesPosted(w.posts, e, f.msgId, id);
  }

  lemma DeliverTracks(w: World, f: Fragment, id: uint32, n: nat, got: set<nat>, count: nat)
    requires Tracks(w, id, got, count) && (id in w.cuts ==> |w.cuts[id]| == n)
    requires CutsOk(w.messages, w.cuts) && IsPiece(w.cuts, f) && f.fragNum < 128 && |f.data| <= 1120
    requires f.msgId in w.inb ==> EntryOk(w.cuts[f.msgId], w.seen, f.msgId, w.inb[f.msgId])
    ensures var s := DeliverData(f);
      Tracks(Filed(w, f, Updated(w.inb, PEER, f)), id, AfterStep(s, id, n, got), count + Completes(s, id, n, got))
  {
    var s := DeliverData(f);
    if f.msgId == id {
      ArrivalPosts(w.messages, w.cuts, w.seen, w.inb, f, got);
      assert f.fragNum as nat in AfterStep(s, id, n, got);
    }
    FiledTracks(w, f, Updated(w.inb, PEER, f), id, got, AfterStep(s, id, n, got), count, Completes(s, id, n, got));
  }

  lemma DeliverStep(w: World, f: Fragment, id: uint32, n: nat, got: set<nat>, count: nat)
    requires Inv(w) && Data(f) in w.net && Tracks(w, id, got, count) && (id in w.cuts ==> |w.cuts[id]| == n)
    ensures var s := DeliverData(f);
      Tracks(AtReceiver(w, ReadData(Wire(f)).events), id, AfterStep(s, id, n, got), count + Completes(s, id, n, got))
  {
    PieceFacts(w, f);
    DeliveredPiece(w, f);
    DeliverTracks(w, f, id, n, got, count);
  }

  /** A flush erases what is complete. */
  lemma FlushHolds(inb: InTable, cut: seq<Fragment>, id: uint32, n: nat, got: set<nat>)
    requires Holds(inb, id, got) && n > 0
    requires id in inb ==> |cut| == n && Knows(inb[id].state, cut, got)
    ensures Holds(Incomplete(inb), id, if AllOf(n, got) then {} else got)
  {
    if id in inb {
      CompleteIffWhole(inb[id].state, cut, got);
    } else {
      assert 0 !in got;
    }
  }

  lemma FlushTracks(w: World, c: seq<uint32>, p: seq<PartialAck>, id: uint32, n: nat, got: set<nat>, count: nat)
    requires Tracks(w, id, got, count) && n > 0
    requires id in w.inb ==> id in w.cuts && |w.cuts[id]| == n && Knows(w.inb[id].state, w.cuts[id], got)
    ensures Tracks(Flushed(w, c, p), id, AfterStep(Flush(c, p), id, n, got), count)
  {
    FlushHolds(w.inb, if id in w.cuts then w.cuts[id] else [], id, n, got);
  }

  lemma FlushStep(w: World, c: seq<uint32>, p: seq<PartialAck>, id: uint32, n: nat, got: set<nat>, count: nat)
    requires Inv(w) && Tracks(w, id, got, count) && n > 0 && (id in w.cuts ==> |w.cuts[id]| == n)
    ensures Tracks(Flushed(w, c, p), id, AfterStep(Flush(c, p), id, n, got), count)
  {
    if id in w.inb {
      EntryFacts(w, id);
    }
    FlushTracks(w, c, p, id, n, got, count);
  }

  lemma ExpireTracks(w: World, i: uint32, id: uint32, n: nat, got: set<nat>, count: nat)
    requires Tracks(w, id, got, count)
    ensures Tracks(TimedOut(w, i), id, AfterStep(Expire(i), id, n, got), count)
  {
  }

  /** Nothing else touches the receiver. */
  lemma QuietStep(w: World, s: Step)
    requires !s.DeliverData? && !s.Flush? && !s.Expire?
    ensures Next(w, s).inb == w.inb && Next(w, s).posts == w.posts
  {
  }

  lemma QuietTracks(w: World, s: Step, id: uint32, n: nat, got: set<nat>, count: nat)
    requires Tracks(w, id, got, count) && !s.DeliverData? && !s.Flush? && !s.Expire?
    ensures Tracks(Next(w, s), id, AfterStep(s, id, n, got), count + Completes(s, id, n, got))
  {
    QuietStep(w, s);
  }

  lemma StepTracks(w: World, s: Step, id: uint32, n: nat, got: set<nat>, count: nat)
    requires Inv(w) && Enabled(w, s) && Tracks(w, id, got, count) && (id in w.cuts ==> |w.cuts[id]| == n) && n > 0
    ensures Tracks(Next(w, s), id, AfterStep(s, id, n, got), count + Completes(s, id, n, got))
  {
    match s
    case DeliverData(f) =>
      DeliverStep(w, f, id, n, got, count);
    case Flush(c, p) =>
      FlushStep(w, c, p, id, n, got, count);
    case Expire(i) =>
      ExpireTracks(w, i, id, n, got, count);
    case _ =>
      QuietTracks(w, s, id, n, got, count);
  }

  /** The last step of a run. */
  lemma {:induction false} RunLast(w: World, steps: seq<Step>)
    requires CanRun(w, steps) && steps != []
    ensures var m := |steps| - 1;
      && CanRun(w, steps[..m]) && Enabled(Run(w, steps[..m]), steps[m])
      && Run(w, steps) == Next(Run(w, steps[..m]), steps[m])
    decreases steps
  {
    var m := |steps| - 1;
    if m == 0 {
      assert steps[..0] == [] && steps[1..] == [];
    } else {
      assert steps[..m][0] == steps[0] && steps[..m][1..] == steps[1..][..m - 1];
      RunLast(Next(w, steps[0]), steps[1..]);
    }
  }

  /** A message keeps its fragments. */
  lemma CutBefore(w: World, s: Step, id: uint32, n: nat)
    requires Inv(w) && Enabled(w, s) && (id in Next(w, s).cuts ==> |Next(w, s).cuts[id]| == n)
    ensures id in w.cuts ==> |w.cuts[id]| == n
  {
    NextCuts(w, s);
  }

  lemma RunInv(steps: seq<Step>)
    requires CanRun(START, steps)
    ensures Inv(Run(START, steps))
  {
    assert Inv(START);
    RunKeeps(START, steps);
  }

  lemma TracksNothing(id: uint32, n: nat)
    ensures Tracks(START, id, Window([], id, n), Completions([], id, n))
  {
  }

  lemma WindowMore(before: seq<Step>, s: Step, id: uint32, n: nat)
    ensures Window(before + [s], id, n) == AfterStep(s, id, n, Window(before, id, n))
    ensures Completions(before + [s], id, n)
         == Completions(before, id, n) + Completes(s, id, n, Window(before, id, n))
  {
    assert (before + [s])[..|before|] == before;
  }

  lemma TracksMore(w: World, before: seq<Step>, s: Step, id: uint32, n: nat)
    requires Inv(w) && Enabled(w, s) && (id in w.cuts ==> |w.cuts[id]| == n) && n > 0
    requires Tracks(w, id, Window(before, id, n), Completions(before, id, n))
    ensures Tracks(Next(w, s), id, Window(before + [s], id, n), Completions(before + [s], id, n))
  {
    WindowMore(before, s, id, n);
    StepTracks(w, s, id, n, Window(before, id, n), Completions(before, id, n));
  }

  /** The run before its last step has the same fragments of the message, if any. */
  lemma CutsBefore(steps: seq<Step>, id: uint32, n: nat)
    requires CanRun(START, steps) && steps != []
    requires id in Run(START, steps).cuts ==> |Run(START, steps).cuts[id]| == n
    ensures var w := Run(START, steps[..|steps| - 1]);
      Inv(w) && CanRun(START, steps[..|steps| - 1]) && (id in w.cuts ==> |w.cuts[id]| == n)
  {
    var m := |steps| - 1;
    RunLast(START, steps);
    RunInv(steps[..m]);
    CutBefore(Run(START, steps[..m]), steps[m], id, n);
  }

  lemma {:induction false} RunTracks(steps: seq<Step>, id: uint32, n: nat)
    requires CanRun(START, steps) && n > 0
    requires id in Run(START, steps).cuts ==> |Run(START, steps).cuts[id]| == n
    ensures Tracks(Run(START, steps), id, Window(steps, id, n), Completions(steps, id, n))
  {
    if steps == [] {
      TracksNothing(id, n);
    } else {
      var m := |steps| - 1;
      CutsBefore(steps, id, n);
      RunTracks(steps[..m], id, n);
      RunLast(START, steps);
      assert steps == steps[..m] + [steps[m]];
      TracksMore(Run(START, steps[..m]), steps[..m], steps[m], id, n);
    }
  }

  /** The exact number of posts.  In every run, a message of n fragments has been posted
      once for every arrival of one of its fragments after which all n have arrived since
      its state was last erased, by a timeout or by a flush that found it complete. */
  lemma {:induction false} PostCount(steps: seq<Step>, id: uint32)
    requires CanRun(START, steps) && id in Run(START, steps).messages
    ensures var w := Run(START, steps);
      Copies(w.posts, id) == Completions(steps, id, FragmentCount(|w.messages[id]|))
  {
    var w := Run(START, steps);
    RunInv(steps);
    assert GoodCut(id, w.cuts[id]);
    RunTracks(steps, id, FragmentCount(|w.messages[id]|));
  }
}
