/** `AcknowledgementManager`: once a second every peer is told which of its
    messages are complete and which fragments of the others arrived. */
module SsuAck {
  import opened Bytes
  import opened Lists
  import opened SsuPacket
  import opened SsuOutbound
  import opened SsuInbound

  datatype AckPacket = AckPacket(peer: RouterHash, complete: seq<uint32>, partial: seq<PartialAck>)

  function Ids(partial: seq<PartialAck>): (r: seq<uint32>)
    ensures |r| == |partial| && forall i :: 0 <= i < |r| ==> r[i] == partial[i].msgId
  {
    seq(|partial|, i requires 0 <= i < |partial| => partial[i].msgId)
  }

  /** The two lists name every message of `ids` exactly once: the complete ones in
      the first, the others with their bitfield in the second. */
  ghost predicate Summary(inb: InTable, ids: set<uint32>, complete: seq<uint32>, partial: seq<PartialAck>) {
    && NoDuplicates(complete) && NoDuplicates(Ids(partial))
    && (forall i :: 0 <= i < |complete| ==>
          complete[i] in ids && complete[i] in inb && AllReceived(inb[complete[i]].state))
    && (forall i :: 0 <= i < |partial| ==>
          && partial[i].msgId in ids && partial[i].msgId in inb
          && !AllReceived(inb[partial[i].msgId].state)
          && partial[i].bits == FragmentsReceived(inb[partial[i].msgId].state))
    && (forall id :: id in ids ==> id in complete || id in Ids(partial))
  }

  lemma AddComplete(inb: InTable, ids: set<uint32>, complete: seq<uint32>, partial: seq<PartialAck>, id: uint32)
    requires Summary(inb, ids, complete, partial)
    requires id in inb && id !in ids && AllReceived(inb[id].state)
    ensures Summary(inb, ids + {id}, complete + [id], partial)
  {
    forall k | k in ids + {id} ensures k in complete + [id] || k in Ids(partial) {
      if k == id {
        assert (complete + [id])[|complete|] == id;
      }
    }
  }

  lemma AddPartial(inb: InTable, ids: set<uint32>, complete: seq<uint32>, partial: seq<PartialAck>, a: PartialAck)
    requires Summary(inb, ids, complete, partial)
    requires a.msgId in inb && a.msgId !in ids && !AllReceived(inb[a.msgId].state)
    requires a.bits == FragmentsReceived(inb[a.msgId].state)
    ensures Summary(inb, ids + {a.msgId}, complete, partial + [a])
  {
    assert Ids(partial + [a]) == Ids(partial) + [a.msgId];
    forall k | k in ids + {a.msgId} ensures k in complete || k in Ids(partial + [a]) {
      if k == a.msgId {
        assert Ids(partial + [a])[|partial|] == k;
      }
    }
  }

  /** The table without the complete messages of `ids`. */
  function Without(inb: InTable, ids: set<uint32>): InTable {
    map id | id in inb && !(id in ids && AllReceived(inb[id].state)) :: inb[id]
  }

  function Incomplete(inb: InTable): InTable {
    map id | id in inb && !AllReceived(inb[id].state) :: inb[id]
  }

  ghost function OfPeer(inb: InTable, peer: RouterHash): set<uint32> {
    set id | id in inb && inb[id].hash == peer
  }

  lemma WithoutMore(inb: InTable, a: set<uint32>, b: set<uint32>)
    ensures Without(Without(inb, a), b) == Without(inb, a + b)
  {
  }

  lemma FlushComplete(inb: InTable, done: set<uint32>, complete: seq<uint32>, partial: seq<PartialAck>, id: uint32)
    requires Summary(inb, done, complete, partial) && id in inb && id !in done && AllReceived(inb[id].state)
    ensures Summary(inb, done + {id}, complete + [id], partial)
    ensures Without(inb, done) - {id} == Without(inb, done + {id})
  {
    AddComplete(inb, done, complete, partial, id);
  }

  lemma FlushPartial(inb: InTable, done: set<uint32>, complete: seq<uint32>, partial: seq<PartialAck>, id: uint32)
    requires Summary(inb, done, complete, partial) && id in inb && id !in done && !AllReceived(inb[id].state)
    ensures Summary(inb, done + {id}, complete, partial + [PartialAck(id, FragmentsReceived(inb[id].state))])
    ensures Without(inb, done) == Without(inb, done + {id})
  {
    AddPartial(inb, done, complete, partial, PartialAck(id, FragmentsReceived(inb[id].state)));
  }

  lemma SummaryBefore(inb: InTable, done: set<uint32>, ids: set<uint32>, complete: seq<uint32>,
                      partial: seq<PartialAck>)
    requires Summary(Without(inb, done), ids, complete, partial)
    ensures Summary(inb, ids, complete, partial)
  {
  }

  /** The peers of all entries, and of those in `todo`. */
  ghost function Peers(inb: InTable): set<RouterHash> {
    set id | id in inb :: inb[id].hash
  }

  ghost function Waiting(inb: InTable, todo: set<uint32>): set<RouterHash>
    requires todo <= inb.Keys
  {
    set id | id in todo :: inb[id].hash
  }

  lemma AllWaiting(inb: InTable)
    ensures Waiting(inb, inb.Keys) == Peers(inb)
  {
  }

  lemma NoneWaiting(inb: InTable)
    ensures Waiting(inb, {}) == {}
  {
  }

  /** Serving a peer takes exactly that peer off. */
  lemma FewerWaiting(inb: InTable, todo: set<uint32>, peer: RouterHash, group: set<uint32>)
    requires todo <= inb.Keys && group == (set id | id in todo && inb[id].hash == peer) && peer in Waiting(inb, todo)
    ensures Waiting(inb, todo - group) == Waiting(inb, todo) - {peer}
    ensures |Waiting(inb, todo - group)| == |Waiting(inb, todo)| - 1
  {
  }

  /** Where `flushAckCallback` stands: `todo` holds the entries of the peers that
      have not been served. */
  ghost predicate Served(inb: InTable, todo: set<uint32>, packets: seq<AckPacket>) {
    && todo <= inb.Keys
    && (forall i :: 0 <= i < |packets| ==>
          Summary(inb, OfPeer(inb, packets[i].peer), packets[i].complete, packets[i].partial))
    && (forall i, j :: 0 <= i < j < |packets| ==> packets[i].peer != packets[j].peer)
    && (forall i, id :: 0 <= i < |packets| && id in todo ==> packets[i].peer != inb[id].hash)
    && (forall id :: id in inb && id !in todo ==> exists i :: 0 <= i < |packets| && packets[i].peer == inb[id].hash)
  }

  lemma ServeOne(inb: InTable, todo: set<uint32>, packets: seq<AckPacket>, p: AckPacket, group: set<uint32>)
    requires Served(inb, todo, packets)
    requires group == (set id | id in todo && inb[id].hash == p.peer) && group != {}
    requires Summary(inb, group, p.complete, p.partial)
    ensures Served(inb, todo - group, packets + [p])
  {
    var next :| next in group;
    assert OfPeer(inb, p.peer) == group;
    var all := packets + [p];
    forall id | id in inb && id !in todo - group ensures exists i :: 0 <= i < |all| && all[i].peer == inb[id].hash {
      if id in group {
        assert all[|packets|].peer == inb[id].hash;
      } else {
        var i :| 0 <= i < |packets| && packets[i].peer == inb[id].hash;
        assert all[i].peer == inb[id].hash;
      }
    }
  }

  /** The table and the packets once all but `todo` has been dealt with. */
  ghost predicate Midway(inb: InTable, states: InTable, todo: set<uint32>, packets: seq<AckPacket>) {
    Served(inb, todo, packets) && states == Without(inb, inb.Keys - todo)
  }

  /** Each of n rounds has served one peer that is known. */
  ghost predicate Progress(inb: InTable, todo: set<uint32>, known: set<RouterHash>, n: nat) {
    && todo <= inb.Keys && Waiting(inb, todo) <= Peers(inb) && Peers(inb) - Waiting(inb, todo) <= known
    && |Peers(inb)| == n + |Waiting(inb, todo)|
  }

  lemma ServeRound(inb: InTable, todo: set<uint32>, packets: seq<AckPacket>, p: AckPacket, group: set<uint32>,
                   known: set<RouterHash>, n: nat)
    requires Served(inb, todo, packets) && Progress(inb, todo, known, n) && p.peer in known
    requires p.peer in Waiting(inb, todo) && group == (set id | id in todo && inb[id].hash == p.peer)
    requires Summary(Without(inb, inb.Keys - todo), group, p.complete, p.partial)
    ensures Midway(inb, Without(Without(inb, inb.Keys - todo), group), todo - group, packets + [p])
    ensures Progress(inb, todo - group, known, n + 1)
  {
    SummaryBefore(inb, inb.Keys - todo, group, p.complete, p.partial);
    WithoutMore(inb, inb.Keys - todo, group);
    assert inb.Keys - (todo - group) == (inb.Keys - todo) + group;
    ServeOne(inb, todo, packets, p, group);
    FewerWaiting(inb, todo, p.peer, group);
  }

  method IsComplete(st: InState) returns (all: bool)
    requires TotalRight(st)
    ensures all <==> AllReceived(st)
  {
    var ims := new InboundMessageState(st);
    all := ims.AllFragmentsReceived();
  }

  class AcknowledgementManager {
    const imf: InboundMessageFragments

    constructor (imf: InboundMessageFragments)
      ensures this.imf == imf
    {
      this.imf := imf;
    }

    /** The inner loop: the entries of one peer; complete ones leave the table. */
    method FlushPeer(ids: set<uint32>) returns (complete: seq<uint32>, partial: seq<PartialAck>)
      requires imf.Valid() && ids <= imf.states.Keys
      modifies imf`states
      ensures imf.Valid()
      ensures Summary(old(imf.states), ids, complete, partial)
      ensures imf.states == Without(old(imf.states), ids)
    {
      complete, partial := [], [];
      var todo := ids;
      ghost var inb, done := imf.states, {};
      while todo != {}
        invariant todo <= ids && done == ids - todo && imf.Valid()
        invariant Summary(inb, done, complete, partial)
        invariant imf.states == Without(inb, done)
        decreases todo
      {
        var id :| id in todo;
        var st := imf.states[id].state;
        var all := IsComplete(st);
        if all {
          FlushComplete(inb, done, complete, partial, id);
          complete := complete + [id];
          imf.states := imf.states - {id};
        } else {
          FlushPartial(inb, done, complete, partial, id);
          partial := partial + [PartialAck(id, FragmentsReceived(st))];
        }
        todo, done := todo - {id}, done + {id};
      }
    }

    /** `flushAckCallback`, for as many rounds of its outer loop: one packet to each peer
        that has an entry, and the complete messages leave the table.  At an entry of a peer
        that is gone the loop turns without getting any further. */
    method FlushAckCallback(known: set<RouterHash>, rounds: nat) returns (packets: seq<AckPacket>, done: bool)
      requires imf.Valid()
      modifies imf`states
      ensures imf.Valid()
      ensures done <==> Peers(old(imf.states)) <= known && |Peers(old(imf.states))| <= rounds
      ensures done ==> imf.states == Incomplete(old(imf.states)) && Served(old(imf.states), {}, packets)
      ensures !done ==> exists todo :: todo != {} && Midway(old(imf.states), imf.states, todo, packets)
    {
      ghost var inb := imf.states;
      packets := [];
      var todo, left := imf.states.Keys, rounds;
      AllWaiting(inb);
      while todo != {} && left > 0
        invariant imf.Valid() && todo <= imf.states.Keys
        invariant Midway(inb, imf.states, todo, packets)
        invariant Progress(inb, todo, known, rounds - left)
        decreases left
      {
        var next :| next in todo;
        var peer := imf.states[next].hash;
        assert peer == inb[next].hash && peer in Waiting(inb, todo);
        if peer !in known {
          return packets, false;
        }
        var group := set id | id in todo && imf.states[id].hash == peer;
        var complete, partial := FlushPeer(group);
        ServeRound(inb, todo, packets, AckPacket(peer, complete, partial), group, known, rounds - left);
        packets := packets + [AckPacket(peer, complete, partial)];
        todo, left := todo - group, left - 1;
      }
      done := todo == {};
      if done {
        NoneWaiting(inb);
      } else {
        var next :| next in todo;
        assert inb[next].hash in Waiting(inb, todo);
      }
    }
  }
}
