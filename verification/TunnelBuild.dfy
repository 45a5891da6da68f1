/** The creator's side of a tunnel build: `Tunnel`, `OutboundTunnel` and
    `InboundTunnel`. */
module TunnelBuild {
  import opened Bytes
  import opened BuildRecords

  datatype Identity = Identity(hash: Bytes32, encKey: seq<byte>)

  /** What the random generator and the clock supply for one record; `exponent` is
      drawn by the ElGamal encryption. */
  datatype Nonce = Nonce(
    tunnelId: uint32, nextTunnelId: uint32, layerKey: Bytes32, ivKey: Bytes32,
    replyKey: Bytes32, replyIV: Bytes16, nextMsgId: uint32, requestTime: uint32, exponent: seq<byte>)

  datatype Hop = Hop(req: Request, encKey: seq<byte>, exponent: seq<byte>, record: Record)

  datatype State = Requested | Operational | Failed

  function Truncated(hash: Bytes32): Bytes16 {
    hash[..16]
  }

  function ReplyKeys(hops: seq<Hop>): (keys: seq<LayerKey>)
    ensures |keys| == |hops| && forall i :: 0 <= i < |hops| ==> keys[i] == Reply(hops[i].req)
  {
    seq(|hops|, i requires 0 <= i < |hops| => Reply(hops[i].req))
  }

  // ------------------------------------------------------------------ the onion

  /** The record of a hop as that hop must see it. */
  function Base(c: Crypto, h: Hop): Record {
    Record(Truncated(h.req.localHash), Sealed(c, h.encKey, h.exponent, RequestBytes(h.req)))
  }

  /** D_i(D_i+1(... D_j-1(r))): the layers the hops i..j-1 will peel, in that order. */
  function Layered(c: Crypto, keys: seq<LayerKey>, i: nat, j: nat, r: Record): Record
    requires i <= j <= |keys|
    decreases j - i
  {
    if i == j then r else c.dec(keys[i], Layered(c, keys, i + 1, j, r))
  }

  /** E_j-1(... E_i+1(E_i(r))): what the hops i..j-1 have put around r. */
  function Wrapped(c: Crypto, keys: seq<LayerKey>, i: nat, j: nat, r: Record): Record
    requires i <= j <= |keys|
    decreases j - i
  {
    if i == j then r else c.enc(keys[j - 1], Wrapped(c, keys, i, j - 1, r))
  }

  /** Record i carries exactly the layers of the hops before it. */
  predicate Secured(c: Crypto, keys: seq<LayerKey>, hops: seq<Hop>)
    requires |hops| <= |keys|
  {
    forall i :: 0 <= i < |hops| ==> hops[i].record == Layered(c, keys, 0, i, Base(c, hops[i]))
  }

  // ------------------------------------------------------------------ the chain

  /** Every hop names the next one; the last names where the tunnel ends. */
  predicate Linked(hops: seq<Hop>, endHash: Bytes32, endId: uint32) {
    && (forall k :: 0 <= k < |hops| - 1 ==>
          && hops[k].req.nextHash == hops[k + 1].req.localHash
          && hops[k].req.nextTunnelId == hops[k + 1].req.tunnelId)
    && (hops != [] ==>
          hops[|hops| - 1].req.nextHash == endHash && hops[|hops| - 1].req.nextTunnelId == endId)
  }

  predicate Drawn(h: Hop, id: Identity, n: Nonce) {
    && h.req.localHash == id.hash && h.encKey == id.encKey && h.exponent == n.exponent
    && h.req.tunnelId == n.tunnelId && h.req.layerKey == n.layerKey && h.req.ivKey == n.ivKey
    && h.req.replyKey == n.replyKey && h.req.replyIV == n.replyIV
    && h.req.nextMsgId == n.nextMsgId && h.req.requestTime == n.requestTime
  }

  const BLANK: Record := Record(Zeros(16), Zeros(512))

  /** The constructors of `BuildRequestRecord`; the flags start at zero. */
  function NewHop(id: Identity, n: Nonce, nextHash: Bytes32, nextTunnelId: uint32): Hop {
    Hop(Request(n.tunnelId, id.hash, nextTunnelId, nextHash, n.layerKey, n.ivKey, n.replyKey, n.replyIV,
                0, n.requestTime, n.nextMsgId),
        id.encKey, n.exponent, BLANK)
  }

  function SetType(h: Hop, t: HopType): Hop {
    h.(req := h.req.(flags := WithType(h.req.flags, t)))
  }

  /** The same hops but for the records. */
  predicate SameRequests(a: seq<Hop>, b: seq<Hop>) {
    && |a| == |b|
    && forall k :: 0 <= k < |a| ==> a[k].req == b[k].req && a[k].encKey == b[k].encKey && a[k].exponent == b[k].exponent
  }

  lemma SameKeys(a: seq<Hop>, b: seq<Hop>)
    requires SameRequests(a, b)
    ensures ReplyKeys(a) == ReplyKeys(b)
  {
  }

  /** The hops were made for the routers ids[i..]. */
  predicate DrawnFrom(hops: seq<Hop>, ids: seq<Identity>, nonces: seq<Nonce>, i: nat) {
    && |hops| + i == |ids| == |nonces|
    && forall k :: 0 <= k < |hops| ==> Drawn(hops[k], ids[i + k], nonces[i + k])
  }

  /** The hops were made for the first routers of `ids`, the nearest one last. */
  predicate DrawnBack(hops: seq<Hop>, ids: seq<Identity>, nonces: seq<Nonce>) {
    && |hops| <= |ids| == |nonces|
    && forall k :: 0 <= k < |hops| ==> Drawn(hops[|hops| - 1 - k], ids[k], nonces[k])
  }

  predicate EndpointLast(hops: seq<Hop>) {
    forall k :: 0 <= k < |hops| ==> TypeOf(hops[k].req.flags) == if k == |hops| - 1 then Endpoint else Participant
  }

  predicate GatewayFirst(hops: seq<Hop>) {
    forall k :: 0 <= k < |hops| ==> TypeOf(hops[k].req.flags) == if k == 0 then Gateway else Participant
  }

  predicate Unflagged(hops: seq<Hop>) {
    forall k :: 0 <= k < |hops| ==> hops[k].req.flags == 0
  }

  lemma LinkFront(h: Hop, hops: seq<Hop>, endHash: Bytes32, endId: uint32)
    requires Linked(hops, endHash, endId)
    requires h.req.nextHash == (if hops == [] then endHash else hops[0].req.localHash)
    requires h.req.nextTunnelId == (if hops == [] then endId else hops[0].req.tunnelId)
    ensures Linked([h] + hops, endHash, endId)
  {
  }

  lemma DrawFront(h: Hop, hops: seq<Hop>, ids: seq<Identity>, nonces: seq<Nonce>, i: nat)
    requires DrawnFrom(hops, ids, nonces, i + 1) && Drawn(h, ids[i], nonces[i])
    ensures DrawnFrom([h] + hops, ids, nonces, i)
  {
  }

  lemma DrawBackFront(h: Hop, hops: seq<Hop>, ids: seq<Identity>, nonces: seq<Nonce>)
    requires DrawnBack(hops, ids, nonces) && |hops| < |ids| && Drawn(h, ids[|hops|], nonces[|hops|])
    ensures DrawnBack([h] + hops, ids, nonces)
  {
  }

  /** None of this looks at the records. */
  lemma SecuringKeeps(a: seq<Hop>, b: seq<Hop>, endHash: Bytes32, endId: uint32)
    requires SameRequests(a, b)
    ensures Linked(a, endHash, endId) ==> Linked(b, endHash, endId)
    ensures EndpointLast(a) ==> EndpointLast(b)
    ensures GatewayFirst(a) ==> GatewayFirst(b)
  {
  }

  lemma SecuringKeepsDraws(a: seq<Hop>, b: seq<Hop>, ids: seq<Identity>, nonces: seq<Nonce>)
    requires SameRequests(a, b)
    ensures DrawnFrom(a, ids, nonces, 0) ==> DrawnFrom(b, ids, nonces, 0)
    ensures DrawnBack(a, ids, nonces) ==> DrawnBack(b, ids, nonces)
  {
  }

  lemma LastHopType(h: Hop)
    requires h.req.flags == 0
    ensures TypeOf(SetType(h, Endpoint).req.flags) == Endpoint && TypeOf(SetType(h, Gateway).req.flags) == Gateway
  {
  }

  /** The loop of `OutboundTunnel`: from the endpoint back to the first hop. */
  method ChainBack(ids: seq<Identity>, nonces: seq<Nonce>, replyHash: Bytes32, replyTunnelId: uint32)
    returns (hops: seq<Hop>)
    requires |nonces| == |ids|
    ensures DrawnFrom(hops, ids, nonces, 0) && EndpointLast(hops) && Linked(hops, replyHash, replyTunnelId)
  {
    hops := [];
    var lastTunnelId, lastRouterHash := replyTunnelId, replyHash;
    var i := |ids|;
    while i > 0
      invariant 0 <= i <= |ids|
      invariant DrawnFrom(hops, ids, nonces, i) && EndpointLast(hops) && Linked(hops, replyHash, replyTunnelId)
      invariant hops != [] ==> lastTunnelId == hops[0].req.tunnelId && lastRouterHash == hops[0].req.localHash
    {
      i := i - 1;
      var h;
      if i == |ids| - 1 {
        h := NewHop(ids[i], nonces[i], replyHash, replyTunnelId);
        LastHopType(h);
        h := SetType(h, Endpoint);
      } else {
        h := NewHop(ids[i], nonces[i], lastRouterHash, lastTunnelId);
      }
      lastTunnelId, lastRouterHash := h.req.tunnelId, h.req.localHash;
      LinkFront(h, hops, replyHash, replyTunnelId);
      DrawFront(h, hops, ids, nonces, i);
      hops := [h] + hops;
    }
  }

  /** The loop of `InboundTunnel`: from the hop next to us out to the gateway, which
      comes first in the list. */
  method ChainOut(myHash: Bytes32, ids: seq<Identity>, nonces: seq<Nonce>) returns (hops: seq<Hop>)
    requires |nonces| == |ids| > 0
    ensures |hops| == |ids| && DrawnBack(hops, ids, nonces) && GatewayFirst(hops)
    ensures Linked(hops, myHash, nonces[0].nextTunnelId)
  {
    var h := NewHop(ids[0], nonces[0], myHash, nonces[0].nextTunnelId);
    hops := [h];
    var i := 1;
    while i < |ids|
      invariant 1 <= i <= |ids| && |hops| == i
      invariant DrawnBack(hops, ids, nonces) && Unflagged(hops) && Linked(hops, myHash, nonces[0].nextTunnelId)
    {
      h := NewHop(ids[i], nonces[i], hops[0].req.localHash, hops[0].req.tunnelId);
      LinkFront(h, hops, myHash, nonces[0].nextTunnelId);
      DrawBackFront(h, hops, ids, nonces);
      hops := [h] + hops;
      i := i + 1;
    }
    LastHopType(hops[0]);
    hops := hops[0 := SetType(hops[0], Gateway)];
  }

  method SecureRecord(c: Crypto, hops: seq<Hop>, i: nat) returns (r: Record)
    requires i < |hops|
    ensures r == Layered(c, ReplyKeys(hops), 0, i, Base(c, hops[i]))
  {
    var h := hops[i];
    var data := new byte[512](_ => 0);
    Compile(h.req, data);
    r := Record(Truncated(h.req.localHash), Sealed(c, h.encKey, h.exponent, data[..]));
    var j := i;
    while j > 0
      invariant 0 <= j <= i
      invariant r == Layered(c, ReplyKeys(hops), j, i, Base(c, h))
    {
      j := j - 1;
      r := c.dec(Reply(hops[j].req), r);
    }
  }

  /** `secureRecords`. */
  method SecureRecords(c: Crypto, hops: seq<Hop>) returns (secured: seq<Hop>)
    ensures SameRequests(hops, secured) && Secured(c, ReplyKeys(secured), secured)
  {
    secured := hops;
    ghost var keys := ReplyKeys(hops);
    var i := 0;
    while i < |hops|
      invariant 0 <= i <= |hops| == |secured| && SameRequests(hops, secured) && ReplyKeys(secured) == keys
      invariant Secured(c, keys, secured[..i])
    {
      var r := SecureRecord(c, secured, i);
      ghost var before := secured;
      secured := secured[i := secured[i].(record := r)];
      SameKeys(before, secured);
      assert secured[..i + 1] == before[..i] + [secured[i]];
      i := i + 1;
    }
    assert secured[..i] == secured;
  }

  predicate OutboundChain(c: Crypto, hops: seq<Hop>, ids: seq<Identity>, nonces: seq<Nonce>,
                          replyHash: Bytes32, replyTunnelId: uint32) {
    && DrawnFrom(hops, ids, nonces, 0) && EndpointLast(hops) && Linked(hops, replyHash, replyTunnelId)
    && Secured(c, ReplyKeys(hops), hops)
  }

  predicate InboundChain(c: Crypto, hops: seq<Hop>, ids: seq<Identity>, nonces: seq<Nonce>,
                         myHash: Bytes32, tunnelId: uint32) {
    && |hops| == |ids| && DrawnBack(hops, ids, nonces) && GatewayFirst(hops) && Linked(hops, myHash, tunnelId)
    && Secured(c, ReplyKeys(hops), hops)
  }

  method BuildOutbound(c: Crypto, ids: seq<Identity>, nonces: seq<Nonce>, replyHash: Bytes32, replyTunnelId: uint32)
    returns (hops: seq<Hop>)
    requires |nonces| == |ids|
    ensures OutboundChain(c, hops, ids, nonces, replyHash, replyTunnelId)
  {
    var chain := ChainBack(ids, nonces, replyHash, replyTunnelId);
    hops := SecureRecords(c, chain);
    SecuringKeeps(chain, hops, replyHash, replyTunnelId);
    SecuringKeepsDraws(chain, hops, ids, nonces);
  }

  method BuildInbound(c: Crypto, myHash: Bytes32, ids: seq<Identity>, nonces: seq<Nonce>) returns (hops: seq<Hop>)
    requires |nonces| == |ids| > 0
    ensures InboundChain(c, hops, ids, nonces, myHash, nonces[0].nextTunnelId)
  {
    var chain := ChainOut(myHash, ids, nonces);
    hops := SecureRecords(c, chain);
    SecuringKeeps(chain, hops, myHash, nonces[0].nextTunnelId);
    SecuringKeepsDraws(chain, hops, ids, nonces);
  }

  /** `Tunnel` with its two kinds of constructor; the ids are unset in a tunnel of no
      hops. */
  class Tunnel {
    var hops: seq<Hop>
    var state: State
    var tunnelId: Option<uint32>
    var nextMsgId: Option<uint32>

    /** `OutboundTunnel`. */
    constructor Outbound(c: Crypto, ids: seq<Identity>, nonces: seq<Nonce>, replyHash: Bytes32, replyTunnelId: uint32)
      requires |nonces| == |ids|
      ensures OutboundChain(c, hops, ids, nonces, replyHash, replyTunnelId)
      ensures state == (if ids == [] then Operational else Requested)
      ensures ids != [] ==> tunnelId == Some(replyTunnelId) && nextMsgId == Some(nonces[|ids| - 1].nextMsgId)
    {
      var chain := BuildOutbound(c, ids, nonces, replyHash, replyTunnelId);
      hops, state, tunnelId, nextMsgId := chain, Operational, None, None;
      if ids != [] {
        var last := chain[|chain| - 1];
        state, tunnelId, nextMsgId := Requested, Some(last.req.nextTunnelId), Some(last.req.nextMsgId);
      }
    }

    /** `InboundTunnel`. */
    constructor Inbound(c: Crypto, myHash: Bytes32, ids: seq<Identity>, nonces: seq<Nonce>)
      requires |nonces| == |ids|
      ensures ids == [] ==> hops == [] && state == Operational
      ensures ids != [] ==>
        && InboundChain(c, hops, ids, nonces, myHash, nonces[0].nextTunnelId) && state == Requested
        && tunnelId == Some(nonces[0].nextTunnelId) && nextMsgId == Some(nonces[0].nextMsgId)
    {
      hops, state, tunnelId, nextMsgId := [], Operational, None, None;
      if ids != [] {
        var chain := BuildInbound(c, myHash, ids, nonces);
        var nearest := chain[|chain| - 1];
        hops, state := chain, Requested;
        tunnelId, nextMsgId := Some(nearest.req.nextTunnelId), Some(nearest.req.nextMsgId);
      }
    }
  }
}
