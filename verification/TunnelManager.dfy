/** What a router does with build messages and tunnel data that reach it: the
    participation half of `Manager`. */
module TunnelManager {
  import opened Bytes
  import opened BuildRecords
  import opened TunnelBuild
  import Lists
  import Fragments = TunnelFragments
  import Messages = TunnelMessages

  // ------------------------------------------------------------ one build message

  datatype Router = Router(priv: seq<byte>, graceful: bool, participating: map<uint32, Request>)

  /** What becomes of a build message: no record is ours, we refuse, the record is
      broken, or the records go on, as a build message or, from an endpoint, as a reply
      wrapped for the tunnel `tunnelId`. */
  datatype Answer =
    | NotOurs
    | Refused
    | Broken(error: Error)
    | Onward(to: Bytes32, isReply: bool, tunnelId: uint32, msgId: uint32, records: seq<Record>)

  /** The first record with this header. */
  function FindHeader(records: seq<Record>, header: Bytes16): (i: nat)
    ensures i <= |records| && (i < |records| ==> records[i].header == header)
    ensures forall j :: 0 <= j < i ==> records[j].header != header
  {
    if records == [] || records[0].header == header then 0
    else
      var i := FindHeader(records[1..], header);
      assert forall j :: 0 < j < 1 + i ==> records[j] == records[1..][j - 1];
      1 + i
  }

  function EncryptAll(c: Crypto, key: LayerKey, records: seq<Record>): (r: seq<Record>)
    ensures |r| == |records| && forall i :: 0 <= i < |r| ==> r[i] == c.enc(key, records[i])
  {
    seq(|records|, i requires 0 <= i < |records| => c.enc(key, records[i]))
  }

  /** Accepting the request `req` found at position i. */
  function Accept(c: Crypto, req: Request, records: seq<Record>, i: nat, response: Record): Answer
    requires i < |records|
  {
    Onward(req.nextHash, TypeOf(req.flags) == Endpoint, req.nextTunnelId, req.nextMsgId,
           EncryptAll(c, Reply(req), records[i := response]))
  }

  /** `receiveRecords`, for a router whose hash is `me`. */
  function Participate(c: Crypto, me: Bytes32, router: Router, records: seq<Record>, response: Record)
    : (Router, Answer)
  {
    var i := FindHeader(records, Truncated(me));
    if i == |records| then (router, NotOurs)
    else if router.graceful then (router, Refused)
    else match Opened(c, router.priv, records[i].data)
      case Err(e) => (router, Broken(e))
      case Ok(data) =>
        var req := ReadRequest(data);
        if req.tunnelId in router.participating then (router, Refused)
        else (router.(participating := router.participating[req.tunnelId := req]), Accept(c, req, records, i, response))
  }

  // ----------------------------------------------------------------- tunnel data

  /** `Message::encrypt`: one layer, under the IV key and the layer key of a hop. */
  type LayerFn = (Bytes32, Bytes32, seq<byte>) -> seq<byte>

  datatype Fate =
    | Lost
    | Passed(to: Bytes32, tunnelId: uint32, data: seq<byte>)
    | Arrived(data: seq<byte>)

  /** `receiveData`: a gateway drops tunnel data. */
  function Relay(layer: LayerFn, router: Router, tunnelId: uint32, data: seq<byte>): Fate {
    if tunnelId !in router.participating then Lost
    else
      var hop := router.participating[tunnelId];
      var data' := layer(hop.ivKey, hop.layerKey, data);
      match TypeOf(hop.flags)
      case Participant => Passed(hop.nextHash, hop.nextTunnelId, data')
      case Endpoint => Arrived(data')
      case Gateway => Lost
  }

  /** `receiveGatewayData` for a tunnel we take part in: the messages made of the data
      each get our layer and go to the next hop. */
  function Inject(layer: LayerFn, router: Router, tunnelId: uint32, messages: seq<seq<byte>>): seq<Fate> {
    if tunnelId !in router.participating || TypeOf(router.participating[tunnelId].flags) != Gateway then []
    else
      var hop := router.participating[tunnelId];
      seq(|messages|, i requires 0 <= i < |messages| =>
        Passed(hop.nextHash, hop.nextTunnelId, layer(hop.ivKey, hop.layerKey, messages[i])))
  }

  /** What is drawn at random: the id of a cut message and, for the k-th tunnel message
      made of it, the initialization vector and the padding. */
  datatype Draws = Draws(msgId: uint32, iv: nat -> Bytes16, noise: (nat, nat) -> byte)

  function Noise(d: Draws, k: nat, n: nat): (r: seq<byte>)
    ensures |r| == n
  {
    if n == 0 then [] else Noise(d, k, n - 1) + [d.noise(k, n - 1)]
  }

  predicate Fit(f: Fragments.Fragment) {
    Fragments.HeaderSize(f).Ok? && |Fragments.FragmentBytes(f)| <= 1003
  }

  /** The tunnel message that carries one fragment: initialization vector and 1008 bytes. */
  function Packed(sha: Messages.Sha, d: Draws, k: nat, f: Fragments.Fragment): seq<byte>
    requires Fit(f)
  {
    var body := Fragments.FragmentBytes(f);
    d.iv(k) + Messages.MessageBytes(sha, d.iv(k), Noise(d, k, 1003 - |body|), body)
  }

  function AllPacked(sha: Messages.Sha, d: Draws, fs: seq<Fragments.Fragment>): (r: seq<seq<byte>>)
    requires forall k :: 0 <= k < |fs| ==> Fit(fs[k])
    ensures |r| == |fs| && forall k :: 0 <= k < |fs| ==> r[k] == Packed(sha, d, k, fs[k])
  {
    seq(|fs|, k requires 0 <= k < |fs| => Packed(sha, d, k, fs[k]))
  }

  lemma AllFit(id: uint32, data: seq<byte>)
    requires Fragments.Fragmented(id, data).Ok?
    ensures var fs := Fragments.Fragmented(id, data).value; forall k :: 0 <= k < |fs| ==> Fit(fs[k])
  {
    var fs := Fragments.Fragmented(id, data).value;
    forall k | 0 <= k < |fs| ensures Fit(fs[k]) {
      Messages.PieceFits(id, data, k);
    }
  }

  /** What becomes of data for a tunnel: dropped, too large to cut, on its way through the
      tunnel, or handed to ourselves. */
  datatype Handling =
    | Dropped
    | Threw(error: Error)
    | Forwarded(sent: seq<Fate>)
    | Recirculated(from: Bytes32, data: seq<byte>)

  /** `receiveGatewayData`; `own` are our inbound tunnels that are operational. */
  function GatewayData(layer: LayerFn, sha: Messages.Sha, d: Draws, router: Router, own: set<uint32>,
                       from: Bytes32, tunnelId: uint32, data: seq<byte>): Handling {
    if tunnelId in router.participating then
      if TypeOf(router.participating[tunnelId].flags) != Gateway then Dropped
      else match Fragments.Fragmented(d.msgId, data)
        case Err(e) => Threw(e)
        case Ok(fs) =>
          AllFit(d.msgId, data);
          Forwarded(Inject(layer, router, tunnelId, AllPacked(sha, d, fs)))
    else if tunnelId in own then Recirculated(from, data)
    else Dropped
  }

  method PackFragment(sha: Messages.Sha, d: Draws, k: nat, f: Fragments.Fragment) returns (bytes: seq<byte>)
    requires Fit(f)
    ensures bytes == Packed(sha, d, k, f)
  {
    Lists.PrintOne(Fragments.FragmentBytes, f);
    var built := Messages.NewMessage(sha, d.iv(k), [f]);
    var message := built.value;
    var ok := message.Compile(Noise(d, k, 1003 - message.payloadSize as int));
    assert ok;
    bytes := d.iv(k) + message.encrypted[..];
  }

  /** `Manager`. */
  class Manager {
    const myHash: Bytes32
    const priv: seq<byte>
    var graceful: bool
    var participating: map<uint32, Request>

    function Value(): Router
      reads this
    {
      Router(priv, graceful, participating)
    }

    constructor (myHash: Bytes32, priv: seq<byte>)
      ensures this.myHash == myHash && Value() == Router(priv, false, map[])
    {
      this.myHash, this.priv, graceful, participating := myHash, priv, false, map[];
    }

    method Find(records: seq<Record>, header: Bytes16) returns (i: nat)
      ensures i == FindHeader(records, header)
    {
      i := 0;
      while i < |records| && records[i].header != header
        invariant i <= FindHeader(records, header)
      {
        i := i + 1;
      }
    }

    method EncryptRecords(c: Crypto, key: LayerKey, records: seq<Record>) returns (r: seq<Record>)
      ensures r == EncryptAll(c, key, records)
    {
      r := records;
      for i := 0 to |records|
        invariant |r| == |records|
        invariant forall j :: 0 <= j < |r| ==> r[j] == if j < i then c.enc(key, records[j]) else records[j]
      {
        r := r[i := c.enc(key, r[i])];
      }
    }

    /** `receiveRecords`, without the branch for tunnels of our own. */
    method ReceiveRecords(c: Crypto, records: seq<Record>, padding: seq<byte>) returns (answer: Answer)
      requires |padding| == 495
      modifies this`participating
      ensures (Value(), answer) == Participate(c, myHash, old(Value()), records, Response(c, padding, 0))
    {
      var i := Find(records, Truncated(myHash));
      if i == |records| {
        return NotOurs;
      }
      if graceful {
        return Refused;
      }
      var contents := Opened(c, priv, records[i].data);
      if contents.Err? {
        return Broken(contents.error);
      }
      var req := ReadRequest(contents.value);
      if req.tunnelId in participating {
        return Refused;
      }
      participating := participating[req.tunnelId := req];
      var answers := records[i := Response(c, padding, 0)];
      answers := EncryptRecords(c, Reply(req), answers);
      answer := Onward(req.nextHash, TypeOf(req.flags) == Endpoint, req.nextTunnelId, req.nextMsgId, answers);
    }

    /** `receiveData` */
    method ReceiveData(layer: LayerFn, tunnelId: uint32, data: seq<byte>) returns (fate: Fate)
      ensures fate == Relay(layer, Value(), tunnelId, data)
    {
      if tunnelId !in participating {
        return Lost;
      }
      var hop := participating[tunnelId];
      var message := layer(hop.ivKey, hop.layerKey, data);
      match TypeOf(hop.flags)
      case Participant => fate := Passed(hop.nextHash, hop.nextTunnelId, message);
      case Endpoint => fate := Arrived(message);
      case Gateway => fate := Lost;
    }

    /** `receiveGatewayData` */
    method ReceiveGatewayData(layer: LayerFn, sha: Messages.Sha, d: Draws, own: set<uint32>,
                              from: Bytes32, tunnelId: uint32, data: seq<byte>) returns (h: Handling)
      ensures h == GatewayData(layer, sha, d, Value(), own, from, tunnelId, data)
    {
      if tunnelId !in participating {
        return if tunnelId in own then Recirculated(from, data) else Dropped;
      }
      var hop := participating[tunnelId];
      if TypeOf(hop.flags) != Gateway {
        return Dropped;
      }
      var fragments := Fragments.FragmentMessage(d.msgId, data);
      if fragments.Err? {
        return Threw(fragments.error);
      }
      AllFit(d.msgId, data);
      var fs := fragments.value;
      ghost var messages := AllPacked(sha, d, fs);
      var sent: seq<Fate> := [];
      for k := 0 to |fs|
        invariant |sent| == k
        invariant forall j :: 0 <= j < k ==>
          sent[j] == Passed(hop.nextHash, hop.nextTunnelId, layer(hop.ivKey, hop.layerKey, messages[j]))
      {
        var message := PackFragment(sha, d, k, fs[k]);
        sent := sent + [Passed(hop.nextHash, hop.nextTunnelId, layer(hop.ivKey, hop.layerKey, message))];
      }
      assert sent == Inject(layer, Value(), tunnelId, messages);
      h := Forwarded(sent);
    }

    /** `timerCallback`: a participation ends. */
    method TimerCallback(tunnelId: uint32)
      modifies this`participating
      ensures participating == old(participating) - {tunnelId}
    {
      participating := participating - {tunnelId};
    }
  }

  // --------------------------------------------------------------- onion peeling

  predicate Padded(pads: seq<seq<byte>>) {
    forall i :: 0 <= i < |pads| ==> |pads[i]| == 495
  }

  /** The j-th record when the message reaches hop k: a request still under the layers
      of the hops k..j-1, or the answer of hop j under those of the hops j..k-1. */
  function RecordAt(c: Crypto, hops: seq<Hop>, pads: seq<seq<byte>>, k: nat, j: nat): Record
    requires k <= |hops| == |pads| && j < |hops| && Padded(pads)
  {
    var keys := ReplyKeys(hops);
    if j < k then Wrapped(c, keys, j, k, Response(c, pads[j], 0)) else Layered(c, keys, k, j, Base(c, hops[j]))
  }

  function Stage(c: Crypto, hops: seq<Hop>, pads: seq<seq<byte>>, k: nat): (records: seq<Record>)
    requires k <= |hops| == |pads| && Padded(pads)
    ensures |records| == |hops| && forall j :: 0 <= j < |hops| ==> records[j] == RecordAt(c, hops, pads, k, j)
  {
    seq(|hops|, j requires 0 <= j < |hops| => RecordAt(c, hops, pads, k, j))
  }

  /** No record in front of hop k's own happens to carry hop k's truncated hash. */
  predicate NoCollision(c: Crypto, hops: seq<Hop>, pads: seq<seq<byte>>, k: nat)
    requires k < |hops| == |pads| && Padded(pads)
  {
    forall j :: 0 <= j < k ==> RecordAt(c, hops, pads, k, j).header != Truncated(hops[k].req.localHash)
  }

  /** Record k reaches hop k bare. */
  lemma OwnRecord(c: Crypto, hops: seq<Hop>, pads: seq<seq<byte>>, k: nat)
    requires k < |hops| == |pads| && Padded(pads)
    ensures RecordAt(c, hops, pads, k, k) == Base(c, hops[k])
  {
  }

  lemma FindIs(records: seq<Record>, header: Bytes16, k: nat)
    requires k < |records| && records[k].header == header && forall j :: 0 <= j < k ==> records[j].header != header
    ensures FindHeader(records, header) == k
  {
  }

  /** Hop k finds its own record if and only if no earlier record collides. */
  lemma FindsOwn(c: Crypto, hops: seq<Hop>, pads: seq<seq<byte>>, k: nat)
    requires k < |hops| == |pads| && Padded(pads)
    ensures FindHeader(Stage(c, hops, pads, k), Truncated(hops[k].req.localHash)) == k
       <==> NoCollision(c, hops, pads, k)
  {
    OwnRecord(c, hops, pads, k);
    var records, header := Stage(c, hops, pads, k), Truncated(hops[k].req.localHash);
    assert records[k].header == header;
    if NoCollision(c, hops, pads, k) {
      FindIs(records, header, k);
    } else {
      var j :| 0 <= j < k && RecordAt(c, hops, pads, k, j).header == header;
      assert records[j].header == header;
    }
  }

  /** A hop's request survives the onion: what it opens and parses is what was asked. */
  lemma OwnRequest(c: Crypto, h: Hop, priv: seq<byte>)
    requires KeyPair(c, h.encKey, priv)
    ensures Opened(c, priv, Base(c, h).data).Ok?
    ensures ReadRequest(Opened(c, priv, Base(c, h).data).value) == h.req
  {
    OpenSealed(c, h.encKey, priv, h.exponent, RequestBytes(h.req));
    RequestRoundTrip(h.req, Opened(c, priv, Base(c, h).data).value);
  }

  lemma PeelOne(c: Crypto, hops: seq<Hop>, pads: seq<seq<byte>>, k: nat, j: nat)
    requires Lawful(c) && k < |hops| == |pads| && j < |hops| && Padded(pads)
    ensures var r := if j == k then Response(c, pads[k], 0) else RecordAt(c, hops, pads, k, j);
            c.enc(Reply(hops[k].req), r) == RecordAt(c, hops, pads, k + 1, j)
  {
    var keys := ReplyKeys(hops);
    assert keys[k] == Reply(hops[k].req);
    if j == k {
      assert Wrapped(c, keys, k, k, Response(c, pads[k], 0)) == Response(c, pads[k], 0);
    }
  }

  lemma PeelAll(c: Crypto, hops: seq<Hop>, pads: seq<seq<byte>>, k: nat)
    requires Lawful(c) && k < |hops| == |pads| && Padded(pads)
    ensures EncryptAll(c, Reply(hops[k].req), Stage(c, hops, pads, k)[k := Response(c, pads[k], 0)])
         == Stage(c, hops, pads, k + 1)
  {
    var before := Stage(c, hops, pads, k)[k := Response(c, pads[k], 0)];
    var after := EncryptAll(c, Reply(hops[k].req), before);
    forall j | 0 <= j < |hops| ensures after[j] == Stage(c, hops, pads, k + 1)[j] {
      PeelOne(c, hops, pads, k, j);
    }
  }

  predicate Willing(router: Router, req: Request) {
    !router.graceful && req.tunnelId !in router.participating
  }

  /** Onion peeling: hop k finds its request intact, and leaves the message as hop k+1
      must see it. */
  lemma OnionPeeling(c: Crypto, hops: seq<Hop>, pads: seq<seq<byte>>, k: nat, router: Router)
    requires Lawful(c) && k < |hops| == |pads| && Padded(pads) && NoCollision(c, hops, pads, k)
    requires KeyPair(c, hops[k].encKey, router.priv) && Willing(router, hops[k].req)
    ensures var req := hops[k].req;
      Participate(c, req.localHash, router, Stage(c, hops, pads, k), Response(c, pads[k], 0))
      == (router.(participating := router.participating[req.tunnelId := req]),
          Onward(req.nextHash, TypeOf(req.flags) == Endpoint, req.nextTunnelId, req.nextMsgId,
                 Stage(c, hops, pads, k + 1)))
  {
    FindsOwn(c, hops, pads, k);
    OwnRecord(c, hops, pads, k);
    OwnRequest(c, hops[k], router.priv);
    PeelAll(c, hops, pads, k);
  }

  /** The creator's records are the message as hop 0 must see it. */
  lemma SecuredIsStart(c: Crypto, hops: seq<Hop>, pads: seq<seq<byte>>)
    requires |hops| == |pads| && Padded(pads) && Secured(c, ReplyKeys(hops), hops)
    ensures forall j :: 0 <= j < |hops| ==> hops[j].record == Stage(c, hops, pads, 0)[j]
  {
  }

  // ------------------------------------------------------------- a whole build

  type Network = map<Bytes32, Router>

  /** Where a build message has been and what became of it. */
  datatype Journey = Journey(network: Network, visited: seq<Bytes32>, last: Answer)

  /** The message travels from router to router, at most once per response supplied. */
  function Travel(c: Crypto, network: Network, msg: Answer, responses: seq<Record>): Journey
    decreases responses
  {
    if responses == [] || !msg.Onward? || msg.to !in network then Journey(network, [], msg)
    else
      var (router, answer) := Participate(c, msg.to, network[msg.to], msg.records, responses[0]);
      var rest := Travel(c, network[msg.to := router], answer, responses[1..]);
      Journey(rest.network, [msg.to] + rest.visited, rest.last)
  }

  function Responses(c: Crypto, pads: seq<seq<byte>>): (r: seq<Record>)
    requires Padded(pads)
    ensures |r| == |pads| && forall i :: 0 <= i < |r| ==> r[i] == Response(c, pads[i], 0)
  {
    seq(|pads|, i requires 0 <= i < |pads| => Response(c, pads[i], 0))
  }

  function Hashes(hops: seq<Hop>): (r: seq<Bytes32>)
    ensures |r| == |hops| && forall i :: 0 <= i < |r| ==> r[i] == hops[i].req.localHash
  {
    seq(|hops|, i requires 0 <= i < |hops| => hops[i].req.localHash)
  }

  /** The hops k.. can all join: they exist, hold the key the record was sealed for, do
      not shut down, and the tunnel id they are asked for is free. */
  ghost predicate AllWilling(c: Crypto, network: Network, hops: seq<Hop>, k: nat) {
    forall i :: k <= i < |hops| ==>
      && hops[i].req.localHash in network
      && KeyPair(c, hops[i].encKey, network[hops[i].req.localHash].priv)
      && Willing(network[hops[i].req.localHash], hops[i].req)
  }

  /** No router is asked for the same tunnel id twice. */
  predicate DistinctIds(hops: seq<Hop>) {
    forall i, j :: 0 <= i < j < |hops| ==>
      hops[i].req.localHash != hops[j].req.localHash || hops[i].req.tunnelId != hops[j].req.tunnelId
  }

  ghost predicate Clear(c: Crypto, hops: seq<Hop>, pads: seq<seq<byte>>)
    requires |hops| == |pads| && Padded(pads)
  {
    forall k :: 0 <= k < |hops| ==> NoCollision(c, hops, pads, k)
  }

  /** `network` with the participation of one hop added. */
  function Joined(network: Network, req: Request): Network
    requires req.localHash in network
  {
    var router := network[req.localHash];
    network[req.localHash := router.(participating := router.participating[req.tunnelId := req])]
  }

  /** The network once the hops k.. have joined, in order. */
  function AllJoined(network: Network, hops: seq<Hop>, k: nat): (r: Network)
    requires forall i :: k <= i < |hops| ==> hops[i].req.localHash in network
    ensures r.Keys == network.Keys
    decreases |hops| - k
  {
    if k >= |hops| then network else AllJoined(Joined(network, hops[k].req), hops, k + 1)
  }

  lemma JoinedWilling(c: Crypto, network: Network, hops: seq<Hop>, k: nat)
    requires k < |hops| && DistinctIds(hops) && AllWilling(c, network, hops, k)
    ensures AllWilling(c, Joined(network, hops[k].req), hops, k + 1)
  {
  }

  /** The message in front of hop k, or behind the last hop. */
  function MessageAt(c: Crypto, hops: seq<Hop>, pads: seq<seq<byte>>, k: nat): Answer
    requires 0 < k <= |hops| == |pads| && Padded(pads)
  {
    var req := hops[k - 1].req;
    Onward(req.nextHash, TypeOf(req.flags) == Endpoint, req.nextTunnelId, req.nextMsgId, Stage(c, hops, pads, k))
  }

  lemma TravelOne(c: Crypto, network: Network, msg: Answer, responses: seq<Record>, router: Router, answer: Answer)
    requires responses != [] && msg.Onward? && msg.to in network
    requires Participate(c, msg.to, network[msg.to], msg.records, responses[0]) == (router, answer)
    ensures var rest := Travel(c, network[msg.to := router], answer, responses[1..]);
      Travel(c, network, msg, responses) == Journey(rest.network, [msg.to] + rest.visited, rest.last)
  {
  }

  lemma BuildOne(c: Crypto, network: Network, hops: seq<Hop>, pads: seq<seq<byte>>, k: nat, msg: Answer)
    requires Lawful(c) && k < |hops| == |pads| && Padded(pads) && NoCollision(c, hops, pads, k)
    requires msg.Onward? && msg.to == hops[k].req.localHash && msg.records == Stage(c, hops, pads, k)
    requires msg.to in network && KeyPair(c, hops[k].encKey, network[msg.to].priv)
    requires Willing(network[msg.to], hops[k].req)
    ensures var rest := Travel(c, Joined(network, hops[k].req), MessageAt(c, hops, pads, k + 1),
                               Responses(c, pads)[k + 1..]);
      Travel(c, network, msg, Responses(c, pads)[k..]) == Journey(rest.network, [msg.to] + rest.visited, rest.last)
  {
    var responses, req, router := Responses(c, pads)[k..], hops[k].req, network[msg.to];
    OnionPeeling(c, hops, pads, k, router);
    var router' := router.(participating := router.participating[req.tunnelId := req]);
    TravelOne(c, network, msg, responses, router', MessageAt(c, hops, pads, k + 1));
    assert responses[1..] == Responses(c, pads)[k + 1..];
  }

  lemma JoinOne(network: Network, hops: seq<Hop>, k: nat)
    requires k < |hops| && forall i :: k <= i < |hops| ==> hops[i].req.localHash in network
    ensures AllJoined(network, hops, k) == AllJoined(Joined(network, hops[k].req), hops, k + 1)
  {
  }

  lemma HashesFrom(hops: seq<Hop>, k: nat)
    requires k < |hops|
    ensures Hashes(hops)[k..] == [hops[k].req.localHash] + Hashes(hops)[k + 1..]
  {
  }

  lemma NoMoreResponses(c: Crypto, network: Network, msg: Answer, responses: seq<Record>)
    requires responses == []
    ensures Travel(c, network, msg, responses) == Journey(network, [], msg)
  {
  }

  ghost predicate Outcome(c: Crypto, network: Network, hops: seq<Hop>, pads: seq<seq<byte>>, k: nat, j: Journey)
    requires 0 < |hops| == |pads| && Padded(pads) && k <= |hops|
    requires forall i :: k <= i < |hops| ==> hops[i].req.localHash in network
  {
    j == Journey(AllJoined(network, hops, k), Hashes(hops)[k..], MessageAt(c, hops, pads, |hops|))
  }

  lemma OutcomeBack(c: Crypto, network: Network, hops: seq<Hop>, pads: seq<seq<byte>>, k: nat, rest: Journey)
    requires 0 < |hops| == |pads| && Padded(pads) && k < |hops|
    requires forall i :: k <= i < |hops| ==> hops[i].req.localHash in network
    requires Outcome(c, Joined(network, hops[k].req), hops, pads, k + 1, rest)
    ensures Outcome(c, network, hops, pads, k, Journey(rest.network, [hops[k].req.localHash] + rest.visited, rest.last))
  {
    JoinOne(network, hops, k);
    HashesFrom(hops, k);
  }

  /** From hop k on. */
  lemma {:induction false} BuildFrom(c: Crypto, network: Network, hops: seq<Hop>, pads: seq<seq<byte>>,
                                     endHash: Bytes32, endId: uint32, k: nat, msg: Answer)
    requires Lawful(c) && k < |hops| == |pads| && Padded(pads) && Clear(c, hops, pads)
    requires Linked(hops, endHash, endId) && DistinctIds(hops) && AllWilling(c, network, hops, k)
    requires msg.Onward? && msg.to == hops[k].req.localHash && msg.records == Stage(c, hops, pads, k)
    ensures Outcome(c, network, hops, pads, k, Travel(c, network, msg, Responses(c, pads)[k..]))
    decreases |hops| - k
  {
    BuildOne(c, network, hops, pads, k, msg);
    JoinedWilling(c, network, hops, k);
    var network', msg' := Joined(network, hops[k].req), MessageAt(c, hops, pads, k + 1);
    if k + 1 < |hops| {
      BuildFrom(c, network', hops, pads, endHash, endId, k + 1, msg');
    } else {
      NoMoreResponses(c, network', msg', Responses(c, pads)[k + 1..]);
    }
    OutcomeBack(c, network, hops, pads, k, Travel(c, network', msg', Responses(c, pads)[k + 1..]));
  }

  /** The tables link every hop to the next one. */
  predicate TablesLinked(network: Network, hops: seq<Hop>) {
    forall k :: 0 <= k < |hops| ==>
      && hops[k].req.localHash in network
      && hops[k].req.tunnelId in network[hops[k].req.localHash].participating
      && network[hops[k].req.localHash].participating[hops[k].req.tunnelId] == hops[k].req
  }

  lemma {:induction false} JoinedStays(network: Network, hops: seq<Hop>, k: nat, i: nat)
    requires forall j :: 0 <= j < |hops| ==> hops[j].req.localHash in network
    requires DistinctIds(hops) && i < |hops|
    requires i < k ==> hops[i].req.tunnelId in network[hops[i].req.localHash].participating
                       && network[hops[i].req.localHash].participating[hops[i].req.tunnelId] == hops[i].req
    ensures var r := AllJoined(network, hops, k)[hops[i].req.localHash];
      hops[i].req.tunnelId in r.participating && r.participating[hops[i].req.tunnelId] == hops[i].req
    decreases |hops| - k
  {
    if k < |hops| {
      JoinedStays(Joined(network, hops[k].req), hops, k + 1, i);
    }
  }

  /** Once every hop has accepted a build message that started at the first hop, the
      message has visited exactly the hops in order, left for the end of the tunnel, and
      the tables link the hops. */
  lemma {:induction false} TunnelBuilt(c: Crypto, network: Network, hops: seq<Hop>, pads: seq<seq<byte>>,
                                       endHash: Bytes32, endId: uint32, msg: Answer)
    requires Lawful(c) && 0 < |hops| == |pads| && Padded(pads) && Clear(c, hops, pads)
    requires Secured(c, ReplyKeys(hops), hops) && Linked(hops, endHash, endId) && DistinctIds(hops)
    requires AllWilling(c, network, hops, 0)
    requires msg.Onward? && msg.to == hops[0].req.localHash && |msg.records| == |hops|
    requires forall j :: 0 <= j < |hops| ==> msg.records[j] == hops[j].record
    ensures var j := Travel(c, network, msg, Responses(c, pads));
      && j.visited == Hashes(hops)
      && j.last.Onward? && j.last.to == endHash && j.last.tunnelId == endId
      && j.last.records == Stage(c, hops, pads, |hops|)
      && j.network.Keys == network.Keys && TablesLinked(j.network, hops)
  {
    SecuredIsStart(c, hops, pads);
    assert msg.records == Stage(c, hops, pads, 0);
    BuildFrom(c, network, hops, pads, endHash, endId, 0, msg);
    assert Responses(c, pads)[0..] == Responses(c, pads) && Hashes(hops)[0..] == Hashes(hops);
    forall i | 0 <= i < |hops| {
      JoinedStays(network, hops, 0, i);
    }
  }

  // -------------------------------------------------------------- the data path

  /** Tunnel data on its way: the routers it was handled by and where it ended. */
  datatype Trip = Trip(visited: seq<Bytes32>, fate: Fate)

  function Carry(layer: LayerFn, network: Network, at: Fate, limit: nat): Trip
    decreases limit
  {
    if limit == 0 || !at.Passed? || at.to !in network then Trip([], at)
    else
      var rest := Carry(layer, network, Relay(layer, network[at.to], at.tunnelId, at.data), limit - 1);
      Trip([at.to] + rest.visited, rest.fate)
  }

  /** One layer per hop i..j-1. */
  function Encrypted(layer: LayerFn, hops: seq<Hop>, i: nat, j: nat, data: seq<byte>): seq<byte>
    requires i <= j <= |hops|
    decreases j - i
  {
    if i == j then data
    else Encrypted(layer, hops, i + 1, j, layer(hops[i].req.ivKey, hops[i].req.layerKey, data))
  }

  lemma EncryptedStep(layer: LayerFn, hops: seq<Hop>, k: nat, data: seq<byte>)
    requires k < |hops|
    ensures Encrypted(layer, hops, k, |hops|, data)
         == Encrypted(layer, hops, k + 1, |hops|, layer(hops[k].req.ivKey, hops[k].req.layerKey, data))
  {
  }

  function ForHop(hops: seq<Hop>, k: nat, data: seq<byte>): Fate
    requires k < |hops|
  {
    Passed(hops[k].req.localHash, hops[k].req.tunnelId, data)
  }

  lemma RelayOne(layer: LayerFn, network: Network, hops: seq<Hop>, k: nat, data: seq<byte>)
    requires TablesLinked(network, hops) && k < |hops|
    ensures var req := hops[k].req;
      Relay(layer, network[req.localHash], req.tunnelId, data)
      == match TypeOf(req.flags)
         case Participant => Passed(req.nextHash, req.nextTunnelId, layer(req.ivKey, req.layerKey, data))
         case Endpoint => Arrived(layer(req.ivKey, req.layerKey, data))
         case Gateway => Lost
  {
  }

  lemma CarryOne(layer: LayerFn, network: Network, at: Fate, limit: nat)
    requires limit > 0 && at.Passed? && at.to in network
    ensures var rest := Carry(layer, network, Relay(layer, network[at.to], at.tunnelId, at.data), limit - 1);
      Carry(layer, network, at, limit) == Trip([at.to] + rest.visited, rest.fate)
  {
  }

  lemma {:induction false} OutboundFrom(layer: LayerFn, network: Network, hops: seq<Hop>, k: nat, data: seq<byte>,
                                        endHash: Bytes32, endId: uint32)
    requires k < |hops| && EndpointLast(hops) && Linked(hops, endHash, endId) && TablesLinked(network, hops)
    ensures Carry(layer, network, ForHop(hops, k, data), |hops| - k)
         == Trip(Hashes(hops)[k..], Arrived(Encrypted(layer, hops, k, |hops|, data)))
    decreases |hops| - k
  {
    RelayOne(layer, network, hops, k, data);
    var data' := layer(hops[k].req.ivKey, hops[k].req.layerKey, data);
    HashesFrom(hops, k);
    CarryOne(layer, network, ForHop(hops, k, data), |hops| - k);
    EncryptedStep(layer, hops, k, data);
    if k + 1 < |hops| {
      OutboundFrom(layer, network, hops, k + 1, data', endHash, endId);
    }
  }

  /** Outbound path: data handed to the first hop visits exactly the hops in order, gets
      one layer at each, and ends at the endpoint. */
  lemma {:induction false} OutboundPath(layer: LayerFn, network: Network, hops: seq<Hop>, data: seq<byte>,
                                        endHash: Bytes32, endId: uint32)
    requires hops != [] && EndpointLast(hops) && Linked(hops, endHash, endId) && TablesLinked(network, hops)
    ensures Carry(layer, network, ForHop(hops, 0, data), |hops|)
         == Trip(Hashes(hops), Arrived(Encrypted(layer, hops, 0, |hops|, data)))
  {
    OutboundFrom(layer, network, hops, 0, data, endHash, endId);
    assert Hashes(hops)[0..] == Hashes(hops);
  }

  /** Data on its way to hop k, or to the end of the tunnel. */
  function Underway(hops: seq<Hop>, k: nat, data: seq<byte>, endHash: Bytes32, endId: uint32): Fate
    requires k <= |hops|
  {
    if k == |hops| then Passed(endHash, endId, data) else ForHop(hops, k, data)
  }

  lemma ParticipantPasses(layer: LayerFn, network: Network, hops: seq<Hop>, k: nat, data: seq<byte>,
                          endHash: Bytes32, endId: uint32)
    requires TablesLinked(network, hops) && Linked(hops, endHash, endId) && k < |hops|
    requires TypeOf(hops[k].req.flags) == Participant
    ensures Relay(layer, network[hops[k].req.localHash], hops[k].req.tunnelId, data)
         == Underway(hops, k + 1, layer(hops[k].req.ivKey, hops[k].req.layerKey, data), endHash, endId)
  {
    RelayOne(layer, network, hops, k, data);
  }

  lemma InboundStep(layer: LayerFn, network: Network, hops: seq<Hop>, k: nat, data: seq<byte>,
                    endHash: Bytes32, endId: uint32)
    requires 0 < k < |hops| && GatewayFirst(hops) && Linked(hops, endHash, endId) && TablesLinked(network, hops)
    ensures var data' := layer(hops[k].req.ivKey, hops[k].req.layerKey, data);
      var rest := Carry(layer, network, Underway(hops, k + 1, data', endHash, endId), |hops| - (k + 1));
      Carry(layer, network, Underway(hops, k, data, endHash, endId), |hops| - k)
      == Trip([hops[k].req.localHash] + rest.visited, rest.fate)
  {
    ParticipantPasses(layer, network, hops, k, data, endHash, endId);
    CarryOne(layer, network, ForHop(hops, k, data), |hops| - k);
  }

  lemma InboundEnd(layer: LayerFn, network: Network, hops: seq<Hop>, data: seq<byte>, endHash: Bytes32, endId: uint32)
    ensures Carry(layer, network, Underway(hops, |hops|, data, endHash, endId), 0)
         == Trip(Hashes(hops)[|hops|..], Passed(endHash, endId, Encrypted(layer, hops, |hops|, |hops|, data)))
  {
    assert Hashes(hops)[|hops|..] == [];
  }

  lemma InboundOne(layer: LayerFn, network: Network, hops: seq<Hop>, k: nat, data: seq<byte>,
                   endHash: Bytes32, endId: uint32)
    requires 0 < k < |hops| && GatewayFirst(hops) && Linked(hops, endHash, endId) && TablesLinked(network, hops)
    requires var data' := layer(hops[k].req.ivKey, hops[k].req.layerKey, data);
      Carry(layer, network, Underway(hops, k + 1, data', endHash, endId), |hops| - (k + 1))
      == Trip(Hashes(hops)[k + 1..], Passed(endHash, endId, Encrypted(layer, hops, k + 1, |hops|, data')))
    ensures Carry(layer, network, Underway(hops, k, data, endHash, endId), |hops| - k)
         == Trip(Hashes(hops)[k..], Passed(endHash, endId, Encrypted(layer, hops, k, |hops|, data)))
  {
    InboundStep(layer, network, hops, k, data, endHash, endId);
    HashesFrom(hops, k);
    EncryptedStep(layer, hops, k, data);
  }

  lemma {:induction false} InboundFrom(layer: LayerFn, network: Network, hops: seq<Hop>, k: nat, data: seq<byte>,
                                       endHash: Bytes32, endId: uint32)
    requires 0 < k <= |hops| && GatewayFirst(hops) && Linked(hops, endHash, endId) && TablesLinked(network, hops)
    ensures Carry(layer, network, Underway(hops, k, data, endHash, endId), |hops| - k)
         == Trip(Hashes(hops)[k..], Passed(endHash, endId, Encrypted(layer, hops, k, |hops|, data)))
    decreases |hops| - k
  {
    if k < |hops| {
      InboundFrom(layer, network, hops, k + 1, layer(hops[k].req.ivKey, hops[k].req.layerKey, data), endHash, endId);
      InboundOne(layer, network, hops, k, data, endHash, endId);
    } else {
      InboundEnd(layer, network, hops, data, endHash, endId);
    }
  }

  /** Inbound path: every message the gateway makes of the data handed to it visits the
      other hops in order, gets one layer per hop, the gateway's included, and leaves for
      the creator's own hash and tunnel id. */
  lemma {:induction false} InboundPath(layer: LayerFn, network: Network, hops: seq<Hop>, messages: seq<seq<byte>>,
                                       i: nat, myHash: Bytes32, myId: uint32)
    requires hops != [] && GatewayFirst(hops) && Linked(hops, myHash, myId) && TablesLinked(network, hops)
    requires i < |messages|
    ensures var sent := Inject(layer, network[hops[0].req.localHash], hops[0].req.tunnelId, messages);
      && |sent| == |messages|
      && Carry(layer, network, sent[i], |hops| - 1)
         == Trip(Hashes(hops)[1..], Passed(myHash, myId, Encrypted(layer, hops, 0, |hops|, messages[i])))
  {
    var data := layer(hops[0].req.ivKey, hops[0].req.layerKey, messages[i]);
    InboundFrom(layer, network, hops, 1, data, myHash, myId);
  }

  /** The k-th tunnel message holds fragment f: the initialization vector in front, the bytes
      of f at the end, and a reader finds just f in it, or throws if it is the first. */
  ghost predicate Holds(sha: Messages.Sha, d: Draws, k: nat, f: Fragments.Fragment, m: seq<byte>) {
    && |m| == 1024 && m[..16] == d.iv(k) && |Fragments.FragmentBytes(f)| <= 1003
    && m[1024 - |Fragments.FragmentBytes(f)|..] == Fragments.FragmentBytes(f)
    && Messages.ReadMessage(sha, d.iv(k), m[16..]) == if k > 0 then Ok([f]) else Err(Unsupported)
  }

  lemma PackedHolds(sha: Messages.Sha, d: Draws, data: seq<byte>, k: nat)
    requires Fragments.Fragmented(d.msgId, data).Ok? && k < |Fragments.Fragmented(d.msgId, data).value|
    ensures var f := Fragments.Fragmented(d.msgId, data).value[k]; Fit(f) && Holds(sha, d, k, f, Packed(sha, d, k, f))
  {
    var f := Fragments.Fragmented(d.msgId, data).value[k];
    AllFit(d.msgId, data);
    Lists.PrintOne(Fragments.FragmentBytes, f);
    var noise := Noise(d, k, 1003 - |Fragments.FragmentBytes(f)|);
    Messages.GatewayMessage(sha, d.iv(k), noise, d.msgId, data, k);
    var message := Messages.MessageBytes(sha, d.iv(k), noise, Fragments.FragmentBytes(f));
    DropPrefix(d.iv(k), message);
    Messages.MessageLayout(sha, d.iv(k), noise, Fragments.FragmentBytes(f));
    var from := 1008 - |Fragments.FragmentBytes(f)|;
    assert (d.iv(k) + message)[16..][from..] == (d.iv(k) + message)[16 + from..];
  }

  /** What was sent passes the other hops in order and leaves for our own hash and id, as m
      under one layer per hop. */
  ghost predicate Leaves(layer: LayerFn, network: Network, hops: seq<Hop>, sent: Fate, m: seq<byte>,
                         myHash: Bytes32, myId: uint32)
    requires hops != []
  {
    Carry(layer, network, sent, |hops| - 1)
    == Trip(Hashes(hops)[1..], Passed(myHash, myId, Encrypted(layer, hops, 0, |hops|, m)))
  }

  ghost predicate Delivers(layer: LayerFn, network: Network, hops: seq<Hop>, sha: Messages.Sha, d: Draws, k: nat,
                           f: Fragments.Fragment, sent: Fate, myHash: Bytes32, myId: uint32)
    requires hops != []
  {
    exists m :: Holds(sha, d, k, f, m) && Leaves(layer, network, hops, sent, m, myHash, myId)
  }

  /** Data handed to the gateway of an inbound tunnel, whole: it throws iff the data needs
      more than 64 fragments and its length does not look short in 16 bits; otherwise the
      k-th fragment passes the other hops in order and leaves for our own hash under one
      layer per hop, in a tunnel message from which it is read back unless it is the first,
      which makes the reader throw. */
  lemma {:induction false} GatewayDelivers(layer: LayerFn, network: Network, hops: seq<Hop>, sha: Messages.Sha,
                                           d: Draws, own: set<uint32>, from: Bytes32, data: seq<byte>,
                                           myHash: Bytes32, myId: uint32)
    requires hops != [] && GatewayFirst(hops) && Linked(hops, myHash, myId) && TablesLinked(network, hops)
    ensures var h := GatewayData(layer, sha, d, network[hops[0].req.localHash], own, from, hops[0].req.tunnelId, data);
      var fs := Fragments.Fragmented(d.msgId, data);
      && (h.Threw? <==> fs.Err?) && (fs.Err? <==> |data| > 64 * 996 && |data| % 0x1_0000 > 1000)
      && (fs.Ok? ==> h.Forwarded? && |h.sent| == |fs.value| && forall k :: 0 <= k < |fs.value| ==>
            Delivers(layer, network, hops, sha, d, k, fs.value[k], h.sent[k], myHash, myId))
  {
    if Fragments.Fragmented(d.msgId, data).Ok? {
      var fs := Fragments.Fragmented(d.msgId, data).value;
      AllFit(d.msgId, data);
      var messages := AllPacked(sha, d, fs);
      var sent := Inject(layer, network[hops[0].req.localHash], hops[0].req.tunnelId, messages);
      forall k | 0 <= k < |fs|
        ensures |sent| == |fs|
        ensures Delivers(layer, network, hops, sha, d, k, fs[k], sent[k], myHash, myId)
      {
        PackedHolds(sha, d, data, k);
        InboundPath(layer, network, hops, messages, k, myHash, myId);
        assert Leaves(layer, network, hops, sent[k], messages[k], myHash, myId);
      }
    }
  }

  /** The first message of a build: all records, to the first hop. */
  predicate FirstMessage(hops: seq<Hop>, msg: Answer) {
    && hops != [] && msg.Onward? && msg.to == hops[0].req.localHash && |msg.records| == |hops|
    && forall j :: 0 <= j < |hops| ==> msg.records[j] == hops[j].record
  }

  /** From construction to delivery: the records an `OutboundTunnel` makes for the
      routers `ids`, once all of them have accepted, carry data through exactly those
      routers in order to the last one. */
  lemma {:induction false} OutboundTunnelWorks(
      c: Crypto, layer: LayerFn, network: Network, ids: seq<Identity>, nonces: seq<Nonce>, hops: seq<Hop>,
      pads: seq<seq<byte>>, replyHash: Bytes32, replyId: uint32, msg: Answer, data: seq<byte>)
    requires Lawful(c) && OutboundChain(c, hops, ids, nonces, replyHash, replyId) && FirstMessage(hops, msg)
    requires |hops| == |pads| && Padded(pads) && Clear(c, hops, pads)
    requires DistinctIds(hops) && AllWilling(c, network, hops, 0)
    ensures var built := Travel(c, network, msg, Responses(c, pads));
      && built.last.Onward? && built.last.to == replyHash && built.last.tunnelId == replyId
      && var trip := Carry(layer, built.network, ForHop(hops, 0, data), |hops|);
      && |trip.visited| == |ids| && (forall k :: 0 <= k < |ids| ==> trip.visited[k] == ids[k].hash)
      && trip.fate == Arrived(Encrypted(layer, hops, 0, |hops|, data))
  {
    TunnelBuilt(c, network, hops, pads, replyHash, replyId, msg);
    OutboundPath(layer, Travel(c, network, msg, Responses(c, pads)).network, hops, data, replyHash, replyId);
  }

  predicate AllButLastBackwards(visited: seq<Bytes32>, ids: seq<Identity>) {
    |visited| == |ids| - 1 && forall k :: 0 <= k < |ids| - 1 ==> visited[|ids| - 2 - k] == ids[k].hash
  }

  lemma HashesBack(hops: seq<Hop>, ids: seq<Identity>, nonces: seq<Nonce>)
    requires 0 < |hops| == |ids| && DrawnBack(hops, ids, nonces)
    ensures hops[0].req.localHash == ids[|ids| - 1].hash && AllButLastBackwards(Hashes(hops)[1..], ids)
  {
    var n := |ids|;
    assert Drawn(hops[n - 1 - (n - 1)], ids[n - 1], nonces[n - 1]);
    forall k | 0 <= k < n - 1 ensures Hashes(hops)[1..][n - 2 - k] == ids[k].hash {
      assert Drawn(hops[n - 1 - k], ids[k], nonces[k]);
    }
  }

  /** The same for an `InboundTunnel`: what the gateway, the last router of `ids`, is
      given comes to the creator through the other routers, the first one last. */
  lemma {:induction false} InboundTunnelWorks(
      c: Crypto, layer: LayerFn, network: Network, ids: seq<Identity>, nonces: seq<Nonce>, hops: seq<Hop>,
      pads: seq<seq<byte>>, myHash: Bytes32, myId: uint32, msg: Answer, messages: seq<seq<byte>>, i: nat)
    requires Lawful(c) && InboundChain(c, hops, ids, nonces, myHash, myId) && FirstMessage(hops, msg)
    requires |hops| == |pads| && Padded(pads) && Clear(c, hops, pads) && i < |messages|
    requires DistinctIds(hops) && AllWilling(c, network, hops, 0)
    ensures var built := Travel(c, network, msg, Responses(c, pads));
      && msg.to == ids[|ids| - 1].hash && msg.to in built.network
      && built.last.Onward? && built.last.to == myHash
      && var sent := Inject(layer, built.network[msg.to], hops[0].req.tunnelId, messages);
      && |sent| == |messages|
      && var trip := Carry(layer, built.network, sent[i], |hops| - 1);
      && AllButLastBackwards(trip.visited, ids)
      && trip.fate == Passed(myHash, myId, Encrypted(layer, hops, 0, |hops|, messages[i]))
  {
    TunnelBuilt(c, network, hops, pads, myHash, myId, msg);
    InboundPath(layer, Travel(c, network, msg, Responses(c, pads)).network, hops, messages, i, myHash, myId);
    HashesBack(hops, ids, nonces);
  }
}
