/** What a router does with messages it does not simply pass on: build requests it refuses,
    tunnels it already serves, data for a tunnel it is not the gateway of. */
module TunnelSafety {
  import opened Bytes
  import opened BuildRecords
  import opened TunnelBuild
  import opened TunnelManager
  import Fragments = TunnelFragments
  import Messages = TunnelMessages

  // ------------------------------------------------------------------ build messages

  /** Record i is the first with the header of router `me`. */
  ghost predicate OwnAt(records: seq<Record>, me: Bytes32, i: nat) {
    && i < |records| && records[i].header == me[..16]
    && forall j :: 0 <= j < i ==> records[j].header != me[..16]
  }

  /** What the record contains once it is opened. */
  function Asked(c: Crypto, priv: seq<byte>, record: Record): Result<Request> {
    match Opened(c, priv, record.data) case Err(e) => Err(e) case Ok(data) => Ok(ReadRequest(data))
  }

  /** All that may stand against joining. */
  ghost predicate CanJoin(c: Crypto, router: Router, record: Record) {
    && !router.graceful && Asked(c, router.priv, record).Ok?
    && Asked(c, router.priv, record).value.tunnelId !in router.participating
  }

  lemma FirstFound(records: seq<Record>, me: Bytes32, i: nat)
    requires OwnAt(records, me, i)
    ensures FindHeader(records, Truncated(me)) == i
  {
  }

  /** The exact condition for joining.  A router joins iff a record has its header, it does
      not shut down, the first such record opens and the tunnel id asked for is free.  Then
      the request is added to its table and the answer goes where the request says, with the
      response in place of the record and one more layer on all; otherwise nothing changes
      and the answer says why. */
  lemma JoinExact(c: Crypto, me: Bytes32, router: Router, records: seq<Record>, response: Record, i: nat)
    requires OwnAt(records, me, i)
    ensures var (router', answer) := Participate(c, me, router, records, response);
      && (answer.Onward? <==> CanJoin(c, router, records[i]))
      && (!answer.Onward? ==> router' == router)
      && (!answer.Onward? ==>
            answer == if router.graceful || Asked(c, router.priv, records[i]).Ok? then Refused
                      else Broken(Asked(c, router.priv, records[i]).error))
      && (answer.Onward? ==>
            var req := Asked(c, router.priv, records[i]).value;
            && router' == router.(participating := router.participating[req.tunnelId := req])
            && answer.to == req.nextHash && answer.tunnelId == req.nextTunnelId && answer.msgId == req.nextMsgId
            && (answer.isReply <==> req.flags < 128 && req.flags >= 64) && |answer.records| == |records|
            && forall j :: 0 <= j < |records| ==>
                 answer.records[j]
                 == c.enc(LayerKey(req.replyKey, req.replyIV), if j == i then response else records[j]))
  {
    FirstFound(records, me, i);
  }

  lemma NotOursIgnored(c: Crypto, me: Bytes32, router: Router, records: seq<Record>, response: Record)
    requires forall j :: 0 <= j < |records| ==> records[j].header != me[..16]
    ensures Participate(c, me, router, records, response) == (router, NotOurs)
  {
  }

  /** What was served is served as before. */
  ghost predicate Serves(router: Router, router': Router) {
    && router'.priv == router.priv && router'.graceful == router.graceful
    && forall id :: id in router.participating ==>
         id in router'.participating && router'.participating[id] == router.participating[id]
  }

  ghost predicate AtMostOneNew(router: Router, router': Router) {
    var added := router'.participating.Keys - router.participating.Keys;
    forall a, b :: a in added && b in added ==> a == b
  }

  /** Any build message: tunnels in use are left alone, and at most one is added. */
  lemma JoinKeeps(c: Crypto, me: Bytes32, router: Router, records: seq<Record>, response: Record)
    ensures Serves(router, Participate(c, me, router, records, response).0)
    ensures AtMostOneNew(router, Participate(c, me, router, records, response).0)
  {
    var i := FindHeader(records, Truncated(me));
    if i == |records| {
      NotOursIgnored(c, me, router, records, response);
    } else {
      JoinExact(c, me, router, records, response, i);
    }
  }

  ghost predicate AllServe(network: Network, network': Network) {
    network'.Keys == network.Keys && forall h :: h in network ==> Serves(network[h], network'[h])
  }

  lemma ServesOn(a: Network, b: Network, c: Network)
    requires AllServe(a, b) && AllServe(b, c)
    ensures AllServe(a, c)
  {
    forall h | h in a ensures Serves(a[h], c[h]) {
      assert Serves(a[h], b[h]) && Serves(b[h], c[h]);
    }
  }

  /** No build message, wherever it travels, alters a tunnel in use anywhere. */
  lemma {:induction false} TravelKeeps(c: Crypto, network: Network, msg: Answer, responses: seq<Record>)
    ensures AllServe(network, Travel(c, network, msg, responses).network)
    decreases responses
  {
    if responses != [] && msg.Onward? && msg.to in network {
      var (router, answer) := Participate(c, msg.to, network[msg.to], msg.records, responses[0]);
      JoinKeeps(c, msg.to, network[msg.to], msg.records, responses[0]);
      var network' := network[msg.to := router];
      assert AllServe(network, network');
      TravelKeeps(c, network', answer, responses[1..]);
      ServesOn(network, network', Travel(c, network', answer, responses[1..]).network);
    }
  }

  // --------------------------------------------------------------------- tunnel data

  /** Tunnel data goes on iff we are a participant of that tunnel, and arrives iff we are its
      endpoint, each time under our layer; a gateway and a stranger drop it. */
  lemma RelayExact(layer: LayerFn, router: Router, id: uint32, data: seq<byte>)
    ensures id !in router.participating ==> Relay(layer, router, id, data) == Lost
    ensures id in router.participating ==>
      var hop := router.participating[id];
      var fate := Relay(layer, router, id, data);
      && (fate.Lost? <==> hop.flags >= 128)
      && (fate.Passed? <==> hop.flags < 64)
      && (!fate.Lost? ==> fate.data == layer(hop.ivKey, hop.layerKey, data))
      && (fate.Passed? ==> fate.to == hop.nextHash && fate.tunnelId == hop.nextTunnelId)
  {
  }

  /** Data for the gateway of a tunnel is dropped by its other hops, handed to ourselves as
      it came for an inbound tunnel of our own that we do not serve for others, and dropped
      for any other tunnel.  The gateway sends exactly one message per fragment. */
  lemma GatewayExact(layer: LayerFn, sha: Messages.Sha, d: Draws, router: Router, own: set<uint32>,
                     from: Bytes32, id: uint32, data: seq<byte>)
    ensures var h := GatewayData(layer, sha, d, router, own, from, id, data);
      && (h.Recirculated? <==> id !in router.participating && id in own)
      && (h.Recirculated? ==> h == Recirculated(from, data))
      && (h.Dropped? <==> if id in router.participating then router.participating[id].flags < 128 else id !in own)
      && (h.Forwarded? ==>
            && Fragments.Fragmented(d.msgId, data).Ok?
            && |h.sent| == |Fragments.Fragmented(d.msgId, data).value|
            && forall i :: 0 <= i < |h.sent| ==>
                 && h.sent[i].Passed? && h.sent[i].to == router.participating[id].nextHash
                 && h.sent[i].tunnelId == router.participating[id].nextTunnelId)
  {
  }
}
