/**
 Concurrent handlers on the wire: the server runs one task for each datagram, and
 whatever the order of their steps, clients read from the answers what the store did.
 */
module WireInterleaving {
  import opened Wrappers
  import opened Bytes
  import opened Enums
  import opened OptionArea
  import opened Packet
  import opened Leases
  import opened Reply
  import opened Store
  import opened StoreRuns
  import opened Interleaving
  import opened Server

  /** The handler is the one a received datagram with this packet leads to. */
  ghost predicate FromWire(handler: Handler, packet: DhcpPacket) {
    && HandlerFor(packet) == Some(handler)
    && exists data: seq<byte>, broadcast: bool :: DecodePacket(data, broadcast) == Ok(packet)
  }

  /** An interleaving in which every handler was started for a received datagram. */
  ghost predicate WireTrace(cfg: Config, tr: Trace) {
    && ValidTrace(cfg, tr)
    && forall k :: 0 <= k < |tr.actions| && tr.actions[k].Spawn? ==>
         FromWire(tr.actions[k].handler, tr.actions[k].packet)
  }

  lemma {:induction false} JobsFromWire(cfg: Config, tr: Trace, k: nat)
    requires WireTrace(cfg, tr) && k <= |tr.actions|
    ensures forall i :: 0 <= i < |tr.states[k].jobs| ==>
      FromWire(tr.states[k].jobs[i].handler, tr.states[k].jobs[i].packet)
  {
    hide FromWire, TaskStep;
    if k == 0 {
    } else {
      JobsFromWire(cfg, tr, k - 1);
      assert Next(cfg, tr.states[k - 1], tr.actions[k - 1], tr.states[k]);
    }
  }

  /** The client reads the answer to the packet as one of the given type that grants it the address. */
  ghost predicate ReadsGrant(cfg: Config, packet: DhcpPacket, lease: Lease, serverIp: u32, kind: MessageType, ip: u32) {
    var read := ClientRead(EncodePacket(Respond(packet, lease.(serverIdentifier := serverIp))));
    && read.Ok? && MessageTypeOf(read.value.options) == Some(kind)
    && Grants(read.value, packet, kind, Ipv4Net(ip, cfg.subnetMask), serverIp, LeaseOptions(lease))
  }

  function AnswerKind(handler: Handler): MessageType {
    if handler == HandleDiscover then Offer else Acknowledge
  }

  lemma WireAnswered(handler: Handler, packet: DhcpPacket)
    requires FromWire(handler, packet)
    requires handler in {HandleDiscover, HandleSelecting, HandleRenewing, HandleRebinding}
    ensures WellFormedPacket(packet) && Answered(packet) && ResponseType(packet) == AnswerKind(handler)
    ensures MessageTypeOf(packet.options) == Some(if handler == HandleDiscover then Discover else Request)
  {
    hide DecodePacket, WellFormedPacket, GetOption, ClientStateOf;
    var data: seq<byte>, broadcast: bool :| DecodePacket(data, broadcast) == Ok(packet);
    DecodedIsWellFormed(data, broadcast);
  }

  /** Where a handler of an interleaving stands when it has a lease to answer with. */
  predicate Granted(tr: Trace, k: nat, i: nat) {
    k < |tr.states| && i < |tr.states[k].jobs| && tr.states[k].jobs[i].at.Done? && tr.states[k].jobs[i].at.out.Leased?
  }

  /**
   In every interleaving, whatever lease a handler answers a datagram with reads
   back as an offer or acknowledgement of an address of the scope, with the
   client's identity and this server's id, and is sent if it has somewhere to go.
   */
  lemma GrantsReadBack(cfg: Config, tr: Trace, k: nat, i: nat, serverIp: u32)
    requires WellFormedConfig(cfg) && WireTrace(cfg, tr) && Granted(tr, k, i)
    ensures var job := tr.states[k].jobs[i];
      var lease := job.at.out.lease;
      && lease.yiaddr.Some?
      && var ip := lease.yiaddr.value.addr;
      && cfg.scopeStart <= ip < cfg.scopeEnd
      && ReadsGrant(cfg, job.packet, lease, serverIp, AnswerKind(job.handler), ip)
      && (SentFor(job.packet, job.at.out, serverIp).Some? <==> Destined(job.packet, ip))
  {
    hide StoreOptions, FromWire, WellFormedConfig, WellFormedPacket, ClientRead, EncodePacket, Respond, Grants,
      Answered, ResponseType, SentFor, Destined;
    var s, job := tr.states[k], tr.states[k].jobs[i];
    JobsFromWire(cfg, tr, k);
    TraceSafe(cfg, tr, k);
    assert JobOk(cfg, s, job);
    var ip := job.at.out.lease.yiaddr.value.addr;
    WireAnswered(job.handler, job.packet);
    var kind := AnswerKind(job.handler);
    GrantReadBack(cfg, job.packet, kind, ip, job.at.out.lease, serverIp);
    GrantsAddress(ClientRead(EncodePacket(Respond(job.packet, job.at.out.lease.(serverIdentifier := serverIp)))).value,
                  job.packet, kind, Ipv4Net(ip, cfg.subnetMask), serverIp, LeaseOptions(job.at.out.lease));
    GrantSent(job.packet, job.at.out.lease, serverIp);
  }

  /**
   In every interleaving, a client that selects an address and reads it
   acknowledged rests on an earlier answer of another handler: one to a discover
   of the same transaction, which its client reads as an offer of that address.
   */
  lemma AcknowledgeRestsOnOffer(cfg: Config, tr: Trace, k: nat, i: nat, serverIp: u32) returns (j: nat, d: nat)
    requires WellFormedConfig(cfg) && WireTrace(cfg, tr) && Granted(tr, k, i)
    requires tr.states[k].jobs[i].handler == HandleSelecting
    ensures j < k && Granted(tr, j + 1, d)
    ensures var job, earlier := tr.states[k].jobs[i], tr.states[j + 1].jobs[d];
      && job.at.out.lease.yiaddr.Some?
      && var ip := job.at.out.lease.yiaddr.value.addr;
      && earlier.handler == HandleDiscover && earlier.packet.xid == job.packet.xid
      && ReadsGrant(cfg, job.packet, job.at.out.lease, serverIp, Acknowledge, ip)
      && ReadsGrant(cfg, earlier.packet, earlier.at.out.lease, serverIp, Offer, ip)
  {
    hide ReadsGrant, WireTrace, WellFormedConfig, ValidTrace;
    GrantsReadBack(cfg, tr, k, i, serverIp);
    WireTraceValid(cfg, tr);
    j, d := SelectingRestsOnAnswer(cfg, tr, k, i);
    GrantsReadBack(cfg, tr, j + 1, d, serverIp);
  }

  lemma WireTraceValid(cfg: Config, tr: Trace)
    requires WireTrace(cfg, tr)
    ensures ValidTrace(cfg, tr) && |tr.states| == |tr.actions| + 1
  {
    hide Next;
  }

  /**
   The race on the wire: with any non-empty scope, the clients of any two concurrent
   discovers can both read an offer of its first address, and both are sent it
   unless that is 0.0.0.0.
   */
  lemma RacingOffers(cfg: Config, p: DhcpPacket, q: DhcpPacket, now: int, serverIp: u32) returns (tr: Trace, s: State)
    requires WellFormedConfig(cfg) && cfg.scopeStart < cfg.scopeEnd
    requires FromWire(HandleDiscover, p) && FromWire(HandleDiscover, q)
    ensures WireTrace(cfg, tr) && tr.states[|tr.actions|] == s && |s.jobs| == 2
    ensures s.jobs[0].packet == p && s.jobs[1].packet == q
    ensures Granted(tr, |tr.actions|, 0) && Granted(tr, |tr.actions|, 1)
    ensures ReadsGrant(cfg, p, s.jobs[0].at.out.lease, serverIp, Offer, cfg.scopeStart)
    ensures ReadsGrant(cfg, q, s.jobs[1].at.out.lease, serverIp, Offer, cfg.scopeStart)
    ensures cfg.scopeStart > 0 ==>
      SentFor(p, s.jobs[0].at.out, serverIp).Some? && SentFor(q, s.jobs[1].at.out, serverIp).Some?
  {
    hide FromWire, WellFormedConfig, Next, ReadsGrant, NewLease, SentFor;
    ServesAll(cfg, p);
    ServesAll(cfg, q);
    tr, s := RacingDiscovers(cfg, p, q, now);
    RacerReads(cfg, p, now, serverIp);
    RacerReads(cfg, q, now, serverIp);
    GrantsReadBack(cfg, tr, |tr.actions|, 0, serverIp);
    GrantsReadBack(cfg, tr, |tr.actions|, 1, serverIp);
    NewLeaseAddress(cfg, p, now);
    NewLeaseAddress(cfg, q, now);
  }

  lemma NewLeaseAddress(cfg: Config, packet: DhcpPacket, now: int)
    ensures var lease := NewLease(cfg, packet, cfg.scopeStart, now);
      lease.yiaddr.Some? && lease.yiaddr.value.addr == cfg.scopeStart
    ensures cfg.scopeStart > 0 ==> Destined(packet, cfg.scopeStart)
  {
    hide ParamOptions, RequestedParams;
  }

  lemma RacerReads(cfg: Config, packet: DhcpPacket, now: int, serverIp: u32)
    requires WellFormedConfig(cfg) && cfg.scopeStart < cfg.scopeEnd && FromWire(HandleDiscover, packet)
    ensures ReadsGrant(cfg, packet, NewLease(cfg, packet, cfg.scopeStart, now), serverIp, Offer, cfg.scopeStart)
  {
    hide WellFormedConfig, FromWire, NewLease, StoreLease, ClientRead, EncodePacket, Respond, Grants, WellFormedPacket,
      Answered, ResponseType;
    var ip := cfg.scopeStart;
    var lease := NewLease(cfg, packet, ip, now);
    WireAnswered(HandleDiscover, packet);
    NewLeaseIsStoreLease(cfg, packet, ip, now);
    GrantReadBack(cfg, packet, Offer, ip, lease, serverIp);
    GrantsAddress(ClientRead(EncodePacket(Respond(packet, lease.(serverIdentifier := serverIp)))).value,
                  packet, Offer, Ipv4Net(ip, cfg.subnetMask), serverIp, LeaseOptions(lease));
  }
}
