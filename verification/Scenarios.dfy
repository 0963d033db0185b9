/**
 Particular sessions: what the server does where one might expect something else,
 shown on messages a client can send.
 */
module Scenarios {
  import opened Wrappers
  import opened Bytes
  import opened Enums
  import opened DhcpOptions
  import opened OptionArea
  import opened Packet
  import opened Leases
  import opened Reply
  import opened Store
  import opened StoreRuns
  import opened Server
  import opened Sessions

  /** What a client puts into every message of an exchange. */
  datatype Client = Client(chaddr: Bytes16, xid: u32)

  function Message(c: Client, kind: MessageType, ciaddr: u32, yiaddr: u32, more: Options): DhcpPacket {
    DhcpPacket(BootRequest, Ethernet, 6, 0, c.xid, 0, 0, ciaddr, yiaddr, 0, 0, c.chaddr, Zeros(64), Zeros(128), COOKIE,
               [DhcpOption(DHCPMSGTYPE, Msg(kind))] + more, None, kind == Discover)
  }

  function ServerId(server: u32): DhcpOption {
    DhcpOption(DHCPSERVERID, Addr(server))
  }

  function DiscoverMessage(c: Client): DhcpPacket {
    Message(c, Discover, 0, 0, [])
  }

  /** Section 4.4.1 of RFC 2131: the address in `ciaddr`, the server's identifier, `yiaddr` left 0. */
  function ReleaseMessage(c: Client, server: u32, ciaddr: u32, yiaddr: u32): DhcpPacket {
    Message(c, Release, ciaddr, yiaddr, [ServerId(server)])
  }

  /** A renewing request of section 4.3.2 of RFC 2131: the address in `ciaddr`, no server identifier. */
  function RenewMessage(c: Client, ciaddr: u32): DhcpPacket {
    Message(c, Request, ciaddr, 0, [])
  }

  /** Section 4.4.1 of RFC 2131: the declined address in option 50, the server's identifier. */
  function DeclineMessage(c: Client, server: u32, ip: u32): DhcpPacket {
    Message(c, Decline, 0, 0, [ServerId(server), DhcpOption(ADDRESSREQUEST, Addr(ip))])
  }

  /** The message as it reaches the server: discovers by broadcast, the others at its address. */
  function Arrives(packet: DhcpPacket, server: u32, now: int): Input {
    Input(EncodePacket(packet), Some(if packet.receivedByBroadcast then BROADCAST else server), server, now)
  }

  lemma AddressCarried(code: byte, ip: u32)
    requires code in {DHCPSERVERID, ADDRESSREQUEST}
    ensures Carried(DhcpOption(code, Addr(ip)))
  {
  }

  lemma MessageFacts(c: Client, kind: MessageType, ciaddr: u32, yiaddr: u32, more: Options)
    requires !kind.UnknownMessage? && AllCarried(more)
    ensures var packet := Message(c, kind, ciaddr, yiaddr, more);
      && WellFormedPacket(packet) && MessageTypeOf(packet.options) == Some(kind)
      && forall code: byte :: code != DHCPMSGTYPE ==> GetOption(packet.options, code) == GetOption(more, code)
  {
    hide Carried;
    TypeCarried(kind);
    var packet := Message(c, kind, ciaddr, yiaddr, more);
    assert packet.options[1..] == more;
  }

  lemma ArrivesAs(packet: DhcpPacket, server: u32, now: int, handler: Handler)
    requires WellFormedPacket(packet) && packet.maxClientMessageSize == None && packet.giaddr == 0
    requires server != BROADCAST
    requires HandlerFor(packet) == Some(handler) && !ForOtherServer(packet, server)
    ensures Received(Arrives(packet, server, now)) == Ok(packet)
    ensures CallOf(Arrives(packet, server, now)) == Some(Call(handler, server, packet, now))
  {
    hide DecodePacket, EncodePacket, WellFormedPacket, HandlerFor, ForOtherServer;
    PacketRoundTrip(packet);
  }

  lemma ArrivalTime(packet: DhcpPacket, server: u32, now: int)
    ensures Arrives(packet, server, now).now == now && Arrives(packet, server, now).recvIp == server
  {
  }

  lemma OwnServerId(server: u32, more: Options)
    ensures GetOption([ServerId(server)] + more, DHCPSERVERID) == Some(ServerId(server))
    ensures GetOption([], DHCPSERVERID) == None && GetOption([], ADDRESSREQUEST) == None
  {
  }

  // ---- Discovers ----

  lemma DiscoverArrives(c: Client, server: u32, now: int)
    requires server != BROADCAST
    ensures var packet, input := DiscoverMessage(c), Arrives(DiscoverMessage(c), server, now);
      && Received(input) == Ok(packet) && CallOf(input) == Some(Call(HandleDiscover, server, packet, now))
      && MessageTypeOf(packet.options) == Some(Discover) && packet.xid == c.xid && !ForOtherServer(packet, server)
      && (forall ip: u32 :: Destined(packet, ip) <==> ip != 0)
  {
    hide WellFormedPacket, GetOption, Received, CallOf, Arrives;
    MessageFacts(c, Discover, 0, 0, []);
    OwnServerId(server, []);
    ArrivesAs(DiscoverMessage(c), server, now, HandleDiscover);
  }

  lemma FirstUnused(cfg: Config, db: Database, packet: DhcpPacket, now: int)
    requires cfg.scopeStart < cfg.scopeEnd && cfg.scopeStart !in db && CanServe(cfg, packet)
    ensures Unused(cfg, db) == Some(cfg.scopeStart) && MayChoose(cfg, db, now, cfg.scopeStart)
    ensures DiscoverSafe(cfg, db, packet, now)
  {
    hide CanServe;
  }

  lemma DiscoverStep(cfg: Config, db: Database, call: Call, ip: u32)
    requires call.handler == HandleDiscover && CanServe(cfg, call.packet) && MayChoose(cfg, db, call.now, ip)
    ensures var lease := NewLease(cfg, call.packet, ip, call.now); Step(cfg, db, call, db[ip := lease], Leased(lease))
  {
    hide CanServe, MayChoose, RequestedParams, ParamOptions;
  }

  /** Any session that leaves the first address of the scope free goes on with a discover that gets it. */
  lemma AppendDiscover(cfg: Config, s: Session, c: Client, server: u32, now: int) returns (more: Session)
    requires WellFormedConfig(cfg) && ValidSession(cfg, s) && server != BROADCAST
    requires cfg.scopeStart < cfg.scopeEnd && cfg.scopeStart !in s.dbs[|s.inputs|]
    requires forall k :: 0 <= k < |s.inputs| ==> s.inputs[k].now <= now
    ensures var ip, db := cfg.scopeStart, s.dbs[|s.inputs|];
      && ValidSession(cfg, more) && more.inputs == s.inputs + [Arrives(DiscoverMessage(c), server, now)]
      && more.dbs == s.dbs + [db[ip := NewLease(cfg, DiscoverMessage(c), ip, now)]] && s.sents <= more.sents
      && |more.sents| == |s.sents| + 1
      && (if ip == 0 then more.sents[|s.sents|] == None else WireAnswer(more.sents[|s.sents|], Offer, ip))
  {
    hide WellFormedConfig, Arrives, Received, CallOf, DiscoverMessage, ForOtherServer, MessageTypeOf, Step, SentFor,
      NewLease, MayChoose, CanServe, DiscoverSafe, Unused, WireAnswer, ServerStep, Destined, Inv;
    var db, ip, input := s.dbs[|s.inputs|], cfg.scopeStart, Arrives(DiscoverMessage(c), server, now);
    DiscoverArrives(c, server, now);
    ArrivalTime(DiscoverMessage(c), server, now);
    ServesAll(cfg, DiscoverMessage(c));
    FirstUnused(cfg, db, DiscoverMessage(c), now);
    DiscoverStep(cfg, db, CallOf(input).value, ip);
    var lease := NewLease(cfg, DiscoverMessage(c), ip, now);
    more := Append(cfg, s, input, db[ip := lease], Leased(lease));
    SessionAt(cfg, more, |s.inputs|);
    DiscoverReads(cfg, db, input, db[ip := lease], more.sents[|s.sents|], DiscoverMessage(c));
  }

  lemma DiscoverReads(cfg: Config, before: Database, input: Input, after: Database, sent: Option<Datagram>,
                      packet: DhcpPacket)
    requires WellFormedConfig(cfg) && Inv(cfg, before, input.now) && ServerStep(cfg, before, input, after, sent)
    requires Received(input) == Ok(packet) && MessageTypeOf(packet.options) == Some(Discover)
    requires !ForOtherServer(packet, input.recvIp) && (forall ip: u32 :: Destined(packet, ip) <==> ip != 0)
    requires Unused(cfg, before) == Some(cfg.scopeStart)
    ensures if cfg.scopeStart == 0 then sent == None else WireAnswer(sent, Offer, cfg.scopeStart)
  {
    hide WellFormedConfig, DecodePacket, ClientRead, ForOtherServer, MessageTypeOf, Processed, Grants, GrantDest, Inv,
      Destined, NewLease, CanServe, Makeable, Room, Addressed, Takes, NewFor, StoreLease, Unused;
    ServesAll(cfg, packet);
    MakeableIs(cfg, packet);
    AddressedIs(packet, input.recvIp);
    RoomIs(cfg, before, input.now);
    var ip :=
      DiscoverAnswered(cfg, before, input.data, input.destination, input.recvIp, input.now, after, sent, packet);
    if sent.Some? {
      OfferEndToEnd(cfg, before, input.data, input.destination, input.recvIp, input.now, after, sent.value, packet);
    }
  }

  function NoSession(): Session {
    Session([], [map[]], [])
  }

  /** A session of one discover, which gets the first address of the scope. */
  lemma FirstLease(cfg: Config, c: Client, server: u32, now: int) returns (s: Session)
    requires WellFormedConfig(cfg) && cfg.scopeStart < cfg.scopeEnd && server != BROADCAST
    ensures var ip := cfg.scopeStart;
      && ValidSession(cfg, s) && s.inputs == [Arrives(DiscoverMessage(c), server, now)]
      && |s.dbs| == 2 && |s.sents| == 1 && s.dbs[0] == map[]
      && s.dbs[1] == map[ip := NewLease(cfg, DiscoverMessage(c), ip, now)]
      && s.dbs[1][ip].xid == c.xid && Expiry(s.dbs[1][ip]) == now + LEASE_SECS && StoreLease(cfg, ip, s.dbs[1][ip])
      && (if ip == 0 then s.sents[0] == None else WireAnswer(s.sents[0], Offer, ip))
  {
    hide WellFormedConfig, ServerStep, NewLease, WireAnswer, Arrives, DiscoverMessage, StoreLease, Expiry;
    assert ValidSession(cfg, NoSession());
    s := AppendDiscover(cfg, NoSession(), c, server, now);
    NewLeaseTime(cfg, DiscoverMessage(c), cfg.scopeStart, now);
    NewLeaseIsStoreLease(cfg, DiscoverMessage(c), cfg.scopeStart, now);
    DiscoverXid(c);
  }

  lemma DiscoverXid(c: Client)
    ensures DiscoverMessage(c).xid == c.xid
  {
  }

  /** With 0.0.0.0 in the scope, a discover is given it and not told: the lease is made and nothing is sent. */
  lemma UnsentOffer(cfg: Config, c: Client, server: u32, now: int) returns (s: Session)
    requires WellFormedConfig(cfg) && cfg.scopeStart == 0 < cfg.scopeEnd && server != BROADCAST
    ensures ValidSession(cfg, s) && s.inputs == [Arrives(DiscoverMessage(c), server, now)]
    ensures |s.dbs| == 2 && 0 in s.dbs[1] && s.dbs[1][0].xid == c.xid && s.sents == [None]
  {
    hide WellFormedConfig, ValidSession, NewLease, Arrives, StoreLease;
    s := FirstLease(cfg, c, server, now);
  }

  // ---- Releases ----

  lemma ReleaseArrives(c: Client, server: u32, ciaddr: u32, yiaddr: u32, now: int)
    requires server != BROADCAST
    ensures var packet := ReleaseMessage(c, server, ciaddr, yiaddr);
      && CallOf(Arrives(packet, server, now)) == Some(Call(HandleRelease, server, packet, now))
      && packet.yiaddr == yiaddr
  {
    hide WellFormedPacket, GetOption, Received, CallOf, Arrives, Carried;
    AddressCarried(DHCPSERVERID, server);
    MessageFacts(c, Release, ciaddr, yiaddr, [ServerId(server)]);
    OwnServerId(server, []);
    assert [ServerId(server)] + [] == [ServerId(server)];
    ArrivesAs(ReleaseMessage(c, server, ciaddr, yiaddr), server, now, HandleRelease);
  }

  lemma AppendRelease(cfg: Config, s: Session, c: Client, server: u32, ciaddr: u32, yiaddr: u32, now: int)
    returns (more: Session)
    requires ValidSession(cfg, s) && server != BROADCAST
    requires forall k :: 0 <= k < |s.inputs| ==> s.inputs[k].now <= now
    ensures ValidSession(cfg, more)
    ensures more.inputs == s.inputs + [Arrives(ReleaseMessage(c, server, ciaddr, yiaddr), server, now)]
    ensures more.dbs == s.dbs + [s.dbs[|s.inputs|] - {yiaddr}] && s.sents <= more.sents && |more.sents| == |s.sents| + 1
  {
    hide ServerStep, Arrives, CallOf, ReleaseMessage, SentFor, DiscoverSafe;
    var input := Arrives(ReleaseMessage(c, server, ciaddr, yiaddr), server, now);
    ReleaseArrives(c, server, ciaddr, yiaddr, now);
    ArrivalTime(ReleaseMessage(c, server, ciaddr, yiaddr), server, now);
    more := Append(cfg, s, input, s.dbs[|s.inputs|] - {yiaddr}, Finished);
  }

  /** A client that releases its address as section 4.4.1 of RFC 2131 has it does not get rid of it. */
  lemma ReleasedLeaseStays(cfg: Config, c: Client, server: u32, now: int, later: int) returns (s: Session)
    requires WellFormedConfig(cfg) && 0 < cfg.scopeStart < cfg.scopeEnd && server != BROADCAST && now <= later
    ensures var ip := cfg.scopeStart;
      && ValidSession(cfg, s)
      && s.inputs == [Arrives(DiscoverMessage(c), server, now),
                      Arrives(ReleaseMessage(c, server, ip, 0), server, later)]
      && |s.dbs| == 3 && ip in s.dbs[1] && s.dbs[1][ip].xid == c.xid && s.dbs[2] == s.dbs[1]
  {
    hide WellFormedConfig, ValidSession, NewLease, Arrives, StoreLease, DiscoverMessage, ReleaseMessage, WireAnswer;
    var one := FirstLease(cfg, c, server, now);
    ArrivalTime(DiscoverMessage(c), server, now);
    s := AppendRelease(cfg, one, c, server, cfg.scopeStart, 0, later);
    assert one.dbs[1] - {0} == one.dbs[1];
  }

  /** A release from any other client that names the address in `yiaddr` takes away the lease, current as it is. */
  lemma StrangerReleases(cfg: Config, tenant: Client, stranger: Client, server: u32, ciaddr: u32, now: int, later: int)
    returns (s: Session)
    requires WellFormedConfig(cfg) && cfg.scopeStart < cfg.scopeEnd && server != BROADCAST
    requires now <= later < now + LEASE_SECS
    ensures var ip := cfg.scopeStart;
      && ValidSession(cfg, s)
      && s.inputs == [Arrives(DiscoverMessage(tenant), server, now),
                      Arrives(ReleaseMessage(stranger, server, ciaddr, ip), server, later)]
      && |s.dbs| == 3 && ip in s.dbs[1] && s.dbs[1][ip].xid == tenant.xid && IsCurrent(s.dbs[1][ip], later)
      && ip !in s.dbs[2]
  {
    hide WellFormedConfig, ValidSession, NewLease, Arrives, StoreLease, DiscoverMessage, ReleaseMessage, WireAnswer;
    var one := FirstLease(cfg, tenant, server, now);
    ArrivalTime(DiscoverMessage(tenant), server, now);
    s := AppendRelease(cfg, one, stranger, server, ciaddr, cfg.scopeStart, later);
  }

  // ---- Renewals ----

  lemma RenewArrives(c: Client, server: u32, ip: u32, now: int)
    requires server != BROADCAST && ip != 0
    ensures var packet, input := RenewMessage(c, ip), Arrives(RenewMessage(c, ip), server, now);
      && Received(input) == Ok(packet) && CallOf(input) == Some(Call(HandleRenewing, server, packet, now))
      && RenewalAddress(packet) == ip && packet.op != BootReply && RequestShape(packet, Renewing) && packet.ciaddr == ip
      && MessageTypeOf(packet.options) == Some(Request) && !ForOtherServer(packet, server)
  {
    hide WellFormedPacket, GetOption, Received, CallOf, Arrives;
    MessageFacts(c, Request, ip, 0, []);
    OwnServerId(server, []);
    ArrivesAs(RenewMessage(c, ip), server, now, HandleRenewing);
  }

  lemma RenewalStep(cfg: Config, db: Database, call: Call, ip: u32)
    requires call.handler == HandleRenewing && RenewalAddress(call.packet) == ip && ip != 0
    requires ip in db && StoreLease(cfg, ip, db[ip])
    ensures var renewed := db[ip].(leaseTime := call.now);
      Step(cfg, db, call, db[ip := renewed], Leased(renewed))
  {
    hide RenewalAddress, StoreOptions;
  }

  /** Any session that leaves a lease at the address goes on with an acknowledged renewal, by any client. */
  lemma AppendRenewal(cfg: Config, s: Session, c: Client, server: u32, ip: u32, now: int) returns (more: Session)
    requires WellFormedConfig(cfg) && ValidSession(cfg, s) && ip != 0 && server != BROADCAST
    requires forall k :: 0 <= k < |s.inputs| ==> s.inputs[k].now <= now
    requires var db := s.dbs[|s.inputs|]; ip in db && StoreLease(cfg, ip, db[ip])
    ensures var db := s.dbs[|s.inputs|];
      && ValidSession(cfg, more) && more.inputs == s.inputs + [Arrives(RenewMessage(c, ip), server, now)]
      && more.dbs == s.dbs + [db[ip := db[ip].(leaseTime := now)]]
      && |more.sents| == |s.sents| + 1 && WireAnswer(more.sents[|s.sents|], Acknowledge, ip)
  {
    hide WellFormedConfig, Received, ForOtherServer, MessageTypeOf, WireAnswer, SentFor, RenewMessage, Arrives, CallOf,
      StoreLease, DiscoverSafe, RequestShape, ServerStep, Step, Inv, RenewalAddress;
    var db, input := s.dbs[|s.inputs|], Arrives(RenewMessage(c, ip), server, now);
    ArrivalTime(RenewMessage(c, ip), server, now);
    RenewArrives(c, server, ip, now);
    RenewalStep(cfg, db, CallOf(input).value, ip);
    more := Append(cfg, s, input, db[ip := db[ip].(leaseTime := now)], Leased(db[ip].(leaseTime := now)));
    SessionAt(cfg, more, |s.inputs|);
    StrangerReads(cfg, db, input, more.dbs[|s.inputs| + 1], more.sents[|s.inputs|], RenewMessage(c, ip));
  }

  lemma StrangerReads(cfg: Config, before: Database, input: Input, after: Database, sent: Option<Datagram>,
                      packet: DhcpPacket)
    requires WellFormedConfig(cfg) && Inv(cfg, before, input.now) && ServerStep(cfg, before, input, after, sent)
    requires Received(input) == Ok(packet) && MessageTypeOf(packet.options) == Some(Request)
    requires !ForOtherServer(packet, input.recvIp) && packet.op != BootReply
    requires RequestShape(packet, Renewing) && packet.ciaddr in before
    ensures WireAnswer(sent, Acknowledge, packet.ciaddr)
  {
    hide WellFormedConfig, DecodePacket, ClientRead, ForOtherServer, MessageTypeOf, RequestedAddress, RequestShape,
      Processed, Grants, GrantDest, Inv, Destined, Addressed;
    AddressedIs(packet, input.recvIp);
    RequestAnswered(cfg, before, input.data, input.destination, input.recvIp, input.now, after, sent, packet);
    AckEndToEnd(cfg, before, input.data, input.destination, input.recvIp, input.now, after, sent.value, packet);
    ClassificationExact(packet, Renewing, Selecting);
  }

  /**
   Another client that claims an expired address in `ciaddr` has its request
   acknowledged, and the old tenant's lease is current again.
   */
  lemma StrangerRenews(cfg: Config, tenant: Client, stranger: Client, server: u32, now: int, later: int)
    returns (s: Session)
    requires WellFormedConfig(cfg) && 0 < cfg.scopeStart < cfg.scopeEnd && server != BROADCAST
    requires now + LEASE_SECS <= later
    ensures var ip := cfg.scopeStart;
      && ValidSession(cfg, s)
      && s.inputs == [Arrives(DiscoverMessage(tenant), server, now), Arrives(RenewMessage(stranger, ip), server, later)]
      && |s.dbs| == 3 && |s.sents| == 2
      && ip in s.dbs[1] && s.dbs[1][ip].xid == tenant.xid && !IsCurrent(s.dbs[1][ip], later)
      && WireAnswer(s.sents[1], Acknowledge, ip)
      && ip in s.dbs[2] && s.dbs[2][ip].xid == tenant.xid && IsCurrent(s.dbs[2][ip], later)
  {
    hide WellFormedConfig, ValidSession, WireAnswer, Arrives, DiscoverMessage, RenewMessage, NewLease, StoreOptions;
    var one := FirstLease(cfg, tenant, server, now);
    ArrivalTime(DiscoverMessage(tenant), server, now);
    s := AppendRenewal(cfg, one, stranger, server, cfg.scopeStart, later);
  }

  // ---- Declines ----

  lemma DeclineArrives(c: Client, server: u32, ip: u32, now: int)
    requires server != BROADCAST
    ensures var packet, input := DeclineMessage(c, server, ip), Arrives(DeclineMessage(c, server, ip), server, now);
      && CallOf(input) == Some(Call(HandleDecline, server, packet, now)) && packet.xid == c.xid
  {
    hide WellFormedPacket, GetOption, Received, CallOf, Arrives, Carried;
    var more := [ServerId(server), DhcpOption(ADDRESSREQUEST, Addr(ip))];
    AddressCarried(DHCPSERVERID, server);
    AddressCarried(ADDRESSREQUEST, ip);
    MessageFacts(c, Decline, 0, 0, more);
    OwnServerId(server, [more[1]]);
    assert [ServerId(server)] + [more[1]] == more;
    ArrivesAs(DeclineMessage(c, server, ip), server, now, HandleDecline);
  }

  lemma DeclineStep(cfg: Config, db: Database, call: Call, ip: u32)
    requires call.handler == HandleDecline && ip in db && db[ip].xid == call.packet.xid && StoreLease(cfg, ip, db[ip])
    ensures Step(cfg, db, call, db - {ip}, Finished)
  {
    hide StoreOptions;
    assert db - {ip} == WithoutLease(db, db[ip]);
  }

  /**
   A declined address is not kept back, as section 4.3.3 of RFC 2131 asks: the next
   client to discover reads an offer of it.
   */
  lemma DeclinedAddressReturns(cfg: Config, c: Client, other: Client, server: u32, now: int, later: int, last: int)
    returns (s: Session)
    requires WellFormedConfig(cfg) && 0 < cfg.scopeStart < cfg.scopeEnd && server != BROADCAST && now <= later <= last
    ensures var ip := cfg.scopeStart;
      && ValidSession(cfg, s)
      && s.inputs == [Arrives(DiscoverMessage(c), server, now), Arrives(DeclineMessage(c, server, ip), server, later),
                      Arrives(DiscoverMessage(other), server, last)]
      && |s.sents| == 3 && WireAnswer(s.sents[0], Offer, ip) && WireAnswer(s.sents[2], Offer, ip)
  {
    hide WellFormedConfig, ServerStep, NewLease, Arrives, StoreLease, DiscoverMessage, DeclineMessage, WireAnswer,
      CallOf, SentFor, DiscoverSafe, Step;
    var ip := cfg.scopeStart;
    var one := FirstLease(cfg, c, server, now);
    ArrivalTime(DiscoverMessage(c), server, now);
    ArrivalTime(DeclineMessage(c, server, ip), server, later);
    DeclineArrives(c, server, ip, later);
    var input := Arrives(DeclineMessage(c, server, ip), server, later);
    DeclineStep(cfg, one.dbs[1], CallOf(input).value, ip);
    var two := Append(cfg, one, input, one.dbs[1] - {ip}, Finished);
    s := AppendDiscover(cfg, two, other, server, last);
  }
}
