/**
 The decision part of the server: from a received datagram to the store call it
 makes and the datagram it answers with.
 */
module Server {
  import opened Wrappers
  import opened Bytes
  import opened Enums
  import opened DhcpOptions
  import opened OptionArea
  import opened Overload
  import opened DomainNames
  import opened Packet
  import opened Leases
  import opened Reply
  import opened Store
  import opened StoreRuns

  datatype Datagram = Datagram(bytes: seq<byte>, dest: Destination)

  /** The request names another server. */
  predicate ForOtherServer(packet: DhcpPacket, recvIp: u32) {
    match GetOption(packet.options, DHCPSERVERID)
    case Some(DhcpOption(_, Addr(server))) => server != recvIp
    case _ => false
  }

  /** The store call a packet leads to, if it leads to one. */
  function HandlerFor(packet: DhcpPacket): Option<Handler> {
    match MessageTypeOf(packet.options)
    case Some(Discover) => Some(HandleDiscover)
    case Some(Request) =>
      (match ClientStateOf(packet)
       case Some(Selecting) => Some(HandleSelecting)
       case Some(InitReboot) => Some(HandleInitReboot)
       case Some(Renewing) => Some(HandleRenewing)
       case Some(Rebinding) => Some(HandleRebinding)
       case _ => None)
    case Some(Inform) => Some(HandleInform)
    case Some(Release) => Some(HandleRelease)
    case Some(Decline) => Some(HandleDecline)
    case _ => None
  }

  function AnswerTo(packet: DhcpPacket, out: Outcome, recvIp: u32): Option<DhcpPacket> {
    match out
    case Leased(lease) => Some(Respond(packet, lease.(serverIdentifier := recvIp)))
    case Failed(LeaseMismatchClientIP) => Some(Nak(packet))
    case _ => None
  }

  function SentFor(packet: DhcpPacket, out: Outcome, recvIp: u32): Option<Datagram> {
    match AnswerTo(packet, out, recvIp)
    case None => None
    case Some(response) =>
      match ResponseDest(packet, response)
      case Ok(dest) => Some(Datagram(EncodePacket(response), dest))
      case Err(_) => None
  }

  function RelayedIp(packet: DhcpPacket, recvIp: u32): u32 {
    if packet.giaddr != 0 then packet.giaddr else recvIp
  }

  /** What one datagram does to the store and what is sent for it. A discover that panics ends its task, no more. */
  ghost predicate Processed(cfg: Config, before: Database, data: seq<byte>, destination: Option<u32>, recvIp: u32,
                            now: int, after: Database, sent: Option<Datagram>) {
    match DecodePacket(data, destination == Some(BROADCAST))
    case Err(_) => after == before && sent == None
    case Ok(packet) =>
      if ForOtherServer(packet, recvIp) || HandlerFor(packet) == None then after == before && sent == None
      else if HandlerFor(packet) == Some(HandleDiscover) && !DiscoverSafe(cfg, before, packet, now)
      then after == before && sent == None
      else
        exists out ::
          && Step(cfg, before, Call(HandlerFor(packet).value, RelayedIp(packet, recvIp), packet, now), after, out)
          && sent == SentFor(packet, out, recvIp)
  }

  /** There is one panic a datagram can lead to: a discover for this server that the configuration cannot serve. */
  predicate ProcessSafe(cfg: Config, db: Database, data: seq<byte>, destination: Option<u32>, recvIp: u32, now: int) {
    match DecodePacket(data, destination == Some(BROADCAST))
    case Err(_) => true
    case Ok(packet) =>
      !ForOtherServer(packet, recvIp) && HandlerFor(packet) == Some(HandleDiscover) ==>
        DiscoverSafe(cfg, db, packet, now)
  }

  method CallStore(store: Memory, handler: Handler, ip: u32, packet: DhcpPacket, now: int) returns (out: Outcome)
    requires handler == HandleDiscover ==> DiscoverSafe(store.cfg, store.database, packet, now)
    modifies store
    ensures Step(store.cfg, old(store.database), Call(handler, ip, packet, now), store.database, out)
  {
    hide Step, DiscoverSafe;
    match handler {
      case HandleDiscover => out := store.Discover(ip, packet, now);
      case HandleSelecting => out := store.Selecting(ip, packet, now);
      case HandleInitReboot => out := store.InitReboot(ip, packet, now);
      case HandleRenewing => out := store.Renewing(ip, packet, now);
      case HandleRebinding => out := store.Rebinding(ip, packet, now);
      case HandleRelease => out := store.Release(ip, packet, now);
      case HandleDecline => out := store.Decline(ip, packet, now);
      case HandleInform => out := store.Inform(ip, packet, now);
    }
  }

  method ProcessPacketData(store: Memory, data: seq<byte>, destination: Option<u32>, recvIp: u32, now: int)
    returns (sent: Option<Datagram>)
    requires ProcessSafe(store.cfg, store.database, data, destination, recvIp, now)
    modifies store
    ensures Processed(store.cfg, old(store.database), data, destination, recvIp, now, store.database, sent)
  {
    hide Step, DiscoverSafe, DecodePacket, EncodePacket, MessageTypeOf, ClientStateOf, ForOtherServer, Respond,
      Nak, ResponseDest, AllCarried;
    var broadcast := destination == Some(BROADCAST);
    var decoded := Packet.FromNetwork(data, broadcast);
    if decoded.Err? {
      return None;
    }
    var packet := decoded.value;
    if ForOtherServer(packet, recvIp) {
      return None;
    }
    var ip := recvIp;
    if packet.giaddr != 0 {
      ip := packet.giaddr;
    }
    var handler := HandlerFor(packet);
    if handler.None? {
      return None;
    }
    var out := CallStore(store, handler.value, ip, packet, now);
    var response: DhcpPacket;
    match out {
      case Leased(lease) => response := Response(packet, lease.(serverIdentifier := recvIp));
      case Failed(LeaseMismatchClientIP) => response := NakReply(packet);
      case _ =>
        assert SentFor(packet, out, recvIp) == None;
        return None;
    }
    var dest := ResponseDest(packet, response);
    if dest.Err? {
      assert SentFor(packet, out, recvIp) == None;
      return None;
    }
    var bytes := Packet.ToNetwork(response);
    sent := Some(Datagram(bytes, dest.value));
    assert sent == SentFor(packet, out, recvIp);
  }

  // ---- End to end ----

  lemma {:induction false} GetInPrefix(head: Options, all: Options, code: byte)
    requires head <= all && GetOption(head, code).Some?
    ensures GetOption(all, code) == GetOption(head, code)
  {
    if head[0].code == code {
    } else {
      assert head[1..] <= all[1..];
      GetInPrefix(head[1..], all[1..], code);
    }
  }

  lemma FixedLookups(packet: DhcpPacket, lease: Lease)
    ensures var head := MandatoryOptions(packet, lease);
      && GetOption(head, DHCPMSGTYPE) == Some(DhcpOption(DHCPMSGTYPE, Msg(ResponseType(packet))))
      && GetOption(head, DHCPSERVERID) == Some(DhcpOption(DHCPSERVERID, Addr(lease.serverIdentifier)))
      && GetOption(head, ADDRESSTIME) == Some(DhcpOption(ADDRESSTIME, U32(LeaseSeconds(lease.leaseDuration))))
  {
    hide ResponseType, LeaseSeconds;
    var head := MandatoryOptions(packet, lease);
    assert head[0].code == DHCPMSGTYPE && head[1].code == DHCPSERVERID && head[2].code == ADDRESSTIME;
    assert head[1..][0] == head[1] && head[1..][1..][0] == head[2];
    assert GetOption(head[1..][1..], ADDRESSTIME) == Some(head[2]);
  }

  lemma EchoLookups(packet: DhcpPacket, lease: Lease)
    requires AllCarried(packet.options) && lease.yiaddr.Some?
    ensures var head := MandatoryOptions(packet, lease);
      && GetOption(head, SUBNETMASK) == Some(DhcpOption(SUBNETMASK, Addr(lease.yiaddr.value.netmask)))
      && (GetOption(packet.options, CLIENTID).Some? ==>
            GetOption(head, CLIENTID) == GetOption(packet.options, CLIENTID))
  {
    FoundIsCarried(packet.options, CLIENTID);
    hide ResponseType, LeaseSeconds, Carried;
    var fixed := FixedOptions(packet, lease);
    var mask := MaskOption(lease);
    assert GetOption(mask, SUBNETMASK) == Some(mask[0]);
    GetAppended(fixed, mask, SUBNETMASK);
    GetInPrefix(fixed + mask, MandatoryOptions(packet, lease), SUBNETMASK);
    if GetOption(packet.options, CLIENTID).Some? {
      var echo := EchoedClientId(packet);
      assert GetOption(echo, CLIENTID) == Some(echo[0]);
      GetAppended(fixed + mask, echo, CLIENTID);
    }
  }

  /** The options of an answer that grants an address for an hour: its own, and then those of the lease. */
  function GrantOptions(kind: MessageType, packet: DhcpPacket, net: Ipv4Net, recvIp: u32, extra: Options): Options {
    [DhcpOption(53, Msg(kind)), DhcpOption(54, Addr(recvIp)), DhcpOption(51, U32(3600)),
     DhcpOption(1, Addr(net.netmask))]
    + (if GetOption(packet.options, 61).Some? then [GetOption(packet.options, 61).value] else [])
    + extra
  }

  /**
   What the client reads from the answer that grants a lease of this store: its
   own identity, the address, the options that every answer has, and those of the
   lease; all of them, or what first fit leaves of them under the client's size limit.
   */
  ghost predicate Grants(view: DhcpPacket, packet: DhcpPacket, kind: MessageType, net: Ipv4Net, recvIp: u32,
                         extra: Options) {
    && view.op == BootReply && view.xid == packet.xid && view.chaddr == packet.chaddr
    && view.htype == packet.htype && view.hlen == packet.hlen && view.hops == 0 && view.secs == 0
    && view.giaddr == packet.giaddr && view.flags == packet.flags && view.ciaddr == packet.ciaddr
    && view.siaddr == packet.siaddr && view.yiaddr == net.addr
    && MessageTypeOf(view.options) == Some(kind)
    && GetOption(view.options, 54) == Some(DhcpOption(54, Addr(recvIp)))
    && GetOption(view.options, 51) == Some(DhcpOption(51, U32(3600)))
    && GetOption(view.options, 1) == Some(DhcpOption(1, Addr(net.netmask)))
    && (GetOption(packet.options, 61).Some? ==> GetOption(view.options, 61) == GetOption(packet.options, 61))
    && Reads(view.options, GrantOptions(kind, packet, net, recvIp, extra), packet, true)
  }

  lemma GrantReadBack(cfg: Config, packet: DhcpPacket, kind: MessageType, ip: u32, stored: Lease, recvIp: u32)
    requires WellFormedConfig(cfg) && WellFormedPacket(packet) && StoreLease(cfg, ip, stored)
    requires var asked := MessageTypeOf(packet.options);
      (kind == Offer && asked == Some(Discover)) || (kind == Acknowledge && asked == Some(Request))
    ensures var read := ClientRead(EncodePacket(Respond(packet, stored.(serverIdentifier := recvIp))));
      read.Ok? && Grants(read.value, packet, kind, Ipv4Net(ip, cfg.subnetMask), recvIp, LeaseOptions(stored))
  {
    hide WellFormedConfig, AllCarried, NoOverload, ClientRead, EncodePacket, GetOption, WellFormedPacket, Respond,
      Reads, MandatoryOptions, MessageTypeOf;
    var lease := stored.(serverIdentifier := recvIp);
    var all := ResponseRead(packet, lease, kind);
    GrantLookups(cfg, packet, kind, ip, stored, recvIp);
    assert all == GrantOptions(kind, packet, Ipv4Net(ip, cfg.subnetMask), recvIp, LeaseOptions(stored));
  }

  lemma GrantLookups(cfg: Config, packet: DhcpPacket, kind: MessageType, ip: u32, stored: Lease, recvIp: u32)
    requires WellFormedConfig(cfg) && WellFormedPacket(packet) && StoreLease(cfg, ip, stored) && Answered(packet)
    requires ResponseType(packet) == kind
    ensures var read := ClientRead(EncodePacket(Respond(packet, stored.(serverIdentifier := recvIp))));
      && read.Ok? && MessageTypeOf(read.value.options) == Some(kind)
      && GetOption(read.value.options, 54) == Some(DhcpOption(54, Addr(recvIp)))
      && GetOption(read.value.options, 51) == Some(DhcpOption(51, U32(3600)))
      && GetOption(read.value.options, 1) == Some(DhcpOption(1, Addr(cfg.subnetMask)))
      && (GetOption(packet.options, 61).Some? ==> GetOption(read.value.options, 61) == GetOption(packet.options, 61))
  {
    hide WellFormedConfig, AllCarried, NoOverload, ClientRead, EncodePacket, MandatoryOptions, GetOption, Delivered,
      ImageOf, ClientLimit, Answered;
    var lease := stored.(serverIdentifier := recvIp);
    var response := Respond(packet, lease);
    ResponseWellFormed(packet, lease);
    WellFormedIsReadable(response);
    ClientReadsEncoded(response);
    MandatorySurvive(packet, lease);
    FixedLookups(packet, lease);
    EchoLookups(packet, lease);
    var head, all := MandatoryOptions(packet, lease), Delivered(response);
    GetInPrefix(head, all, DHCPMSGTYPE);
    GetInPrefix(head, all, DHCPSERVERID);
    GetInPrefix(head, all, ADDRESSTIME);
    GetInPrefix(head, all, SUBNETMASK);
    if GetOption(packet.options, CLIENTID).Some? {
      GetInPrefix(head, all, CLIENTID);
    }
  }

  /** The size the client allows: what option 57 says. */
  predicate WithinLimit(packet: DhcpPacket, size: nat) {
    match GetOption(packet.options, 57)
    case Some(DhcpOption(_, U16(max))) => size <= if max > 576 then max else 576
    case _ => true
  }

  /** The client reads the options of the lease, each code but those of the answer itself. */
  predicate LeaseRead(view: Options, extra: Options) {
    forall code: byte :: code !in {1, 51, 53, 54, 61} ==> GetOption(view, code) == GetOption(extra, code)
  }

  lemma GrantsLease(view: DhcpPacket, packet: DhcpPacket, kind: MessageType, net: Ipv4Net, recvIp: u32, extra: Options)
    requires Grants(view, packet, kind, net, recvIp, extra) && WellFormedPacket(packet)
    requires GetOption(packet.options, 57) == None
    ensures LeaseRead(view.options, extra)
  {
    hide GetOption, AllCarried, MessageTypeOf;
    FoundIsCarried(packet.options, 61);
    var own := GrantOptions(kind, packet, net, recvIp, []);
    assert GrantOptions(kind, packet, net, recvIp, extra) == own + extra;
    forall code: byte | code !in {1, 51, 53, 54, 61} ensures GetOption(view.options, code) == GetOption(extra, code) {
      GetAppended(own, extra, code);
    }
  }

  /** The client reads what the configuration has under each code it asked for, and nothing under any other. */
  predicate AskedRead(cfg: Config, packet: DhcpPacket, view: Options) {
    forall code: byte :: code !in {1, 51, 53, 54, 61} ==>
      if code in AskedCodes(packet) && HasValue(cfg, code)
      then GetOption(view, code).Some? && Gives(cfg, GetOption(view, code).value)
      else GetOption(view, code) == None
  }

  lemma LeaseReadIsAsked(cfg: Config, packet: DhcpPacket, view: Options, extra: Options)
    requires LeaseRead(view, extra) && AnswersAsked(cfg, AskedCodes(packet), extra)
    ensures AskedRead(cfg, packet, view)
  {
    hide GetOption, AskedCodes, HasValue, Gives, AnswersAsked;
    forall code: byte | code !in {1, 51, 53, 54, 61}
      ensures if code in AskedCodes(packet) && HasValue(cfg, code)
        then GetOption(view, code).Some? && Gives(cfg, GetOption(view, code).value)
        else GetOption(view, code) == None
    {
      AnswerExact(cfg, AskedCodes(packet), extra, code);
    }
  }

  /** The address discover takes: the first of the scope without a lease, or if all have one, some expired one. */
  predicate Takes(cfg: Config, db: Database, now: int, ip: u32) {
    && cfg.scopeStart <= ip < cfg.scopeEnd
    && if ip !in db then forall a: int :: cfg.scopeStart <= a < ip ==> a in db
       else (forall a: int :: cfg.scopeStart <= a < cfg.scopeEnd ==> a in db) && db[ip].leaseTime + 3600 <= now
  }

  lemma ChosenIsTaken(cfg: Config, db: Database, now: int, ip: u32)
    requires Inv(cfg, db, now) && MayChoose(cfg, db, now, ip)
    ensures Takes(cfg, db, now, ip)
  {
    hide StoreOptions;
    UnusedIsFirst(db, cfg.scopeStart, cfg.scopeEnd);
    if ip in db {
      assert StoreLease(cfg, ip, db[ip]);
    }
  }

  /** The lease a discover makes: of its transaction, for an hour from now, with what its client asked for. */
  predicate NewFor(cfg: Config, packet: DhcpPacket, now: int, lease: Lease) {
    && lease.xid == packet.xid && lease.leaseTime == now && lease.leaseDuration == 3600
    && AnswersAsked(cfg, AskedCodes(packet), LeaseOptions(lease))
  }

  lemma NewForAnswers(cfg: Config, packet: DhcpPacket, now: int, lease: Lease)
    requires NewFor(cfg, packet, now, lease)
    ensures AnswersAsked(cfg, AskedCodes(packet), LeaseOptions(lease))
  {
  }

  lemma NewLeaseIsFor(cfg: Config, packet: DhcpPacket, ip: u32, now: int)
    ensures NewFor(cfg, packet, now, NewLease(cfg, packet, ip, now))
  {
    hide RequestedParams, AskedCodes, ParamOptions, AnswersAsked;
    AskedAre(packet);
    ParamsAnswer(cfg, AskedCodes(packet));
    assert ParamOptions(cfg, AskedCodes(packet)) == LeaseOptions(NewLease(cfg, packet, ip, now));
  }

  /**
   End to end: whatever is sent for a discover is an offer that an overload-aware
   client reads back with its own identity, the receiving server's identifier, an
   address of the scope that the store now maps to a lease of that transaction,
   and the options it asked for, in a datagram within the size it allows.
   */
  lemma OfferEndToEnd(cfg: Config, before: Database, data: seq<byte>, destination: Option<u32>, recvIp: u32, now: int,
                      after: Database, sent: Datagram, packet: DhcpPacket)
    requires WellFormedConfig(cfg) && Inv(cfg, before, now)
    requires DecodePacket(data, destination == Some(BROADCAST)) == Ok(packet)
    requires MessageTypeOf(packet.options) == Some(Discover)
    requires Processed(cfg, before, data, destination, recvIp, now, after, Some(sent))
    ensures var read := ClientRead(sent.bytes);
      && read.Ok? && MessageTypeOf(read.value.options) == Some(Offer)
      && var ip := read.value.yiaddr;
      && Takes(cfg, before, now, ip) && MayChoose(cfg, before, now, ip)
      && ip in after && after == before[ip := after[ip]] && NewFor(cfg, packet, now, after[ip])
      && Grants(read.value, packet, Offer, Ipv4Net(ip, cfg.subnetMask), recvIp, LeaseOptions(after[ip]))
    ensures 300 <= |sent.bytes| && WithinLimit(packet, |sent.bytes|)
    ensures GetOption(packet.options, 57) == None ==> AskedRead(cfg, packet, ClientRead(sent.bytes).value.options)
  {
    hide AskedRead, LeaseRead, WellFormedConfig, DecodePacket, EncodePacket, ClientRead, GetOption, AllCarried,
      Respond, ResponseDest, NewLease, StoreLease, MayChoose, Grants, Inv, ClientStateOf, MessageTypeOf, DiscoverSafe,
      CanServe, NewFor, Takes, LeaseOptions, ForOtherServer, WithinLimit;
    DecodedIsWellFormed(data, destination == Some(BROADCAST));
    var out :| Step(cfg, before, Call(HandleDiscover, RelayedIp(packet, recvIp), packet, now), after, out)
      && Some(sent) == SentFor(packet, out, recvIp);
    var ip := out.lease.yiaddr.value.addr;
    ChosenIsTaken(cfg, before, now, ip);
    ChosenInScope(cfg, before, now, ip);
    NewLeaseIsStoreLease(cfg, packet, ip, now);
    NewLeaseIsFor(cfg, packet, ip, now);
    GrantReadBack(cfg, packet, Offer, ip, out.lease, recvIp);
    var net := Ipv4Net(ip, cfg.subnetMask);
    GrantsAddress(ClientRead(sent.bytes).value, packet, Offer, net, recvIp, LeaseOptions(out.lease));
    EncodedSize(Respond(packet, out.lease.(serverIdentifier := recvIp)));
    LimitKept(packet, out.lease.(serverIdentifier := recvIp), |sent.bytes|);
    if GetOption(packet.options, 57) == None {
      GrantsLease(ClientRead(sent.bytes).value, packet, Offer, net, recvIp, LeaseOptions(out.lease));
      NewForAnswers(cfg, packet, now, out.lease);
      LeaseReadIsAsked(cfg, packet, ClientRead(sent.bytes).value.options, LeaseOptions(out.lease));
    }
  }

  lemma GrantsAddress(view: DhcpPacket, packet: DhcpPacket, kind: MessageType, net: Ipv4Net, recvIp: u32,
                      extra: Options)
    requires Grants(view, packet, kind, net, recvIp, extra)
    ensures view.yiaddr == net.addr && MessageTypeOf(view.options) == Some(kind)
  {
  }

  lemma LimitKept(packet: DhcpPacket, lease: Lease, size: nat)
    requires var limit := Respond(packet, lease).maxClientMessageSize;
      limit.Some? ==> size <= if limit.value > 576 then limit.value else 576
    ensures WithinLimit(packet, size)
  {
    hide MandatoryOptions, GetOption;
  }

  /** The address is that of a lease the store holds: the selected one, or the renewed one with its start moved. */
  predicate HeldLease(cfg: Config, before: Database, packet: DhcpPacket, now: int, after: Database, ip: u32) {
    && ip in before && ip in after && cfg.scopeStart <= ip < cfg.scopeEnd
    && if RequestShape(packet, Selecting)
       then
         GetOption(packet.options, 50) == Some(DhcpOption(50, Addr(ip)))
         && before[ip].xid == packet.xid && after == before
       else (RequestShape(packet, Renewing) || RequestShape(packet, Rebinding))
            && ip == packet.ciaddr && after == before[ip := before[ip].(leaseTime := now)]
  }

  /** The requested address is what option 50 says. */
  lemma RequestedIs(packet: DhcpPacket, ip: u32)
    ensures RequestedAddress(packet) == Some(ip) <==> GetOption(packet.options, 50) == Some(DhcpOption(50, Addr(ip)))
  {
    FirstFound(packet.options, 50);
    hide GetOption;
  }

  lemma RequestLease(cfg: Config, before: Database, call: Call, after: Database, out: Outcome, recvIp: u32)
    returns (ip: u32)
    requires Inv(cfg, before, call.now) && MessageTypeOf(call.packet.options) == Some(Request)
    requires HandlerFor(call.packet) == Some(call.handler) && Step(cfg, before, call, after, out)
    requires SentFor(call.packet, out, recvIp).Some?
    ensures out.Leased? && StoreLease(cfg, ip, out.lease)
    ensures HeldLease(cfg, before, call.packet, call.now, after, ip)
  {
    hide GetOption, MessageTypeOf, Respond, ResponseDest, EncodePacket, StoreOptions, ClientStateOf, RequestedAddress,
      RenewalAddress, Renewed, Rebooted, MayChoose, RequestShape, HandlerFor;
    RequestHandlers(call.packet);
    ShapesAddress(call.packet);
    RebootFails(cfg, before, call.packet, call.recvIp, call.now);
    RenewedLease(cfg, before, call.packet, call.now);
    assert out.Leased?;
    ip := if call.handler == HandleSelecting then RequestedAddress(call.packet).value else RenewalAddress(call.packet);
    RequestedIs(call.packet, ip);
    assert StoreLease(cfg, ip, before[ip]);
  }

  /**
   End to end for requests: whatever is sent for a request is an acknowledgement
   the client reads back with a lease the store holds for the address it names.
   */
  lemma AckEndToEnd(cfg: Config, before: Database, data: seq<byte>, destination: Option<u32>, recvIp: u32, now: int,
                    after: Database, sent: Datagram, packet: DhcpPacket)
    requires WellFormedConfig(cfg) && Inv(cfg, before, now)
    requires DecodePacket(data, destination == Some(BROADCAST)) == Ok(packet)
    requires MessageTypeOf(packet.options) == Some(Request)
    requires Processed(cfg, before, data, destination, recvIp, now, after, Some(sent))
    ensures var read := ClientRead(sent.bytes);
      && read.Ok? && MessageTypeOf(read.value.options) == Some(Acknowledge)
      && var ip := read.value.yiaddr;
      && HeldLease(cfg, before, packet, now, after, ip)
      && Grants(read.value, packet, Acknowledge, Ipv4Net(ip, cfg.subnetMask), recvIp, LeaseOptions(before[ip]))
      && (GetOption(packet.options, 57) == None ==> LeaseRead(read.value.options, LeaseOptions(before[ip])))
  {
    hide WellFormedConfig, DecodePacket, EncodePacket, ClientRead, GetOption, AllCarried, Respond, ResponseDest,
      StoreOptions, Grants, ClientStateOf, DiscoverSafe, WellFormedPacket, ForOtherServer, Step, Inv, HeldLease;
    DecodedIsWellFormed(data, destination == Some(BROADCAST));
    var call := Call(HandlerFor(packet).value, RelayedIp(packet, recvIp), packet, now);
    var out :| Step(cfg, before, call, after, out) && Some(sent) == SentFor(packet, out, recvIp);
    var ip := RequestLease(cfg, before, call, after, out, recvIp);
    GrantReadBack(cfg, packet, Acknowledge, ip, out.lease, recvIp);
    RequestLeaseOptions(cfg, before, call, after, out, ip);
    var net := Ipv4Net(ip, cfg.subnetMask);
    GrantsAddress(ClientRead(sent.bytes).value, packet, Acknowledge, net, recvIp, LeaseOptions(out.lease));
    if GetOption(packet.options, 57) == None {
      GrantsLease(ClientRead(sent.bytes).value, packet, Acknowledge, net, recvIp, LeaseOptions(out.lease));
    }
  }

  /** The lease a request is answered with has the options of the held one. */
  lemma RequestLeaseOptions(cfg: Config, before: Database, call: Call, after: Database, out: Outcome, ip: u32)
    requires Inv(cfg, before, call.now) && MessageTypeOf(call.packet.options) == Some(Request)
    requires HandlerFor(call.packet) == Some(call.handler) && Step(cfg, before, call, after, out) && out.Leased?
    requires StoreLease(cfg, ip, out.lease)
    ensures ip in before && LeaseOptions(out.lease) == LeaseOptions(before[ip])
  {
    hide GetOption, MessageTypeOf, StoreOptions, ClientStateOf, RequestedAddress, RenewalAddress, Renewed, Rebooted,
      MayChoose;
    RebootFails(cfg, before, call.packet, call.recvIp, call.now);
    RenewedLease(cfg, before, call.packet, call.now);
    var selecting := call.handler == HandleSelecting;
    var at := if selecting then RequestedAddress(call.packet).value else RenewalAddress(call.packet);
    assert StoreLease(cfg, at, before[at]);
  }

  /** Where the answer to a granted lease goes: relay at port 67, then the client's address at 68, then broadcast. */
  function GrantDest(packet: DhcpPacket): Destination {
    if packet.giaddr != 0 then Destination(packet.giaddr, 67)
    else if packet.ciaddr != 0 then Destination(packet.ciaddr, 68)
    else Destination(4294967295, 68)
  }

  /** An answer that carries the address has somewhere to go: only 0.0.0.0 without relay, client or flag has not. */
  predicate Destined(packet: DhcpPacket, ip: u32) {
    packet.giaddr != 0 || packet.ciaddr != 0 || packet.flags >= 32768 || ip != 0
  }

  lemma GrantSent(packet: DhcpPacket, lease: Lease, recvIp: u32)
    requires Answered(packet) && lease.yiaddr.Some?
    ensures SentFor(packet, Leased(lease), recvIp) ==
      if Destined(packet, lease.yiaddr.value.addr)
      then Some(Datagram(EncodePacket(Respond(packet, lease.(serverIdentifier := recvIp))), GrantDest(packet)))
      else None
  {
    hide EncodePacket, GetOption, Answered;
    var granted := lease.(serverIdentifier := recvIp);
    FixedLookups(packet, granted);
    ResponseTypeOf(packet, granted);
    assert Answered(packet) ==> ResponseType(packet) != NegAcknowledge;
  }

  lemma ResponseTypeOf(packet: DhcpPacket, lease: Lease)
    ensures MessageTypeOf(Respond(packet, lease).options) == Some(ResponseType(packet))
  {
    hide MandatoryOptions, ResponseType, GetOption;
    FixedLookups(packet, lease);
    GetInPrefix(MandatoryOptions(packet, lease), Respond(packet, lease).options, DHCPMSGTYPE);
  }

  /** The packet names this server in option 54, or names none. */
  predicate Addressed(packet: DhcpPacket, recvIp: u32) {
    match GetOption(packet.options, 54)
    case Some(DhcpOption(_, Addr(server))) => server == recvIp
    case _ => true
  }

  lemma AddressedIs(packet: DhcpPacket, recvIp: u32)
    ensures ForOtherServer(packet, recvIp) <==> !Addressed(packet, recvIp)
  {
    hide GetOption;
  }

  /** A packet that names another server in option 54 changes nothing and gets no answer. */
  lemma OtherServerIgnored(cfg: Config, before: Database, data: seq<byte>, destination: Option<u32>, recvIp: u32,
                           now: int, after: Database, sent: Option<Datagram>, packet: DhcpPacket, server: u32)
    requires DecodePacket(data, destination == Some(BROADCAST)) == Ok(packet)
    requires GetOption(packet.options, 54) == Some(DhcpOption(54, Addr(server))) && server != recvIp
    requires Processed(cfg, before, data, destination, recvIp, now, after, sent)
    ensures after == before && sent == None
  {
    hide DecodePacket, GetOption, HandlerFor, DiscoverSafe, Step;
  }

  /** Of the messages only discover, request, release and decline have any effect, and an unreadable datagram none. */
  lemma OthersIgnored(cfg: Config, before: Database, data: seq<byte>, destination: Option<u32>, recvIp: u32, now: int,
                      after: Database, sent: Option<Datagram>)
    requires var received := DecodePacket(data, destination == Some(BROADCAST));
      received.Ok? ==>
        MessageTypeOf(received.value.options) !in {Some(Discover), Some(Request), Some(Release), Some(Decline)}
    requires Processed(cfg, before, data, destination, recvIp, now, after, sent)
    ensures after == before && sent == None
  {
    hide DecodePacket, MessageTypeOf, ForOtherServer, DiscoverSafe, ClientStateOf, Step, SentFor;
    var received := DecodePacket(data, destination == Some(BROADCAST));
    if received.Ok? && HandlerFor(received.value) == Some(HandleInform) && !ForOtherServer(received.value, recvIp) {
      var packet := received.value;
      var call := Call(HandleInform, RelayedIp(packet, recvIp), packet, now);
      var out :| Step(cfg, before, call, after, out) && sent == SentFor(packet, out, recvIp);
      InformFails(cfg, before, call, after, out);
      NothingSent(packet, out, recvIp);
    }
  }

  lemma InformFails(cfg: Config, db: Database, call: Call, after: Database, out: Outcome)
    requires call.handler == HandleInform && Step(cfg, db, call, after, out)
    ensures after == db && out == Failed(Generic)
  {
    hide Renewed, Rebooted, MayChoose, NewLease, SelectingOutcome;
  }

  /** The lease can be made: ones then zeros for a netmask, and a search list, if asked for, that can be compressed. */
  predicate Makeable(cfg: Config, packet: DhcpPacket) {
    ContiguousMask(cfg.subnetMask) && (119 in AskedCodes(packet) ==> Compressible(cfg.dnsSearch))
  }

  lemma MakeableIs(cfg: Config, packet: DhcpPacket)
    ensures CanServe(cfg, packet) <==> Makeable(cfg, packet)
  {
    hide ContiguousMask, RequestedParams, AskedCodes, Compressible;
    AskedAre(packet);
  }

  /** There is an address to give: one of the scope without a lease, or one whose lease began an hour ago or more. */
  ghost predicate Room(cfg: Config, db: Database, now: int) {
    |db| < cfg.scopeEnd - cfg.scopeStart || exists ip :: ip in db && db[ip].leaseTime + 3600 <= now
  }

  lemma RoomIs(cfg: Config, db: Database, now: int)
    requires Inv(cfg, db, now)
    ensures Room(cfg, db, now) <==> Unused(cfg, db) != None || !AllCurrent(db, now)
  {
    hide StoreOptions, Unused;
    FullIsNoneUnused(cfg, db, now);
    forall ip | ip in db
      ensures StoreLease(cfg, ip, db[ip])
    {
    }
    if ip :| ip in db && !IsCurrent(db[ip], now) {
      assert db[ip].leaseTime + 3600 <= now;
    }
  }

  /**
   A discover gets an address exactly when it names no other server, the store has
   an unused address or an expired lease, and the lease can be made; it is answered
   exactly when that address has somewhere to be sent: to the relay, the client's
   address, or broadcast. So with 0.0.0.0 outside the scope it is answered exactly
   when it gets an address.
   */
  lemma DiscoverAnswered(cfg: Config, before: Database, data: seq<byte>, destination: Option<u32>, recvIp: u32,
                         now: int, after: Database, sent: Option<Datagram>, packet: DhcpPacket)
    returns (ip: u32)
    requires Inv(cfg, before, now)
    requires DecodePacket(data, destination == Some(BROADCAST)) == Ok(packet)
    requires MessageTypeOf(packet.options) == Some(Discover)
    requires Processed(cfg, before, data, destination, recvIp, now, after, sent)
    ensures var served := Addressed(packet, recvIp) && Room(cfg, before, now) && Makeable(cfg, packet);
      && (served ==>
            && MayChoose(cfg, before, now, ip) && Takes(cfg, before, now, ip)
            && after == before[ip := NewLease(cfg, packet, ip, now)] && NewFor(cfg, packet, now, after[ip])
            && StoreLease(cfg, ip, after[ip]) && (sent.Some? <==> Destined(packet, ip)))
      && (!served ==> after == before && sent == None)
      && (cfg.scopeStart > 0 ==> (sent.Some? <==> served))
    ensures sent.Some? ==> sent.value.dest == GrantDest(packet)
  {
    hide DecodePacket, EncodePacket, GetOption, Respond, ResponseDest, StoreLease, SentFor, Inv, Unused, ClientStateOf,
      ForOtherServer, Addressed, AllCurrent, NewLease, CanServe, Makeable, Room, NewFor, MayChoose, GrantDest;
    AddressedIs(packet, recvIp);
    RoomIs(cfg, before, now);
    MakeableIs(cfg, packet);
    ip := 0;
    if Addressed(packet, recvIp) && DiscoverSafe(cfg, before, packet, now) {
      var out :| Step(cfg, before, Call(HandleDiscover, RelayedIp(packet, recvIp), packet, now), after, out)
        && sent == SentFor(packet, out, recvIp);
      if out.Leased? {
        ip := out.lease.yiaddr.value.addr;
        ChosenIsTaken(cfg, before, now, ip);
        ChosenInScope(cfg, before, now, ip);
        NewLeaseIsStoreLease(cfg, packet, ip, now);
        NewLeaseIsFor(cfg, packet, ip, now);
        GrantSent(packet, out.lease, recvIp);
        ChosenNotCurrent(cfg, before, now, ip);
      } else {
        NothingSent(packet, out, recvIp);
      }
    }
  }

  /** A selecting request for an address the store holds under the request's transaction. */
  predicate SelectsHeld(db: Database, packet: DhcpPacket) {
    && RequestShape(packet, Selecting)
    && match GetOption(packet.options, 50)
       case Some(DhcpOption(_, Addr(ip))) => ip in db && db[ip].xid == packet.xid && Destined(packet, ip)
       case _ => false
  }

  /** A renewing or rebinding request from an address the store holds, under whatever transaction. */
  predicate RenewsHeld(db: Database, packet: DhcpPacket) {
    (RequestShape(packet, Renewing) || RequestShape(packet, Rebinding)) && packet.ciaddr in db
  }

  lemma ShapesAddress(packet: DhcpPacket)
    ensures RequestShape(packet, Renewing) || RequestShape(packet, Rebinding) ==>
      packet.ciaddr != 0 && RenewalAddress(packet) == packet.ciaddr
  {
    hide GetOption;
  }

  /**
   A request is answered exactly when it names no other server and selects an
   address held under its transaction, or renews or rebinds any held address: in
   the terms of section 4.3.2 of RFC 2131, with neither transaction nor expiry
   looked at in the second case. Only the second case changes the store: the lease
   starts anew.
   */
  lemma RequestAnswered(cfg: Config, before: Database, data: seq<byte>, destination: Option<u32>, recvIp: u32, now: int,
                        after: Database, sent: Option<Datagram>, packet: DhcpPacket)
    requires Inv(cfg, before, now)
    requires DecodePacket(data, destination == Some(BROADCAST)) == Ok(packet)
    requires MessageTypeOf(packet.options) == Some(Request)
    requires Processed(cfg, before, data, destination, recvIp, now, after, sent)
    ensures var accepted := Addressed(packet, recvIp) && packet.op != BootReply;
      && (sent.Some? <==> accepted && (SelectsHeld(before, packet) || RenewsHeld(before, packet)))
      && after ==
         if accepted && RenewsHeld(before, packet)
         then before[packet.ciaddr := before[packet.ciaddr].(leaseTime := now)]
         else before
    ensures sent.Some? ==> sent.value.dest == GrantDest(packet)
  {
    hide DecodePacket, EncodePacket, Respond, ResponseDest, StoreOptions, SentFor, ClientStateOf, GetOption,
      ForOtherServer, Addressed, RequestShape, RenewalAddress, Rebooted, InScope, GrantDest, HandlerFor;
    AddressedIs(packet, recvIp);
    ShapesAddress(packet);
    RequestHandlers(packet);
    if Addressed(packet, recvIp) && HandlerFor(packet).Some? {
      var call := Call(HandlerFor(packet).value, RelayedIp(packet, recvIp), packet, now);
      var out :| Step(cfg, before, call, after, out) && sent == SentFor(packet, out, recvIp);
      RebootFails(cfg, before, packet, call.recvIp, now);
      RenewedLease(cfg, before, packet, now);
      if out.Leased? {
        var ip := if call.handler == HandleSelecting then RequestedAddress(packet).value else packet.ciaddr;
        assert StoreLease(cfg, ip, before[ip]);
        GrantSent(packet, out.lease, recvIp);
      } else {
        NothingSent(packet, out, recvIp);
      }
    }
  }

  /** The handler of a request, by its shape in section 4.3.2 of RFC 2131. */
  lemma RequestHandlers(packet: DhcpPacket)
    requires MessageTypeOf(packet.options) == Some(Request)
    ensures var asked := packet.op != BootReply;
      && (HandlerFor(packet) == Some(HandleSelecting) <==> asked && RequestShape(packet, Selecting))
      && (HandlerFor(packet) == Some(HandleInitReboot) <==> asked && RequestShape(packet, InitReboot))
      && (HandlerFor(packet) == Some(HandleRenewing) <==> asked && RequestShape(packet, Renewing))
      && (HandlerFor(packet) == Some(HandleRebinding) <==> asked && RequestShape(packet, Rebinding))
    ensures RequestShape(packet, Selecting) ==> !RequestShape(packet, Renewing) && !RequestShape(packet, Rebinding)
    ensures HandlerFor(packet).Some? ==>
      HandlerFor(packet).value in {HandleSelecting, HandleInitReboot, HandleRenewing, HandleRebinding}
  {
    hide GetOption;
    ClassificationExact(packet, Selecting, Renewing);
    ClassificationExact(packet, Selecting, Rebinding);
    ClassificationExact(packet, InitReboot, Renewing);
    ClassificationExact(packet, Renewing, Rebinding);
    ClassificationExact(packet, Rebinding, Selecting);
  }

  lemma ChosenNotCurrent(cfg: Config, db: Database, now: int, ip: u32)
    requires MayChoose(cfg, db, now, ip)
    ensures Unused(cfg, db) != None || !AllCurrent(db, now)
  {
    hide Unused;
  }

  lemma NothingSent(packet: DhcpPacket, out: Outcome, recvIp: u32)
    requires !out.Leased? && out != Failed(LeaseMismatchClientIP)
    ensures SentFor(packet, out, recvIp) == None
  {
  }
}
