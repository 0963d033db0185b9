/**
 What the server concludes from a packet and what it answers: message type,
 client state, the response and negative acknowledgement, and where they go.
 */
module Reply {
  import opened Wrappers
  import opened Bytes
  import opened Enums
  import opened DhcpOptions
  import opened OptionArea
  import opened Overload
  import opened Packet
  import opened Leases

  const DEFAULT_LEASE_TIME_SECS: u32 := 3600
  const BROADCAST: u32 := 0xFFFF_FFFF

  // ---- Questions about a packet ----

  function MessageTypeOf(options: Options): Option<MessageType> {
    match GetOption(options, DHCPMSGTYPE)
    case Some(DhcpOption(_, Msg(m))) => Some(m)
    case _ => None
  }

  /** Only option 53 holds a message type. */
  lemma MessageCode(o: DhcpOption)
    requires Typed(o)
    ensures o.value.Msg? <==> o.code == DHCPMSGTYPE
  {
  }

  /** The early-return search loop. */
  method FindMessageType(options: Options) returns (r: Option<MessageType>)
    requires forall i :: 0 <= i < |options| ==> Typed(options[i])
    ensures r == MessageTypeOf(options)
  {
    assert options[0..] == options;
    for i := 0 to |options|
      invariant GetOption(options[i..], DHCPMSGTYPE) == GetOption(options, DHCPMSGTYPE)
    {
      assert options[i..][1..] == options[i + 1..];
      MessageCode(options[i]);
      if options[i].value.Msg? {
        return Some(options[i].value.msg);
      }
    }
    return None;
  }

  predicate Has(p: DhcpPacket, code: byte) {
    GetOption(p.options, code).Some?
  }

  predicate BroadcastByClient(p: DhcpPacket) {
    if p.giaddr != 0 then true else p.receivedByBroadcast
  }

  predicate ReturnBroadcast(p: DhcpPacket) {
    p.flags / 0x8000 == 1
  }

  function ClientStateOf(p: DhcpPacket): Option<ClientState> {
    if p.op == BootReply then None
    else if MessageTypeOf(p.options) == Some(Discover) then Some(Init)
    else if MessageTypeOf(p.options) == Some(Request) then
      if p.ciaddr == 0 && Has(p, DHCPSERVERID) && Has(p, ADDRESSREQUEST) then Some(Selecting)
      else if !BroadcastByClient(p) && p.ciaddr != 0 && p.giaddr == 0
              && !Has(p, DHCPSERVERID) && !Has(p, ADDRESSREQUEST) then Some(Renewing)
      else if BroadcastByClient(p) && p.ciaddr != 0
              && !Has(p, DHCPSERVERID) && !Has(p, ADDRESSREQUEST) then Some(Rebinding)
      else if p.ciaddr == 0 && !Has(p, DHCPSERVERID) && Has(p, ADDRESSREQUEST) then Some(InitReboot)
      else None
    else None
  }

  /** How section 4.3.2 of RFC 2131 tells the requests apart: server and address asked for, `ciaddr`, broadcast. */
  predicate RequestShape(p: DhcpPacket, st: ClientState) {
    match st
    case Init => false
    case Selecting => Has(p, 54) && Has(p, 50) && p.ciaddr == 0
    case InitReboot => !Has(p, 54) && Has(p, 50) && p.ciaddr == 0
    case Renewing => !Has(p, 54) && !Has(p, 50) && p.ciaddr != 0 && p.giaddr == 0 && !p.receivedByBroadcast
    case Rebinding => !Has(p, 54) && !Has(p, 50) && p.ciaddr != 0 && (p.giaddr != 0 || p.receivedByBroadcast)
  }

  /**
   Classification does not depend on the order of the tests: a request is given
   a state exactly when it has that state's shape, and at most one shape fits.
   */
  lemma ClassificationExact(p: DhcpPacket, st: ClientState, other: ClientState)
    ensures ClientStateOf(p) == Some(st) <==>
      p.op != BootReply
      && (if st == Init then MessageTypeOf(p.options) == Some(Discover)
          else MessageTypeOf(p.options) == Some(Request) && RequestShape(p, st))
    ensures RequestShape(p, st) && RequestShape(p, other) ==> st == other
  {
    hide GetOption;
  }

  // ---- Answers ----

  function ResponseType(request: DhcpPacket): MessageType {
    match MessageTypeOf(request.options)
    case Some(Discover) => Offer
    case Some(Request) => Acknowledge
    case Some(Inform) => Acknowledge
    case _ => UnknownMessage(255)
  }

  /** Seconds of the lease, or the default when they are not a positive 32-bit number. */
  function LeaseSeconds(duration: int): u32 {
    if 0 < duration < 0x1_0000_0000 then duration else DEFAULT_LEASE_TIME_SECS
  }

  function EchoedClientId(request: DhcpPacket): Options {
    match GetOption(request.options, CLIENTID)
    case Some(o) => [o]
    case None => []
  }

  function MaskOption(lease: Lease): Options {
    match lease.yiaddr
    case Some(net) => [DhcpOption(SUBNETMASK, Addr(net.netmask))]
    case None => []
  }

  function FixedOptions(request: DhcpPacket, lease: Lease): Options {
    [DhcpOption(DHCPMSGTYPE, Msg(ResponseType(request))),
     DhcpOption(DHCPSERVERID, Addr(lease.serverIdentifier)),
     DhcpOption(ADDRESSTIME, U32(LeaseSeconds(lease.leaseDuration)))]
  }

  /** The options every answer must carry, in the order they are written. */
  function MandatoryOptions(request: DhcpPacket, lease: Lease): Options {
    FixedOptions(request, lease) + MaskOption(lease) + EchoedClientId(request)
  }

  function LeaseOptions(lease: Lease): Options {
    match lease.options
    case Some(o) => o
    case None => []
  }

  function ClientLimit(request: DhcpPacket): Option<u16> {
    match GetOption(request.options, DHCPMAXMSGSIZE)
    case Some(DhcpOption(_, U16(n))) => Some(n)
    case _ => None
  }

  function ResponseFile(lease: Lease): Bytes128
  {
    match lease.file
    case Some(f) => f
    case None => Zeros(128)
  }

  function Respond(request: DhcpPacket, lease: Lease): DhcpPacket
  {
    request.(
      op := BootReply, hops := 0, secs := 0,
      yiaddr := if lease.yiaddr.Some? then lease.yiaddr.value.addr else request.yiaddr,
      siaddr := if lease.siaddr.Some? then lease.siaddr.value else request.siaddr,
      sname := Zeros(64), file := ResponseFile(lease), cookie := COOKIE,
      options := MandatoryOptions(request, lease) + LeaseOptions(lease),
      maxClientMessageSize := ClientLimit(request))
  }

  /** The options pushed onto the new packet, one after the other. */
  method PushResponseOptions(request: DhcpPacket, lease: Lease) returns (options: Options)
    ensures options == MandatoryOptions(request, lease) + LeaseOptions(lease)
  {
    hide GetOption;
    var msgType := UnknownMessage(255);
    match GetOption(request.options, DHCPMSGTYPE) {
      case Some(DhcpOption(_, Msg(mt))) =>
        match mt {
          case Discover => msgType := Offer;
          case Request => msgType := Acknowledge;
          case Inform => msgType := Acknowledge;
          case _ =>
        }
      case _ =>
    }
    assert msgType == ResponseType(request);
    options := [DhcpOption(DHCPMSGTYPE, Msg(msgType))];
    options := options + [DhcpOption(DHCPSERVERID, Addr(lease.serverIdentifier))];
    var leaseTime := DEFAULT_LEASE_TIME_SECS;
    if lease.leaseDuration > 0 {
      leaseTime := if lease.leaseDuration < 0x1_0000_0000 then lease.leaseDuration else DEFAULT_LEASE_TIME_SECS;
    }
    options := options + [DhcpOption(ADDRESSTIME, U32(leaseTime))];
    assert options == FixedOptions(request, lease);
    if lease.yiaddr.Some? {
      options := options + [DhcpOption(SUBNETMASK, Addr(lease.yiaddr.value.netmask))];
    }
    assert options == FixedOptions(request, lease) + MaskOption(lease);
    var clientId := GetOption(request.options, CLIENTID);
    if clientId.Some? {
      options := options + [clientId.value];
    }
    assert options == MandatoryOptions(request, lease);
    if lease.options.Some? {
      options := options + lease.options.value;
    }
  }

  method Response(request: DhcpPacket, lease: Lease) returns (reply: DhcpPacket)
    ensures reply == Respond(request, lease)
  {
    hide GetOption, MandatoryOptions, LeaseOptions;
    reply := DhcpPacket(
      BootReply, request.htype, request.hlen, 0, request.xid, 0, request.flags,
      request.ciaddr, request.yiaddr, request.siaddr, request.giaddr, request.chaddr,
      Zeros(64), Zeros(128), COOKIE, [], None, request.receivedByBroadcast);
    match GetOption(request.options, DHCPMAXMSGSIZE) {
      case Some(DhcpOption(_, U16(n))) => reply := reply.(maxClientMessageSize := Some(n));
      case _ =>
    }
    var options := PushResponseOptions(request, lease);
    reply := reply.(options := options);
    if lease.yiaddr.Some? {
      reply := reply.(yiaddr := lease.yiaddr.value.addr);
    }
    if lease.siaddr.Some? {
      reply := reply.(siaddr := lease.siaddr.value);
    }
    if lease.file.Some? {
      reply := reply.(file := lease.file.value);
    }
  }

  function Nak(request: DhcpPacket): DhcpPacket {
    request.(
      op := BootReply, hops := 0, secs := 0,
      flags := if request.giaddr != 0 then 0x8000 else request.flags,
      ciaddr := 0, yiaddr := 0, siaddr := 0,
      sname := Zeros(64), file := Zeros(128), cookie := COOKIE,
      options := [DhcpOption(DHCPMSGTYPE, Msg(NegAcknowledge))] + EchoedClientId(request),
      maxClientMessageSize := None)
  }

  method NakReply(request: DhcpPacket) returns (reply: DhcpPacket)
    ensures reply == Nak(request)
  {
    hide GetOption;
    var flags := request.flags;
    if request.giaddr != 0 {
      flags := 0x8000;
    }
    reply := DhcpPacket(
      BootReply, request.htype, request.hlen, 0, request.xid, 0, flags,
      0, 0, 0, request.giaddr, request.chaddr,
      Zeros(64), Zeros(128), COOKIE, [], None, request.receivedByBroadcast);
    var options := [DhcpOption(DHCPMSGTYPE, Msg(NegAcknowledge))];
    var clientId := GetOption(request.options, CLIENTID);
    if clientId.Some? {
      options := options + [clientId.value];
    }
    assert options == [DhcpOption(DHCPMSGTYPE, Msg(NegAcknowledge))] + EchoedClientId(request);
    reply := reply.(options := options);
  }

  datatype Destination = Destination(ip: u32, port: u16)

  function ResponseDest(request: DhcpPacket, response: DhcpPacket): Result<Destination, PacketError> {
    if request.giaddr != 0 then Ok(Destination(request.giaddr, DHCP_SERVER_PORT))
    else if MessageTypeOf(response.options) == Some(NegAcknowledge) then Ok(Destination(BROADCAST, DHCP_CLIENT_PORT))
    else if request.ciaddr != 0 then Ok(Destination(request.ciaddr, DHCP_CLIENT_PORT))
    else if ReturnBroadcast(request) then Ok(Destination(BROADCAST, DHCP_CLIENT_PORT))
    else if response.yiaddr != 0 then Ok(Destination(BROADCAST, DHCP_CLIENT_PORT))
    else Err(NoDestination)
  }

  // ---- Answers are well-formed ----

  lemma {:induction false} FoundIsCarried(options: Options, code: byte)
    requires AllCarried(options)
    ensures var o := GetOption(options, code); o.Some? ==> Carried(o.value) && o.value.code == code
  {
    hide Carried;
    if options == [] {
    } else {
      FoundIsCarried(options[1..], code);
    }
  }

  /** The message types the server answers. */
  predicate Answered(request: DhcpPacket) {
    MessageTypeOf(request.options) in {Some(Discover), Some(Request), Some(Inform)}
  }

  lemma EchoIsCarried(request: DhcpPacket)
    requires AllCarried(request.options)
    ensures AllCarried(EchoedClientId(request)) && NoOverload(EchoedClientId(request))
  {
    hide Carried;
    FoundIsCarried(request.options, CLIENTID);
  }

  lemma TypeCarried(kind: MessageType)
    requires !kind.UnknownMessage?
    ensures Carried(DhcpOption(DHCPMSGTYPE, Msg(kind)))
  {
  }

  lemma WordsCarried(server: u32, seconds: u32)
    ensures Carried(DhcpOption(DHCPSERVERID, Addr(server))) && Carried(DhcpOption(ADDRESSTIME, U32(seconds)))
  {
  }

  lemma FixedCarried(request: DhcpPacket, lease: Lease)
    requires Answered(request)
    ensures AllCarried(FixedOptions(request, lease)) && NoOverload(FixedOptions(request, lease))
  {
    hide GetOption, Carried, LeaseSeconds, MessageTypeOf;
    TypeCarried(ResponseType(request));
    WordsCarried(lease.serverIdentifier, LeaseSeconds(lease.leaseDuration));
  }

  lemma MaskCarried(lease: Lease)
    ensures AllCarried(MaskOption(lease)) && NoOverload(MaskOption(lease))
  {
  }

  lemma MandatoryCarried(request: DhcpPacket, lease: Lease)
    requires AllCarried(request.options) && Answered(request)
    ensures AllCarried(MandatoryOptions(request, lease)) && NoOverload(MandatoryOptions(request, lease))
  {
    hide Carried, FixedOptions, MaskOption, EchoedClientId, Answered;
    FixedCarried(request, lease);
    MaskCarried(lease);
    EchoIsCarried(request);
  }

  lemma ResponseWellFormed(request: DhcpPacket, lease: Lease)
    requires WellFormedPacket(request) && Answered(request)
    requires AllCarried(LeaseOptions(lease)) && NoOverload(LeaseOptions(lease))
    ensures WellFormedPacket(Respond(request, lease)) && NoOverload(Respond(request, lease).options)
  {
    hide Carried, MandatoryOptions, Answered;
    MandatoryCarried(request, lease);
  }

  // ---- What the client reads ----

  /** The size limit is what option 57 says, if it is there. */
  lemma LimitIs(request: DhcpPacket)
    ensures ClientLimit(request) ==
      match GetOption(request.options, 57)
      case Some(DhcpOption(_, U16(n))) => Some(n)
      case _ => None
  {
  }

  /** What the packet says of itself: type (53) and size limit (57), each in the first option of its code. */
  lemma TypeIs(options: Options, m: MessageType)
    ensures MessageTypeOf(options) == Some(m) <==>
      exists i ::
        0 <= i < |options| && options[i] == DhcpOption(53, Msg(m)) && forall j :: 0 <= j < i ==> options[j].code != 53
  {
    FirstFound(options, 53);
    hide GetOption;
    if i :|
      0 <= i < |options| && options[i] == DhcpOption(53, Msg(m)) && forall j :: 0 <= j < i ==> options[j].code != 53 {
      var o := GetOption(options, 53).value;
      assert o == options[i];
    }
  }

  /** The header fields of an answer that grants the lease. */
  predicate AnswerHeader(view: DhcpPacket, request: DhcpPacket, lease: Lease) {
    && view.op == BootReply && view.htype == request.htype && view.hlen == request.hlen && view.hops == 0
    && view.xid == request.xid && view.secs == 0 && view.flags == request.flags
    && view.ciaddr == request.ciaddr && view.giaddr == request.giaddr && view.chaddr == request.chaddr
    && view.yiaddr == (if lease.yiaddr.Some? then lease.yiaddr.value.addr else request.yiaddr)
    && view.siaddr == (if lease.siaddr.Some? then lease.siaddr.value else request.siaddr)
  }

  /**
   The options of an answer, in their order: message type, server identifier, lease
   time, subnet mask, the client's own identifier, and then all the lease's options.
   */
  predicate AnswerOptions(all: Options, kind: MessageType, request: DhcpPacket, lease: Lease) {
    var seconds := if 0 < lease.leaseDuration < 4294967296 then lease.leaseDuration else 3600;
    all == [DhcpOption(53, Msg(kind)), DhcpOption(54, Addr(lease.serverIdentifier)), DhcpOption(51, U32(seconds))]
         + (if lease.yiaddr.Some? then [DhcpOption(1, Addr(lease.yiaddr.value.netmask))] else [])
         + (if GetOption(request.options, 61).Some? then [GetOption(request.options, 61).value] else [])
         + (if lease.options.Some? then lease.options.value else [])
  }

  /** What a client that sent the request reads of those options: all, or those of first fit if it gave a limit. */
  ghost predicate Reads(view: Options, all: Options, request: DhcpPacket, fileFree: bool) {
    match GetOption(request.options, 57)
    case Some(DhcpOption(_, U16(max))) =>
      exists p: Packing ::
        && FirstFit(all, Limits((if max > 576 then max else 576) - 240, fileFree, true), p)
        && view == p.main
                 + (if p.file == [] && p.sname == [] then []
                    else [DhcpOption(52, U8((if p.file != [] then 1 else 0) + if p.sname != [] then 2 else 0))])
                 + p.file + p.sname
    case _ => view == all
  }

  /** The fields of an answer: the lease's boot file, or zeros, and zeros; under a limit perhaps options instead. */
  ghost predicate AnswerFields(view: DhcpPacket, all: Options, request: DhcpPacket, lease: Lease) {
    var file: seq<byte> := if lease.file.Some? then lease.file.value else Zeros(128);
    match GetOption(request.options, 57)
    case Some(DhcpOption(_, U16(max))) =>
      forall p: Packing :: FirstFit(all, Limits((if max > 576 then max else 576) - 240, FileFree(lease), true), p) ==>
        FieldShows(file, p.file, view.file) && FieldShows(Zeros(64), p.sname, view.sname)
    case _ => view.file == file && view.sname == Zeros(64)
  }

  predicate FileFree(lease: Lease) {
    lease.file.Some? ==> lease.file.value[0] == 0
  }

  /** What the client reads of the response to an answered request, to the last option. */
  lemma ResponseRead(request: DhcpPacket, lease: Lease, kind: MessageType) returns (all: Options)
    requires WellFormedPacket(request) && AllCarried(LeaseOptions(lease)) && NoOverload(LeaseOptions(lease))
    requires var asked := MessageTypeOf(request.options);
      if kind == Offer then asked == Some(Discover) else kind == Acknowledge && asked in {Some(Request), Some(Inform)}
    ensures AnswerOptions(all, kind, request, lease)
    ensures var read := ClientRead(EncodePacket(Respond(request, lease)));
      && read.Ok? && AnswerHeader(read.value, request, lease)
       && Reads(read.value.options, all, request, FileFree(lease))
      && AnswerFields(read.value, all, request, lease)
  {
    hide GetOption, AnswerFields, AllCarried, NoOverload, MandatoryOptions, ClientRead, EncodePacket, ImageOf,
      Delivered, WellFormedPacket, Reads, MessageTypeOf, FileFree, AnswerOptions, ClientLimit;
    var response := Respond(request, lease);
    ResponseWellFormed(request, lease);
    WellFormedIsReadable(response);
    ClientReadsEncoded(response);
    all := response.options;
    AnswerOptionsAre(request, lease, kind);
    DeliveredReads(request, lease);
    FieldsAre(request, lease, ClientRead(EncodePacket(response)).value);
  }

  lemma FieldsAre(request: DhcpPacket, lease: Lease, view: DhcpPacket)
    requires view.file == ImageOf(Respond(request, lease)).file && view.sname == ImageOf(Respond(request, lease)).sname
    ensures AnswerFields(view, Respond(request, lease).options, request, lease)
  {
    hide GetOption, Pack, MandatoryOptions, FieldShows, ImageOf, FirstFit;
    var response := Respond(request, lease);
    ImageAreas(response);
    match GetOption(request.options, 57) {
      case Some(DhcpOption(_, U16(max))) =>
        var l := LimitsOf(response, max);
        assert l == Limits((if max > 576 then max else 576) - 240, FileFree(lease), true);
        forall p: Packing | FirstFit(response.options, l, p)
          ensures p == Pack(response.options, l)
        {
          FirstFitIsPack(response.options, l, p);
        }
      case _ =>
    }
  }

  lemma AnswerOptionsAre(request: DhcpPacket, lease: Lease, kind: MessageType)
    requires ResponseType(request) == kind
    ensures AnswerOptions(Respond(request, lease).options, kind, request, lease)
  {
    hide GetOption, ResponseType;
  }

  lemma DeliveredReads(request: DhcpPacket, lease: Lease)
    ensures Reads(Delivered(Respond(request, lease)), Respond(request, lease).options, request, FileFree(lease))
  {
    hide GetOption, Pack, FirstFit, MandatoryOptions;
    var response := Respond(request, lease);
    match GetOption(request.options, 57) {
      case Some(DhcpOption(_, U16(max))) =>
        var l := LimitsOf(response, max);
        var p := Pack(response.options, l);
        PackIsFirstFit(response.options, l);
        assert l == Limits((if max > 576 then max else 576) - 240, FileFree(lease), true);
      case _ =>
    }
  }

  /** Without a limit the client finds each option of the lease that is none of the answer's own. */
  lemma LeaseOptionRead(view: Options, all: Options, kind: MessageType, request: DhcpPacket, lease: Lease, code: byte)
    requires AnswerOptions(all, kind, request, lease) && Reads(view, all, request, FileFree(lease))
    requires GetOption(request.options, 57) == None && AllCarried(request.options) && code !in {1, 51, 53, 54, 61}
    ensures GetOption(view, code) == GetOption(LeaseOptions(lease), code)
  {
    hide GetOption, Carried;
    FoundIsCarried(request.options, 61);
    var own := [DhcpOption(53, Msg(kind)), DhcpOption(54, Addr(lease.serverIdentifier)),
                DhcpOption(51, U32(if 0 < lease.leaseDuration < 4294967296 then lease.leaseDuration else 3600))]
      + (if lease.yiaddr.Some? then [DhcpOption(1, Addr(lease.yiaddr.value.netmask))] else [])
      + (if GetOption(request.options, 61).Some? then [GetOption(request.options, 61).value] else []);
    assert all == own + LeaseOptions(lease);
    GetAppended(own, LeaseOptions(lease), code);
  }

  /** With one, each option of the answer is read, or does not fit what is left of any area it may go to. */
  lemma OptionReadOrUnfit(view: Options, all: Options, request: DhcpPacket, fileFree: bool, max: u16, i: nat)
    returns (p: Packing)
    requires Reads(view, all, request, fileFree) && GetOption(request.options, 57) == Some(DhcpOption(57, U16(max)))
    requires i < |all| && all[i] !in view
    ensures var o, room := Width(all[i]), (if max > 576 then max else 576) - 240;
      && p == Pack(all, Limits(room, fileFree, true))
      && |EncodeAll(p.main)| + o + 4 > room
      && (fileFree ==> |EncodeAll(p.file)| + 1 + o > 128) && |EncodeAll(p.sname)| + 1 + o > 64
  {
    hide Pack, FirstFit, Maximal, EncodeAll, Width;
    var l := Limits((if max > 576 then max else 576) - 240, fileFree, true);
    p :| FirstFit(all, l, p)
      && view == p.main
               + (if p.file == [] && p.sname == [] then []
                  else [DhcpOption(52, U8((if p.file != [] then 1 else 0) + if p.sname != [] then 2 else 0))])
               + p.file + p.sname;
    FirstFitIsPack(all, l, p);
    PackMaximal(all, l);
    DroppedIfAbsent(all, l, i);
    hide *;
    MaximalDropped(p, l, all[i]);
  }

  /** An option that no area holds was dropped. */
  lemma DroppedIfAbsent(all: Options, l: Limits, i: nat)
    requires var p := Pack(all, l); i < |all| && all[i] !in p.main && all[i] !in p.file && all[i] !in p.sname
    ensures all[i] in Pack(all, l).dropped
  {
    hide Pack;
    var bins := PackPartitions(all, l);
    var p := Pack(all, l);
    assert all[i] in multiset(all);
    assert all[i] in Total(p);
  }

  lemma MaximalDropped(p: Packing, l: Limits, o: DhcpOption)
    requires Maximal(p, l) && o in p.dropped
    ensures |EncodeAll(p.main)| + Width(o) + 4 > l.max
    ensures l.useFile ==> |EncodeAll(p.file)| + 1 + Width(o) > 128
    ensures l.useSname ==> |EncodeAll(p.sname)| + 1 + Width(o) > 64
  {
    hide EncodeAll, Width;
    var i :| 0 <= i < |p.dropped| && p.dropped[i] == o;
  }

  /**
   A negative acknowledgement as the client reads it: no address but the relay's, its
   own identity, the type and its identifier and nothing else; through a relay it
   carries the broadcast flag, otherwise it is broadcast (section 4.3.2 of RFC 2131).
   */
  lemma NakReadBack(request: DhcpPacket)
    requires WellFormedPacket(request)
    ensures var read := ClientRead(EncodePacket(Nak(request)));
      && read.Ok? && read.value.op == BootReply && read.value.htype == request.htype && read.value.hlen == request.hlen
      && read.value.hops == 0 && read.value.secs == 0
       && read.value.xid == request.xid && read.value.chaddr == request.chaddr
      && read.value.yiaddr == 0 && read.value.ciaddr == 0 && read.value.siaddr == 0
      && read.value.giaddr == request.giaddr
      && read.value.flags == (if request.giaddr != 0 then 32768 else request.flags)
      && read.value.options == [DhcpOption(53, Msg(NegAcknowledge))]
         + (if GetOption(request.options, 61).Some? then [GetOption(request.options, 61).value] else [])
    ensures ResponseDest(request, Nak(request))
         == Ok(if request.giaddr != 0 then Destination(request.giaddr, 67) else Destination(4294967295, 68))
  {
    hide ClientRead, EncodePacket, ImageOf, Carried;
    var nak := Nak(request);
    EchoIsCarried(request);
    TypeCarried(NegAcknowledge);
    WellFormedIsReadable(nak);
    ClientReadsEncoded(nak);
    assert GetOption(nak.options, DHCPMSGTYPE) == Some(nak.options[0]);
  }

  // ---- Mandatory options survive ----

  lemma SizeOne(o: DhcpOption)
    ensures Size([o]) == |DhcpOptions.ToNetwork(o)|
  {
    EncodeAllAppend([], o);
    assert [] + [o] == [o];
  }

  lemma {:induction false} SizeConcat(a: Options, b: Options)
    ensures Size(a + b) == Size(a) + Size(b)
  {
    hide DhcpOptions.ToNetwork;
    if b == [] {
      assert a + b == a;
    } else {
      var n := |b| - 1;
      SizeConcat(a, b[..n]);
      assert a + b == (a + b[..n]) + [b[n]] && b == b[..n] + [b[n]];
      EncodeAllAppend(a + b[..n], b[n]);
      EncodeAllAppend(b[..n], b[n]);
    }
  }

  lemma WordSize(code: byte, value: Value)
    requires value.Msg? || value.Addr? || value.U32?
    ensures Size([DhcpOption(code, value)]) == if value.Msg? then 3 else 6
  {
    hide Size;
    SizeOne(DhcpOption(code, value));
  }

  lemma FixedSize(request: DhcpPacket, lease: Lease)
    ensures Size(FixedOptions(request, lease)) == 15
  {
    hide Size, ResponseType, LeaseSeconds;
    var all := FixedOptions(request, lease);
    assert all == [all[0]] + [all[1]] + [all[2]];
    SizeConcat([all[0]], [all[1]]);
    SizeConcat([all[0]] + [all[1]], [all[2]]);
    WordSize(all[0].code, all[0].value);
    WordSize(all[1].code, all[1].value);
    WordSize(all[2].code, all[2].value);
  }

  /** At most 3 + 6 + 6 + 6 bytes of fixed options and 257 of client identifier. */
  lemma MandatorySize(request: DhcpPacket, lease: Lease)
    requires AllCarried(request.options)
    ensures Size(MandatoryOptions(request, lease)) <= 278
  {
    hide Size, AllCarried, FixedOptions, MaskOption, EchoedClientId;
    FixedSize(request, lease);
    SizeConcat(FixedOptions(request, lease), MaskOption(lease));
    SizeConcat(FixedOptions(request, lease) + MaskOption(lease), EchoedClientId(request));
    EchoAndMaskSize(request, lease);
  }

  lemma EchoAndMaskSize(request: DhcpPacket, lease: Lease)
    requires AllCarried(request.options)
    ensures Size(MaskOption(lease)) <= 6 && Size(EchoedClientId(request)) <= 257
  {
    FoundIsCarried(request.options, CLIENTID);
    if lease.yiaddr.Some? {
      SizeOne(MaskOption(lease)[0]);
    }
    if EchoedClientId(request) != [] {
      SizeOne(EchoedClientId(request)[0]);
    }
  }

  lemma {:induction false} HeadInMain(head: Options, rest: Options, l: Limits)
    requires Size(head) + RESERVED_BYTES <= l.max
    ensures head <= Pack(head + rest, l).main
  {
    hide Choose;
    if rest == [] {
      assert head + rest == head;
      AllInMain(head, l);
    } else {
      var n := |rest| - 1;
      HeadInMain(head, rest[..n], l);
      assert (head + rest)[..|head + rest| - 1] == head + rest[..n];
    }
  }

  /**
   Mandatory options survive: whatever size limit the client asks for, message
   type, server identifier, lease time, subnet mask and the echoed client
   identifier stand first in the options area and are never moved or dropped.
   */
  lemma MandatorySurvive(request: DhcpPacket, lease: Lease)
    requires AllCarried(request.options)
    ensures MandatoryOptions(request, lease) <= Delivered(Respond(request, lease))
    ensures match GetOption(request.options, 57)
      case Some(DhcpOption(_, U16(max))) =>
        var l := Limits((if max > 576 then max else 576) - 240, FileFree(lease), true);
        MandatoryOptions(request, lease) <= Pack(Respond(request, lease).options, l).main
      case _ => true
  {
    hide MandatoryOptions, Pack, Carried;
    MandatorySize(request, lease);
    if ClientLimit(request).Some? {
      HeadInMain(MandatoryOptions(request, lease), LeaseOptions(lease),
                 LimitsOf(Respond(request, lease), ClientLimit(request).value));
    }
  }
}
