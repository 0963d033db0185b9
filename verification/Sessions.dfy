/** Whole sessions of the server: datagrams in, datagrams out, judged by what clients read. */
module Sessions {
  import opened Wrappers
  import opened Bytes
  import opened Enums
  import opened DhcpOptions
  import opened OptionArea
  import opened Packet
  import opened Leases
  import opened Reply
  import opened Store
  import opened StoreRuns
  import opened Server

  datatype Input = Input(data: seq<byte>, destination: Option<u32>, recvIp: u32, now: int)

  /** The stores around a sequence of received datagrams, and what is sent for each. */
  datatype Session = Session(inputs: seq<Input>, dbs: seq<Database>, sents: seq<Option<Datagram>>)

  function Received(input: Input): Result<DhcpPacket, PacketError> {
    DecodePacket(input.data, input.destination == Some(BROADCAST))
  }

  ghost predicate ServerStep(cfg: Config, before: Database, input: Input, after: Database, sent: Option<Datagram>) {
    Processed(cfg, before, input.data, input.destination, input.recvIp, input.now, after, sent)
  }

  ghost predicate ValidSession(cfg: Config, s: Session) {
    && |s.dbs| == |s.inputs| + 1 && |s.sents| == |s.inputs|
    && s.dbs[0] == map[]
    && (forall k :: 0 <= k < |s.inputs| ==> ServerStep(cfg, s.dbs[k], s.inputs[k], s.dbs[k + 1], s.sents[k]))
    && (forall j, k :: 0 <= j <= k < |s.inputs| ==> s.inputs[j].now <= s.inputs[k].now)
  }

  /** The client reads an answer of the given type for the address. */
  predicate WireAnswer(sent: Option<Datagram>, kind: MessageType, ip: u32) {
    && sent.Some?
    && var read := ClientRead(sent.value.bytes);
    read.Ok? && MessageTypeOf(read.value.options) == Some(kind) && read.value.yiaddr == ip
  }

  /** The store call an input leads to: it decodes, is not for another server, and has a handler. */
  function CallOf(input: Input): Option<Call> {
    match Received(input)
    case Err(_) => None
    case Ok(packet) =>
      if ForOtherServer(packet, input.recvIp) || HandlerFor(packet) == None then None
      else Some(Call(HandlerFor(packet).value, RelayedIp(packet, input.recvIp), packet, input.now))
  }

  /** Either nothing happens, or the call is made and its outcome answered. */
  lemma Unfold(cfg: Config, before: Database, input: Input, after: Database, sent: Option<Datagram>)
    returns (out: Outcome)
    requires ServerStep(cfg, before, input, after, sent)
    ensures after != before || sent.Some? ==>
      && CallOf(input).Some? && Step(cfg, before, CallOf(input).value, after, out)
      && sent == SentFor(CallOf(input).value.packet, out, input.recvIp)
  {
    hide DecodePacket, ForOtherServer, HandlerFor, Step, SentFor, DiscoverSafe;
    out := Finished;
    if after != before || sent.Some? {
      var packet := Received(input).value;
      out :| Step(cfg, before, CallOf(input).value, after, out) && sent == SentFor(packet, out, input.recvIp);
    }
  }

  /** A call with any outcome it may have is a step of the server. */
  lemma Fold(cfg: Config, before: Database, input: Input, after: Database, out: Outcome)
    requires CallOf(input).Some? && Step(cfg, before, CallOf(input).value, after, out)
    requires CallOf(input).value.handler == HandleDiscover ==>
      DiscoverSafe(cfg, before, CallOf(input).value.packet, input.now)
    ensures ServerStep(cfg, before, input, after, SentFor(CallOf(input).value.packet, out, input.recvIp))
  {
    hide DecodePacket, ForOtherServer, HandlerFor, Step, SentFor, DiscoverSafe;
  }

  lemma ServerStepKeepsInv(cfg: Config, before: Database, input: Input, after: Database, sent: Option<Datagram>)
    requires ServerStep(cfg, before, input, after, sent) && Inv(cfg, before, input.now)
    ensures Inv(cfg, after, input.now)
  {
    hide ServerStep, Step, SentFor, Inv, HandlerFor, ForOtherServer;
    var out := Unfold(cfg, before, input, after, sent);
    if after != before {
      StepKeepsInv(cfg, before, CallOf(input).value, after, out);
    }
  }

  /** The store invariant over every session, at any clock reading not before the inputs so far. */
  lemma {:induction false} SessionInv(cfg: Config, s: Session, k: nat, t: int)
    requires ValidSession(cfg, s) && k <= |s.inputs|
    requires forall j :: 0 <= j < k ==> s.inputs[j].now <= t
    ensures Inv(cfg, s.dbs[k], t)
  {
    hide ServerStep, StoreLease;
    if k == 0 {
    } else {
      SessionInv(cfg, s, k - 1, s.inputs[k - 1].now);
      ServerStepKeepsInv(cfg, s.dbs[k - 1], s.inputs[k - 1], s.dbs[k], s.sents[k - 1]);
    }
  }

  lemma SessionAt(cfg: Config, s: Session, k: nat)
    requires ValidSession(cfg, s) && k < |s.inputs|
    ensures Inv(cfg, s.dbs[k], s.inputs[k].now)
    ensures ServerStep(cfg, s.dbs[k], s.inputs[k], s.dbs[k + 1], s.sents[k])
  {
    hide ServerStep, Inv;
    SessionInv(cfg, s, k, s.inputs[k].now);
  }

  // ---- Tenancy as clients see it ----

  /** The datagram can give up the lease of the address. */
  predicate InputGivesUp(input: Input, ip: u32, xid: u32) {
    CallOf(input).Some? && GivesUp(CallOf(input).value.handler, CallOf(input).value.packet, ip, xid)
  }

  predicate NoneGivesUp(s: Session, i: nat, j: nat, ip: u32, xid: u32)
    requires j <= |s.inputs|
  {
    forall k :: i <= k < j ==> !InputGivesUp(s.inputs[k], ip, xid)
  }

  /** Only discovers are answered with what a client reads as an offer, and then of an address they may choose. */
  lemma WireOfferIsDiscover(cfg: Config, before: Database, input: Input, after: Database, sent: Option<Datagram>,
                            ip: u32)
    requires WellFormedConfig(cfg) && Inv(cfg, before, input.now)
    requires ServerStep(cfg, before, input, after, sent) && WireAnswer(sent, Offer, ip)
    ensures Received(input).Ok? && MessageTypeOf(Received(input).value.options) == Some(Discover)
    ensures MayChoose(cfg, before, input.now, ip)
    ensures ip in after && after[ip].xid == Received(input).value.xid && Expiry(after[ip]) == input.now + LEASE_SECS
  {
    hide WellFormedConfig, DecodePacket, ClientRead, Inv, Processed, Grants, MayChoose, MessageTypeOf, Takes, HeldLease,
      AskedCodes, AnswersAsked;
    Answering(cfg, before, input, after, sent);
    var packet := Received(input).value;
    if MessageTypeOf(packet.options) == Some(Discover) {
      OfferEndToEnd(cfg, before, input.data, input.destination, input.recvIp, input.now, after, sent.value, packet);
    } else {
      AckEndToEnd(cfg, before, input.data, input.destination, input.recvIp, input.now, after, sent.value, packet);
    }
  }

  /** Only discovers and requests are answered. */
  lemma Answering(cfg: Config, before: Database, input: Input, after: Database, sent: Option<Datagram>)
    requires ServerStep(cfg, before, input, after, sent) && sent.Some?
    ensures Received(input).Ok?
    ensures MessageTypeOf(Received(input).value.options) in {Some(Discover), Some(Request)}
  {
    hide DecodePacket, MessageTypeOf, ForOtherServer, ClientStateOf, SentFor, Step, DiscoverSafe;
    var out := Unfold(cfg, before, input, after, sent);
    var call := CallOf(input).value;
    if call.handler in {HandleRelease, HandleDecline, HandleInform} {
      NoLeaseAnswer(cfg, before, call, after, out);
      NothingSent(call.packet, out, input.recvIp);
    }
  }

  lemma NoLeaseAnswer(cfg: Config, db: Database, call: Call, after: Database, out: Outcome)
    requires call.handler in {HandleRelease, HandleDecline, HandleInform} && Step(cfg, db, call, after, out)
    ensures out in {Finished, Failed(Generic)}
  {
    hide Renewed, Rebooted, MayChoose, NewLease, SelectingOutcome;
  }

  lemma DiscoverGivesNothingUp(input: Input, ip: u32, xid: u32)
    requires Received(input).Ok? && MessageTypeOf(Received(input).value.options) == Some(Discover)
    ensures !InputGivesUp(input, ip, xid)
  {
    hide DecodePacket, GetOption, ForOtherServer, ClientStateOf;
  }

  lemma ServerStepTenancy(cfg: Config, before: Database, input: Input, after: Database, sent: Option<Datagram>, ip: u32)
    requires WellFormedConfig(cfg) && Inv(cfg, before, input.now) && ServerStep(cfg, before, input, after, sent)
    requires ip in before && IsCurrent(before[ip], input.now) && !InputGivesUp(input, ip, before[ip].xid)
    ensures ip in after && after[ip].xid == before[ip].xid && Expiry(after[ip]) >= Expiry(before[ip])
    ensures !WireAnswer(sent, Offer, ip)
  {
    hide WellFormedConfig, ServerStep, Received, ForOtherServer, HandlerFor, Step, SentFor, Inv, WireAnswer, MayChoose,
      GivesUp;
    var out := Unfold(cfg, before, input, after, sent);
    if after != before {
      StepTenancy(cfg, before, CallOf(input).value, after, out, ip);
    }
    if WireAnswer(sent, Offer, ip) {
      WireOfferIsDiscover(cfg, before, input, after, sent, ip);
      ChosenInScope(cfg, before, input.now, ip);
    }
  }

  /**
   Exclusive tenancy on the wire: while a lease is current, renewals included, and
   no datagram gives it up, the store holds it for its transaction, its expiry
   never moves earlier, and no client reads an offer of its address.
   */
  lemma {:induction false} SessionTenancy(cfg: Config, s: Session, i: nat, j: nat, ip: u32)
    requires WellFormedConfig(cfg) && ValidSession(cfg, s) && i <= j <= |s.inputs| && ip in s.dbs[i]
    requires NoneGivesUp(s, i, j, ip, s.dbs[i][ip].xid)
    requires forall k :: i <= k < j && ip in s.dbs[k] ==> IsCurrent(s.dbs[k][ip], s.inputs[k].now)
    ensures ip in s.dbs[j] && s.dbs[j][ip].xid == s.dbs[i][ip].xid && Expiry(s.dbs[j][ip]) >= Expiry(s.dbs[i][ip])
    ensures forall k :: i <= k < j ==> !WireAnswer(s.sents[k], Offer, ip)
    decreases j - i
  {
    hide ServerStep, WireAnswer, WellFormedConfig, Inv, InputGivesUp;
    if i == j {
    } else {
      SessionTenancy(cfg, s, i, j - 1, ip);
      SessionAt(cfg, s, j - 1);
      ServerStepTenancy(cfg, s.dbs[j - 1], s.inputs[j - 1], s.dbs[j], s.sents[j - 1], ip);
    }
  }

  lemma OfferStarts(cfg: Config, s: Session, i: nat, ip: u32)
    requires WellFormedConfig(cfg) && ValidSession(cfg, s) && i < |s.inputs| && WireAnswer(s.sents[i], Offer, ip)
    ensures Received(s.inputs[i]).Ok? && MessageTypeOf(Received(s.inputs[i]).value.options) == Some(Discover)
    ensures ip in s.dbs[i + 1] && s.dbs[i + 1][ip].xid == Received(s.inputs[i]).value.xid
    ensures Expiry(s.dbs[i + 1][ip]) == s.inputs[i].now + LEASE_SECS
    ensures ip in s.dbs[i] ==> !IsCurrent(s.dbs[i][ip], s.inputs[i].now)
  {
    hide ServerStep, WireAnswer, WellFormedConfig, Inv, MayChoose, Received;
    SessionAt(cfg, s, i);
    WireOfferIsDiscover(cfg, s.dbs[i], s.inputs[i], s.dbs[i + 1], s.sents[i], ip);
    ChosenInScope(cfg, s.dbs[i], s.inputs[i].now, ip);
  }

  /** An address is offered again only after an input that found the lease, as last renewed, expired. */
  lemma {:induction false} SessionLapses(cfg: Config, s: Session, i: nat, j: nat, ip: u32) returns (k: nat)
    requires WellFormedConfig(cfg) && ValidSession(cfg, s) && i <= j < |s.inputs| && ip in s.dbs[i]
    requires NoneGivesUp(s, i, j, ip, s.dbs[i][ip].xid) && WireAnswer(s.sents[j], Offer, ip)
    ensures i <= k <= j && ip in s.dbs[k] && !IsCurrent(s.dbs[k][ip], s.inputs[k].now)
    ensures s.dbs[k][ip].xid == s.dbs[i][ip].xid && Expiry(s.dbs[k][ip]) >= Expiry(s.dbs[i][ip])
    decreases j - i
  {
    hide ServerStep, WireAnswer, WellFormedConfig, Inv, InputGivesUp, Received;
    if !IsCurrent(s.dbs[i][ip], s.inputs[i].now) {
      k := i;
    } else {
      SessionAt(cfg, s, i);
      OfferStarts(cfg, s, j, ip);
      DiscoverGivesNothingUp(s.inputs[j], ip, s.dbs[i][ip].xid);
      ServerStepTenancy(cfg, s.dbs[i], s.inputs[i], s.dbs[i + 1], s.sents[i], ip);
      k := SessionLapses(cfg, s, i + 1, j, ip);
    }
  }

  predicate FromTransaction(input: Input, xid: u32) {
    Received(input).Ok? && Received(input).value.xid == xid
  }

  /**
   Two clients read offers of one address only if in between some input found the
   first one's lease expired, a full lease time after the first offer and after
   every renewal, or a datagram gave the lease up.
   */
  lemma OffersApart(cfg: Config, s: Session, i: nat, j: nat, xid: u32, ip: u32) returns (k: nat)
    requires WellFormedConfig(cfg) && ValidSession(cfg, s) && i < j < |s.inputs| && FromTransaction(s.inputs[i], xid)
    requires WireAnswer(s.sents[i], Offer, ip) && WireAnswer(s.sents[j], Offer, ip)
    requires NoneGivesUp(s, i, j, ip, xid)
    ensures i < k <= j && ip in s.dbs[k] && s.dbs[k][ip].xid == xid
    ensures s.inputs[i].now + LEASE_SECS <= Expiry(s.dbs[k][ip]) <= s.inputs[k].now <= s.inputs[j].now
    ensures ip in s.dbs[j] ==> !IsCurrent(s.dbs[j][ip], s.inputs[j].now)
  {
    hide ServerStep, WireAnswer, WellFormedConfig, Received, InputGivesUp;
    OfferStarts(cfg, s, i, ip);
    OfferStarts(cfg, s, j, ip);
    k := SessionLapses(cfg, s, i + 1, j, ip);
  }

  // ---- The exchange completes ----

  /** A request of the transaction that selects this server's offer of the address, and can be answered. */
  predicate Selects(input: Input, xid: u32, ip: u32) {
    && FromTransaction(input, xid)
    && var packet := Received(input).value;
    && packet.op != BootReply && MessageTypeOf(packet.options) == Some(Request) && RequestShape(packet, Selecting)
    && Addressed(packet, input.recvIp) && GetOption(packet.options, 50) == Some(DhcpOption(50, Addr(ip)))
    && Destined(packet, ip)
  }

  /**
   The exchange completes: a client that reads an offer and answers it, with the
   same transaction and for the offered address, reads an acknowledgement of that
   address, as long as the lease had not expired for an input before and no
   datagram gave it up.
   */
  lemma OfferThenAcknowledge(cfg: Config, s: Session, i: nat, j: nat, xid: u32, ip: u32)
    requires WellFormedConfig(cfg) && ValidSession(cfg, s) && i < j < |s.inputs|
    requires FromTransaction(s.inputs[i], xid) && WireAnswer(s.sents[i], Offer, ip)
    requires Selects(s.inputs[j], xid, ip)
    requires NoneGivesUp(s, i, j, ip, xid)
    requires forall k :: i < k < j && ip in s.dbs[k] ==> IsCurrent(s.dbs[k][ip], s.inputs[k].now)
    ensures WireAnswer(s.sents[j], Acknowledge, ip)
  {
    hide ServerStep, WireAnswer, WellFormedConfig, Received, Inv, Selects, InputGivesUp, IsCurrent, Expiry;
    OfferStarts(cfg, s, i, ip);
    SessionTenancy(cfg, s, i + 1, j, ip);
    SessionAt(cfg, s, j);
    SelectingAnswered(cfg, s.dbs[j], s.inputs[j], s.dbs[j + 1], s.sents[j], xid, ip);
  }

  lemma SelectingAnswered(cfg: Config, before: Database, input: Input, after: Database, sent: Option<Datagram>,
                          xid: u32, ip: u32)
    requires WellFormedConfig(cfg) && Inv(cfg, before, input.now) && ServerStep(cfg, before, input, after, sent)
    requires Selects(input, xid, ip) && ip in before && before[ip].xid == xid
    ensures WireAnswer(sent, Acknowledge, ip) && sent.value.dest == GrantDest(Received(input).value)
  {
    hide WellFormedConfig, DecodePacket, ClientRead, Addressed, MessageTypeOf, GetOption, RequestShape,
      Processed, Grants, GrantDest, Inv, Destined;
    var packet := Received(input).value;
    RequestAnswered(cfg, before, input.data, input.destination, input.recvIp, input.now, after, sent, packet);
    AckEndToEnd(cfg, before, input.data, input.destination, input.recvIp, input.now, after, sent.value, packet);
  }

  // ---- Giving a lease up ----

  /** An accepted call that does not panic is made. */
  lemma UnfoldCall(cfg: Config, before: Database, input: Input, after: Database, sent: Option<Datagram>)
    returns (out: Outcome)
    requires ServerStep(cfg, before, input, after, sent) && CallOf(input).Some?
    requires CallOf(input).value.handler != HandleDiscover
    ensures Step(cfg, before, CallOf(input).value, after, out)
    ensures sent == SentFor(CallOf(input).value.packet, out, input.recvIp)
  {
    hide DecodePacket, ForOtherServer, HandlerFor, Step, SentFor, DiscoverSafe;
    var packet := Received(input).value;
    out :| Step(cfg, before, CallOf(input).value, after, out) && sent == SentFor(packet, out, input.recvIp);
  }

  lemma CallTime(input: Input)
    ensures CallOf(input).Some? ==> CallOf(input).value.now == input.now
  {
    hide Received, ForOtherServer, HandlerFor;
  }

  /** The input is a message of the type that names no other server. */
  predicate MessageOf(input: Input, kind: MessageType) {
    && Received(input).Ok? && MessageTypeOf(Received(input).value.options) == Some(kind)
    && Addressed(Received(input).value, input.recvIp)
  }

  lemma MessageCall(input: Input)
    ensures MessageOf(input, Release) ==>
      CallOf(input).Some? && CallOf(input).value.handler == HandleRelease
      && CallOf(input).value.packet == Received(input).value
    ensures MessageOf(input, Decline) ==>
      CallOf(input).Some? && CallOf(input).value.handler == HandleDecline
      && CallOf(input).value.packet == Received(input).value
  {
    hide Received, MessageTypeOf, ForOtherServer, Addressed, ClientStateOf;
    if Received(input).Ok? {
      AddressedIs(Received(input).value, input.recvIp);
    }
  }

  /** An input that names another server in option 54 leaves the store as it is and gets no answer. */
  lemma OtherServersMessage(cfg: Config, s: Session, k: nat, server: u32)
    requires ValidSession(cfg, s) && k < |s.inputs| && Received(s.inputs[k]).Ok? && server != s.inputs[k].recvIp
    requires GetOption(Received(s.inputs[k]).value.options, 54) == Some(DhcpOption(54, Addr(server)))
    ensures s.dbs[k + 1] == s.dbs[k] && s.sents[k] == None
  {
    hide Processed, DecodePacket, GetOption;
    var input := s.inputs[k];
    assert ServerStep(cfg, s.dbs[k], input, s.dbs[k + 1], s.sents[k]);
    OtherServerIgnored(cfg, s.dbs[k], input.data, input.destination, input.recvIp, input.now, s.dbs[k + 1], s.sents[k],
                       Received(input).value, server);
  }

  /**
   A release takes away the lease of its `yiaddr` and no other, whoever sends it:
   neither `ciaddr` nor transaction nor hardware address is looked at. Section 4.4.1
   of RFC 2131 has clients leave `yiaddr` 0: then nothing changes.
   */
  lemma ReleaseExact(cfg: Config, s: Session, k: nat, ip: u32)
    requires ValidSession(cfg, s) && k < |s.inputs| && MessageOf(s.inputs[k], Release)
    ensures var yiaddr := Received(s.inputs[k]).value.yiaddr;
      && s.dbs[k + 1] == s.dbs[k] - {yiaddr} && s.sents[k] == None
      && (ip in s.dbs[k] ==> (ip !in s.dbs[k + 1] <==> yiaddr == ip))
      && (yiaddr == 0 && cfg.scopeStart > 0 ==> s.dbs[k + 1] == s.dbs[k])
  {
    hide ServerStep, CallOf, StoreOptions, MessageOf, Received;
    SessionAt(cfg, s, k);
    MessageCall(s.inputs[k]);
    var out := UnfoldCall(cfg, s.dbs[k], s.inputs[k], s.dbs[k + 1], s.sents[k]);
  }

  /** The address has the one lease of the transaction. */
  predicate OnlyLease(db: Database, ip: u32, xid: u32) {
    ip in db && db[ip].xid == xid && forall a :: a in db && db[a].xid == xid ==> a == ip
  }

  /**
   A decline takes away one lease of its transaction, or nothing if there is none:
   the address it declines (option 50) is given up if that is the only lease of
   the transaction, and never if it is leased under another.
   */
  lemma DeclineExact(cfg: Config, s: Session, k: nat, ip: u32) returns (gone: set<u32>)
    requires ValidSession(cfg, s) && k < |s.inputs| && MessageOf(s.inputs[k], Decline)
    ensures var xid := Received(s.inputs[k]).value.xid;
      && s.dbs[k + 1] == s.dbs[k] - gone && s.sents[k] == None && |gone| <= 1
      && (forall a :: a in gone ==> a in s.dbs[k] && s.dbs[k][a].xid == xid)
      && (gone == {} ==> forall a :: a in s.dbs[k] ==> s.dbs[k][a].xid != xid)
      && (ip in s.dbs[k] && s.dbs[k][ip].xid != xid ==> ip in s.dbs[k + 1])
      && (OnlyLease(s.dbs[k], ip, xid) ==> ip !in s.dbs[k + 1])
  {
    hide ServerStep, CallOf, Inv, Renewed, Rebooted, MayChoose, MessageOf, Received;
    SessionAt(cfg, s, k);
    MessageCall(s.inputs[k]);
    CallTime(s.inputs[k]);
    var call := CallOf(s.inputs[k]).value;
    var out := UnfoldCall(cfg, s.dbs[k], s.inputs[k], s.dbs[k + 1], s.sents[k]);
    var at := DeclineRemovesOne(cfg, s.dbs[k], call, s.dbs[k + 1], out);
    gone := if exists other :: other in s.dbs[k] && s.dbs[k][other].xid == call.packet.xid then {at} else {};
    assert s.dbs[k] - {} == s.dbs[k];
  }

  // ---- Sessions put together ----

  /** Any outcome the store call may have continues a session. */
  lemma Append(cfg: Config, s: Session, input: Input, after: Database, out: Outcome) returns (more: Session)
    requires ValidSession(cfg, s) && CallOf(input).Some?
    requires var db := s.dbs[|s.inputs|];
      && Step(cfg, db, CallOf(input).value, after, out)
      && (CallOf(input).value.handler == HandleDiscover ==>
            DiscoverSafe(cfg, db, CallOf(input).value.packet, input.now))
    requires forall k :: 0 <= k < |s.inputs| ==> s.inputs[k].now <= input.now
    ensures ValidSession(cfg, more)
    ensures more == Session(s.inputs + [input], s.dbs + [after],
                            s.sents + [SentFor(CallOf(input).value.packet, out, input.recvIp)])
  {
    hide ServerStep, Received, ForOtherServer, HandlerFor, Step, SentFor, DiscoverSafe;
    var sent := SentFor(CallOf(input).value.packet, out, input.recvIp);
    Fold(cfg, s.dbs[|s.inputs|], input, after, out);
    more := Session(s.inputs + [input], s.dbs + [after], s.sents + [sent]);
    forall k | 0 <= k < |more.inputs|
      ensures ServerStep(cfg, more.dbs[k], more.inputs[k], more.dbs[k + 1], more.sents[k])
    {
      if k < |s.inputs| {
        assert ServerStep(cfg, s.dbs[k], s.inputs[k], s.dbs[k + 1], s.sents[k]);
      }
    }
  }
}
