/** Whole sequential runs of the lease store: invariant, tenancy, allocation and exhaustion. */
module StoreRuns {
  import opened Wrappers
  import opened Bytes
  import opened DhcpOptions
  import opened OptionArea
  import opened Overload
  import opened DomainNames
  import opened Packet
  import opened Leases
  import opened Reply
  import opened Store

  // ---- What the store adds to a lease ----

  predicate AddedCode(code: byte) {
    code in {ROUTER, DOMAINSERVER, DOMAINNAME, DOMAINSEARCH}
  }

  lemma {:induction false} ParamCodes(cfg: Config, codes: seq<byte>)
    ensures forall i :: 0 <= i < |ParamOptions(cfg, codes)| ==> AddedCode(ParamOptions(cfg, codes)[i].code)
  {
    hide Compress;
    if codes == [] {
    } else {
      ParamCodes(cfg, codes[..|codes| - 1]);
    }
  }

  lemma ParamCarried(cfg: Config, code: byte)
    requires WellFormedConfig(cfg)
    ensures AllCarried(ParamOption(cfg, code))
  {
    hide Compress, UsableConfig, PowerOfTwo;
  }

  lemma {:induction false} ParamsCarried(cfg: Config, codes: seq<byte>)
    requires WellFormedConfig(cfg)
    ensures AllCarried(ParamOptions(cfg, codes))
  {
    hide WellFormedConfig, Carried, ParamOption;
    if codes == [] {
    } else {
      ParamsCarried(cfg, codes[..|codes| - 1]);
      ParamCarried(cfg, codes[|codes| - 1]);
    }
  }

  // ---- What a client asks for and gets ----

  /** The codes asked for: what option 55 lists if it lists any, else subnet mask, router and name server. */
  function AskedCodes(packet: DhcpPacket): seq<byte> {
    match GetOption(packet.options, 55)
    case Some(DhcpOption(_, Blob(codes))) => if codes != [] then codes else [1, 3, 6]
    case _ => [1, 3, 6]
  }

  /** The configuration has something to say under the code. */
  predicate HasValue(cfg: Config, code: byte) {
    || (code == 3 && cfg.gateway != 0) || (code == 6 && cfg.dnsServers != [])
    || (code == 15 && cfg.domainName != []) || (code == 119 && cfg.dnsSearch != [])
  }

  /** The option says what the configuration has under its code: router, name servers, domain, search list. */
  predicate Gives(cfg: Config, o: DhcpOption) {
    || (o.code == 3 && o.value == Addrs([cfg.gateway])) || (o.code == 6 && o.value == Addrs(cfg.dnsServers))
    || (o.code == 15 && o.value == Text(cfg.domainName))
    || (o.code == 119 && o.value == Blob(Compress(cfg.dnsSearch).bytes))
  }

  /** The codes asked for that the configuration has a value for, in the order they are asked for. */
  function Kept(cfg: Config, codes: seq<byte>): seq<byte> {
    if codes == [] then []
    else
      var n := |codes| - 1;
      Kept(cfg, codes[..n]) + if HasValue(cfg, codes[n]) then [codes[n]] else []
  }

  /** The options are the configured values of the codes, one for each time the code is asked for. */
  predicate AnswersAsked(cfg: Config, codes: seq<byte>, options: Options) {
    && |options| == |Kept(cfg, codes)|
    && forall i :: 0 <= i < |options| ==> options[i].code == Kept(cfg, codes)[i] && Gives(cfg, options[i])
  }

  lemma OneAnswer(cfg: Config, code: byte)
    ensures var options := ParamOption(cfg, code);
      if HasValue(cfg, code) then |options| == 1 && options[0].code == code && Gives(cfg, options[0]) else options == []
  {
    hide Compress;
  }

  lemma {:induction false} ParamsAnswer(cfg: Config, codes: seq<byte>)
    ensures AnswersAsked(cfg, codes, ParamOptions(cfg, codes))
  {
    hide HasValue, Gives, ParamOption;
    if codes == [] {
    } else {
      ParamsAnswer(cfg, codes[..|codes| - 1]);
      OneAnswer(cfg, codes[|codes| - 1]);
    }
  }

  lemma AskedAre(packet: DhcpPacket)
    ensures RequestedParams(packet) == AskedCodes(packet)
  {
    hide GetOption;
  }

  /** The options of the lease a discover is given are exactly what its client asked for and the configuration has. */
  lemma DiscoverGets(cfg: Config, db: Database, call: Call, after: Database, out: Outcome)
    requires call.handler == HandleDiscover && Step(cfg, db, call, after, out) && out.Leased?
    ensures AnswersAsked(cfg, AskedCodes(call.packet), LeaseOptions(out.lease))
  {
    hide RequestedParams, AskedCodes, ParamOptions, MayChoose, CanServe, AnswersAsked;
    AskedAre(call.packet);
    ParamsAnswer(cfg, AskedCodes(call.packet));
  }

  lemma {:induction false} KeptIs(cfg: Config, codes: seq<byte>, code: byte)
    ensures code in Kept(cfg, codes) <==> code in codes && HasValue(cfg, code)
  {
    hide HasValue;
    if codes == [] {
    } else {
      var n := |codes| - 1;
      KeptIs(cfg, codes[..n], code);
      assert codes == codes[..n] + [codes[n]];
    }
  }

  /** Code by code: the configured value, exactly when it was asked for and there is one. */
  lemma AnswerExact(cfg: Config, codes: seq<byte>, options: Options, code: byte)
    requires AnswersAsked(cfg, codes, options)
    ensures if code in codes && HasValue(cfg, code)
      then GetOption(options, code).Some? && GetOption(options, code).value.code == code
        && Gives(cfg, GetOption(options, code).value)
      else GetOption(options, code) == None
  {
    hide HasValue, Gives, GetOption, Kept;
    KeptIs(cfg, codes, code);
    FirstFound(options, code);
    if code in Kept(cfg, codes) {
      var i :| 0 <= i < |Kept(cfg, codes)| && Kept(cfg, codes)[i] == code;
      assert options[i].code == code;
    }
  }

  /** The search list a client is sent reads back as the configured names exactly when they are well-formed. */
  lemma SearchListReadBack(cfg: Config, o: DhcpOption)
    requires WellFormedConfig(cfg) && o.code == 119 && Gives(cfg, o)
    ensures o.value.Blob? && (DecodeText(o.value.blob) == Some(cfg.dnsSearch) <==> WellFormedNames(cfg.dnsSearch))
  {
    hide Compress, Compressible, DecodeText, OffsetsBelow, PointersRead, WellFormedName;
    ShortOutputFits(cfg.dnsSearch, POINTER_LIMIT);
    TextRoundTrip(cfg.dnsSearch);
    if WellFormedNames(cfg.dnsSearch) {
      ShortPointersRead(cfg.dnsSearch);
    }
  }

  lemma {:induction false} NotAdded(options: Options, code: byte)
    requires forall i :: 0 <= i < |options| ==> options[i].code != code
    ensures GetOption(options, code) == None
  {
    if options == [] {
    } else {
      NotAdded(options[1..], code);
    }
  }

  /** The options of a lease made by this store: never a subnet mask, never Overload. */
  predicate StoreOptions(cfg: Config, options: Options) {
    && GetOption(options, SUBNETMASK) == None
    && NoOverload(options)
    && (WellFormedConfig(cfg) ==> AllCarried(options))
  }

  predicate StoreLease(cfg: Config, ip: u32, lease: Lease) {
    && lease.yiaddr == Some(Ipv4Net(ip, cfg.subnetMask)) && InScope(cfg, ip)
    && lease.leaseDuration == LEASE_SECS
    && lease.siaddr == None && lease.file == None
    && StoreOptions(cfg, LeaseOptions(lease))
  }

  lemma NewLeaseIsStoreLease(cfg: Config, packet: DhcpPacket, ip: u32, now: int)
    requires InScope(cfg, ip)
    ensures StoreLease(cfg, ip, NewLease(cfg, packet, ip, now))
  {
    hide RequestedParams, ParamOptions, WellFormedConfig, Carried;
    var codes := RequestedParams(packet);
    ParamCodes(cfg, codes);
    NotAdded(ParamOptions(cfg, codes), SUBNETMASK);
    if WellFormedConfig(cfg) {
      ParamsCarried(cfg, codes);
    }
  }

  /** A well-formed configuration never makes a discover panic. */
  lemma ServesAll(cfg: Config, packet: DhcpPacket)
    requires WellFormedConfig(cfg)
    ensures CanServe(cfg, packet)
  {
    hide ContiguousMask, RequestedParams;
  }

  // ---- Invariant ----

  /** Every lease is keyed by its own address in the scope and is no newer than the clock. */
  predicate Inv(cfg: Config, db: Database, now: int) {
    forall ip :: ip in db ==> StoreLease(cfg, ip, db[ip]) && db[ip].leaseTime <= now
  }

  lemma {:induction false} UnusedIsFirst(db: Database, i: int, end: u32)
    requires 0 <= i
    ensures match UnusedFrom(db, i, end)
      case Some(ip) => i <= ip < end && ip !in db && forall j :: i <= j < ip ==> j in db
      case None => forall j :: i <= j < end ==> j in db
    decreases end - i
  {
    if i >= end || i !in db {
    } else {
      UnusedIsFirst(db, i + 1, end);
    }
  }

  lemma ChosenInScope(cfg: Config, db: Database, now: int, ip: u32)
    requires Inv(cfg, db, now) && MayChoose(cfg, db, now, ip)
    ensures InScope(cfg, ip) && (ip in db ==> !IsCurrent(db[ip], now))
  {
    hide StoreOptions;
    UnusedIsFirst(db, cfg.scopeStart, cfg.scopeEnd);
  }

  lemma RebootFails(cfg: Config, db: Database, packet: DhcpPacket, recvIp: u32, now: int)
    requires Inv(cfg, db, now)
    ensures var (after, out) := Rebooted(db, packet, recvIp, now);
      after == db && out.Failed? && out.error != LeaseMismatchClientIP
  {
    hide RequestedAddress, NoOverload, WellFormedConfig, ContiguousMask;
  }

  lemma RenewedLease(cfg: Config, db: Database, packet: DhcpPacket, now: int)
    requires Inv(cfg, db, now)
    ensures var (after, out) := Renewed(db, packet, now);
      && (out.Failed? ==> after == db && out.error != LeaseMismatchClientIP)
      && (out.Leased? ==>
            var ip := RenewalAddress(packet);
            ip in db && out.lease == db[ip].(leaseTime := now) && after == db[ip := out.lease])
      && !out.Finished?
  {
    hide RenewalAddress, StoreOptions;
  }

  lemma StepKeepsInv(cfg: Config, db: Database, call: Call, after: Database, out: Outcome)
    requires Inv(cfg, db, call.now) && Step(cfg, db, call, after, out)
    ensures Inv(cfg, after, call.now)
  {
    hide StoreOptions, Renewed, Rebooted, MayChoose, NewLease, SelectingOutcome;
    match call.handler {
      case HandleDiscover =>
        if out.Leased? {
          var ip := out.lease.yiaddr.value.addr;
          ChosenInScope(cfg, db, call.now, ip);
          NewLeaseIsStoreLease(cfg, call.packet, ip, call.now);
          NewLeaseTime(cfg, call.packet, ip, call.now);
        }
      case HandleInitReboot => RebootFails(cfg, db, call.packet, call.recvIp, call.now);
      case HandleRenewing => RenewedLease(cfg, db, call.packet, call.now);
      case HandleRebinding => RenewedLease(cfg, db, call.packet, call.now);
      case _ =>
    }
  }

  lemma NewLeaseTime(cfg: Config, packet: DhcpPacket, ip: u32, now: int)
    ensures var lease := NewLease(cfg, packet, ip, now);
      lease.leaseTime == now && lease.xid == packet.xid && Expiry(lease) == now + LEASE_SECS
  {
  }

  // ---- The handlers of requests, in terms of the message ----

  /** Every lease is kept under its own address. */
  predicate Keyed(db: Database) {
    forall ip :: ip in db ==> db[ip].yiaddr.Some? && db[ip].yiaddr.value.addr == ip
  }

  /** The address in option 50, or else the other one. */
  function Named(packet: DhcpPacket, otherwise: u32): u32 {
    match GetOption(packet.options, 50)
    case Some(DhcpOption(_, Addr(ip))) => ip
    case _ => otherwise
  }

  /** The lease of the address starts anew and is the answer. */
  predicate Restarts(db: Database, ip: u32, now: int, after: Database, out: Outcome) {
    ip in db && out == Leased(db[ip].(leaseTime := now)) && after == db[ip := db[ip].(leaseTime := now)]
  }

  /** A renewal restarts the lease of the address in option 50 or else `ciaddr`, whoever has it. */
  lemma RenewalExact(cfg: Config, db: Database, call: Call, after: Database, out: Outcome)
    requires call.handler in {HandleRenewing, HandleRebinding} && Step(cfg, db, call, after, out) && Keyed(db)
    ensures var ip := Named(call.packet, call.packet.ciaddr);
      if ip != 0 && ip in db then Restarts(db, ip, call.now, after, out)
      else after == db && out == Failed(if ip == 0 then ProtocolError else NoLeaseAvailable)
  {
    hide GetOption;
  }

  /** A selection answers with the lease of the address in option 50 if it is of the request's transaction. */
  lemma SelectionExact(cfg: Config, db: Database, call: Call, after: Database, out: Outcome)
    requires call.handler == HandleSelecting && Step(cfg, db, call, after, out)
    ensures after == db
    ensures match GetOption(call.packet.options, 50)
      case Some(DhcpOption(_, Addr(ip))) =>
        out == if ip in db && db[ip].xid == call.packet.xid then Leased(db[ip]) else Failed(NoLeaseAvailable)
      case _ => out == Failed(NoLeaseAvailable)
  {
    hide GetOption;
  }

  /**
   Init-reboot restarts the lease of the address in option 50 exactly when that
   lease carries a subnet mask other than 0: taking it out first when it is of
   another network makes no difference, because it is stored again.
   */
  lemma RebootExact(cfg: Config, db: Database, call: Call, after: Database, out: Outcome)
    requires call.handler == HandleInitReboot && Step(cfg, db, call, after, out) && Keyed(db)
    ensures var ip := Named(call.packet, 0);
      if ip == 0 || ip !in db then after == db && out == Failed(if ip == 0 then ProtocolError else NoLeaseAvailable)
      else match GetOption(LeaseOptions(db[ip]), 1)
        case Some(DhcpOption(_, Addr(mask))) =>
          if mask != 0 then Restarts(db, ip, call.now, after, out) else after == db && out == Failed(Generic)
        case _ => after == db && out == Failed(Generic)
  {
    hide ContiguousMask, SameNetwork;
    var ip := Named(call.packet, 0);
    if ip in db {
      assert db[ip := db[ip].(leaseTime := call.now)] == (db - {ip})[ip := db[ip].(leaseTime := call.now)];
    }
  }

  // ---- Runs ----

  /** States and answers of a sequence of calls, from the empty store. */
  datatype Run = Run(calls: seq<Call>, dbs: seq<Database>, outs: seq<Outcome>)

  predicate ValidRun(cfg: Config, r: Run) {
    && |r.dbs| == |r.calls| + 1 && |r.outs| == |r.calls|
    && r.dbs[0] == map[]
    && (forall k :: 0 <= k < |r.calls| ==> Step(cfg, r.dbs[k], r.calls[k], r.dbs[k + 1], r.outs[k]))
    && (forall j, k :: 0 <= j <= k < |r.calls| ==> r.calls[j].now <= r.calls[k].now)
  }

  /** The invariant of every run, at any clock reading not before the calls made so far. */
  lemma {:induction false} RunInv(cfg: Config, r: Run, k: nat, t: int)
    requires ValidRun(cfg, r) && k <= |r.calls|
    requires forall j :: 0 <= j < k ==> r.calls[j].now <= t
    ensures Inv(cfg, r.dbs[k], t)
  {
    hide Step, StoreLease;
    if k == 0 {
    } else {
      RunInv(cfg, r, k - 1, r.calls[k - 1].now);
      StepKeepsInv(cfg, r.dbs[k - 1], r.calls[k - 1], r.dbs[k], r.outs[k - 1]);
    }
  }

  /** The invariant at the clock reading of the next call. */
  lemma RunInvAt(cfg: Config, r: Run, k: nat)
    requires ValidRun(cfg, r) && k < |r.calls|
    ensures Inv(cfg, r.dbs[k], r.calls[k].now)
    ensures Step(cfg, r.dbs[k], r.calls[k], r.dbs[k + 1], r.outs[k])
  {
    hide Step, Inv;
    RunInv(cfg, r, k, r.calls[k].now);
  }

  // ---- Tenancy ----

  predicate Removes(call: Call) {
    call.handler in {HandleRelease, HandleDecline}
  }

  /** A message that can give up the lease of the address: a release naming it, or a decline of its transaction. */
  predicate GivesUp(handler: Handler, packet: DhcpPacket, ip: u32, xid: u32) {
    (handler == HandleRelease && packet.yiaddr == ip) || (handler == HandleDecline && packet.xid == xid)
  }

  predicate NotGivenUp(r: Run, i: nat, j: nat, ip: u32, xid: u32)
    requires j <= |r.calls|
  {
    forall k :: i <= k < j ==> !GivesUp(r.calls[k].handler, r.calls[k].packet, ip, xid)
  }

  /** The answer of a discover that chose the address. */
  predicate Offers(call: Call, out: Outcome, ip: int) {
    call.handler == HandleDiscover && out.Leased? && out.lease.yiaddr.Some? && out.lease.yiaddr.value.addr == ip
  }

  lemma StepTenancy(cfg: Config, db: Database, call: Call, after: Database, out: Outcome, ip: u32)
    requires Inv(cfg, db, call.now) && Step(cfg, db, call, after, out)
    requires ip in db && IsCurrent(db[ip], call.now)
    requires !GivesUp(call.handler, call.packet, ip, db[ip].xid)
    ensures ip in after && after[ip].xid == db[ip].xid && Expiry(after[ip]) >= Expiry(db[ip])
    ensures !Offers(call, out, ip)
  {
    hide StoreOptions, Renewed, Rebooted, MayChoose, NewLease, SelectingOutcome;
    match call.handler {
      case HandleDiscover =>
        if out.Leased? {
          ChosenInScope(cfg, db, call.now, out.lease.yiaddr.value.addr);
        }
      case HandleInitReboot => RebootFails(cfg, db, call.packet, call.recvIp, call.now);
      case HandleRenewing => RenewedLease(cfg, db, call.packet, call.now);
      case HandleRebinding => RenewedLease(cfg, db, call.packet, call.now);
      case HandleDecline =>
        if after != db {
          var other :| other in db && db[other].xid == call.packet.xid && after == WithoutLease(db, db[other]);
          assert StoreLease(cfg, other, db[other]);
        }
      case _ =>
    }
  }

  /**
   Exclusive tenancy: while a stored lease is current, renewals included, and no
   release of its address or decline of its transaction arrives, it stays, keeps
   its transaction id, never expires earlier, and no discover is given its address.
   */
  lemma {:induction false} Tenancy(cfg: Config, r: Run, i: nat, j: nat, ip: u32)
    requires ValidRun(cfg, r) && i <= j <= |r.calls| && ip in r.dbs[i]
    requires NotGivenUp(r, i, j, ip, r.dbs[i][ip].xid)
    requires forall k :: i <= k < j && ip in r.dbs[k] ==> IsCurrent(r.dbs[k][ip], r.calls[k].now)
    ensures ip in r.dbs[j] && r.dbs[j][ip].xid == r.dbs[i][ip].xid && Expiry(r.dbs[j][ip]) >= Expiry(r.dbs[i][ip])
    ensures forall k :: i <= k < j ==> !Offers(r.calls[k], r.outs[k], ip)
    decreases j - i
  {
    hide Step, Inv, Offers, GivesUp;
    if i == j {
    } else {
      Tenancy(cfg, r, i, j - 1, ip);
      RunInvAt(cfg, r, j - 1);
      StepTenancy(cfg, r.dbs[j - 1], r.calls[j - 1], r.dbs[j], r.outs[j - 1], ip);
    }
  }

  /** An address is given out again only after a call that found the lease, as last renewed, expired. */
  lemma {:induction false} LeaseLapses(cfg: Config, r: Run, i: nat, j: nat, ip: u32) returns (k: nat)
    requires ValidRun(cfg, r) && i <= j < |r.calls| && ip in r.dbs[i]
    requires NotGivenUp(r, i, j, ip, r.dbs[i][ip].xid) && Offers(r.calls[j], r.outs[j], ip)
    ensures i <= k <= j && ip in r.dbs[k] && !IsCurrent(r.dbs[k][ip], r.calls[k].now)
    ensures r.dbs[k][ip].xid == r.dbs[i][ip].xid && Expiry(r.dbs[k][ip]) >= Expiry(r.dbs[i][ip])
    decreases j - i
  {
    hide Step, Inv, GivesUp;
    if !IsCurrent(r.dbs[i][ip], r.calls[i].now) {
      k := i;
    } else {
      RunInvAt(cfg, r, i);
      OfferIsNoGiveUp(r.calls[j], r.outs[j], ip, r.dbs[i][ip].xid);
      StepTenancy(cfg, r.dbs[i], r.calls[i], r.dbs[i + 1], r.outs[i], ip);
      k := LeaseLapses(cfg, r, i + 1, j, ip);
    }
  }

  lemma OfferIsNoGiveUp(call: Call, out: Outcome, ip: u32, xid: u32)
    requires Offers(call, out, ip)
    ensures !GivesUp(call.handler, call.packet, ip, xid)
  {
  }

  lemma OfferStores(cfg: Config, r: Run, i: nat, ip: u32)
    requires ValidRun(cfg, r) && i < |r.calls| && Offers(r.calls[i], r.outs[i], ip)
    ensures MayChoose(cfg, r.dbs[i], r.calls[i].now, ip) && Inv(cfg, r.dbs[i], r.calls[i].now)
    ensures ip in r.dbs[i + 1] && r.dbs[i + 1][ip].xid == r.calls[i].packet.xid
    ensures Expiry(r.dbs[i + 1][ip]) == r.calls[i].now + LEASE_SECS
  {
    hide NewLease, MayChoose, Inv;
    RunInvAt(cfg, r, i);
    NewLeaseTime(cfg, r.calls[i].packet, ip, r.calls[i].now);
  }

  /**
   Two discovers are given the same address only if between them some call found
   the first one's lease expired, a full lease time after the first discover and
   after every renewal, or the lease was given up. The second one never takes a current lease.
   */
  lemma NoDoubleOffer(cfg: Config, r: Run, i: nat, j: nat, ip: u32) returns (k: nat)
    requires ValidRun(cfg, r) && i < j < |r.calls|
    requires Offers(r.calls[i], r.outs[i], ip) && Offers(r.calls[j], r.outs[j], ip)
    requires NotGivenUp(r, i, j, ip, r.calls[i].packet.xid)
    ensures i < k <= j && ip in r.dbs[k] && r.dbs[k][ip].xid == r.calls[i].packet.xid
    ensures r.calls[i].now + LEASE_SECS <= Expiry(r.dbs[k][ip]) <= r.calls[k].now <= r.calls[j].now
    ensures ip in r.dbs[j] ==> !IsCurrent(r.dbs[j][ip], r.calls[j].now)
  {
    hide Step, Inv, GivesUp, MayChoose;
    OfferStores(cfg, r, i, ip);
    k := LeaseLapses(cfg, r, i + 1, j, ip);
    OfferStores(cfg, r, j, ip);
    ChosenInScope(cfg, r.dbs[j], r.calls[j].now, ip);
  }

  // ---- Allocation ----

  function Discovers(calls: seq<Call>): nat {
    if calls == [] then 0
    else Discovers(calls[..|calls| - 1]) + if calls[|calls| - 1].handler == HandleDiscover then 1 else 0
  }

  ghost predicate HoldsFirst(cfg: Config, db: Database, n: nat) {
    forall ip: int :: ip in db <==> cfg.scopeStart <= ip < cfg.scopeStart + n
  }

  lemma UnusedAfterFirst(cfg: Config, db: Database, n: nat)
    requires HoldsFirst(cfg, db, n) && n < PoolSize(cfg)
    ensures cfg.scopeStart + n < cfg.scopeEnd && Unused(cfg, db) == Some(cfg.scopeStart + n)
  {
    assert cfg.scopeStart + n !in db;
    UnusedIsFirst(db, cfg.scopeStart, cfg.scopeEnd);
  }

  lemma StepAllocation(cfg: Config, db: Database, call: Call, after: Database, out: Outcome, n: nat)
    requires Inv(cfg, db, call.now) && Step(cfg, db, call, after, out)
    requires !Removes(call) && HoldsFirst(cfg, db, n)
    ensures call.handler != HandleDiscover ==> HoldsFirst(cfg, after, n)
    ensures call.handler == HandleDiscover && n < PoolSize(cfg) ==>
      HoldsFirst(cfg, after, n + 1) && Offers(call, out, cfg.scopeStart + n)
  {
    hide StoreOptions, Renewed, Rebooted, NewLease, SelectingOutcome, Unused, StoreLease;
    match call.handler {
      case HandleDiscover =>
        if n < PoolSize(cfg) {
          UnusedAfterFirst(cfg, db, n);
        }
      case HandleInitReboot => RebootFails(cfg, db, call.packet, call.recvIp, call.now);
      case HandleRenewing => RenewedLease(cfg, db, call.packet, call.now);
      case HandleRebinding => RenewedLease(cfg, db, call.packet, call.now);
      case _ =>
    }
  }

  /**
   Allocation: in a fresh store without removals the discovers are given the
   scope's addresses in order, whatever other calls come between them.
   */
  lemma {:induction false} Allocation(cfg: Config, r: Run, k: nat)
    requires ValidRun(cfg, r) && k <= |r.calls|
    requires forall i :: 0 <= i < k ==> !Removes(r.calls[i])
    requires Discovers(r.calls[..k]) <= PoolSize(cfg)
    ensures HoldsFirst(cfg, r.dbs[k], Discovers(r.calls[..k]))
    ensures k > 0 && r.calls[k - 1].handler == HandleDiscover ==>
      Offers(r.calls[k - 1], r.outs[k - 1], cfg.scopeStart + Discovers(r.calls[..k - 1]))
  {
    hide Step, StoreLease, Offers, Removes, PoolSize;
    if k == 0 {
    } else {
      assert r.calls[..k][..k - 1] == r.calls[..k - 1];
      Allocation(cfg, r, k - 1);
      RunInvAt(cfg, r, k - 1);
      StepAllocation(cfg, r.dbs[k - 1], r.calls[k - 1], r.dbs[k], r.outs[k - 1], Discovers(r.calls[..k - 1]));
    }
  }

  // ---- Exhaustion ----

  function Range(a: int, b: int): (s: set<int>)
    ensures forall x :: x in s <==> a <= x < b
    ensures |s| == if a < b then b - a else 0
    decreases b - a
  {
    if a >= b then {} else Range(a, b - 1) + {b - 1}
  }

  lemma SubsetSizes(a: set<int>, b: set<int>)
    requires a <= b
    ensures |a| <= |b| && (|a| == |b| ==> a == b)
  {
    assert |b| == |a| + |b - a| by {
      assert b == a + (b - a);
    }
    if |a| == |b| {
      assert b - a == {};
    }
  }

  /** The store is full exactly when no address is unused. */
  lemma FullIsNoneUnused(cfg: Config, db: Database, t: int)
    requires Inv(cfg, db, t)
    ensures |db| <= PoolSize(cfg)
    ensures |db| == PoolSize(cfg) <==> Unused(cfg, db) == None
  {
    hide StoreOptions;
    var pool := Range(cfg.scopeStart, cfg.scopeEnd);
    var keys: set<int> := db.Keys;
    SubsetSizes(keys, pool);
    UnusedIsFirst(db, cfg.scopeStart, cfg.scopeEnd);
    if Unused(cfg, db) == None {
      assert pool <= keys;
      assert keys == pool;
    } else {
      assert Unused(cfg, db).value in pool && Unused(cfg, db).value !in keys;
    }
  }

  /**
   Exhaustion: a reachable store never holds more leases than the pool has
   addresses, and a discover fails exactly when it holds that many, all current.
   */
  lemma Exhaustion(cfg: Config, r: Run, k: nat)
    requires ValidRun(cfg, r) && k <= |r.calls|
    ensures |r.dbs[k]| <= PoolSize(cfg)
    ensures k < |r.calls| && r.calls[k].handler == HandleDiscover ==>
      (r.outs[k].Failed? <==> |r.dbs[k]| == PoolSize(cfg) && AllCurrent(r.dbs[k], r.calls[k].now))
  {
    hide StoreLease, NewLease, Unused, PoolSize;
    var t := if k == 0 then 0 else r.calls[k - 1].now;
    RunInv(cfg, r, k, t);
    FullIsNoneUnused(cfg, r.dbs[k], t);
    if k < |r.calls| {
      RunInvAt(cfg, r, k);
    }
  }

  // ---- The other handlers on reachable stores ----

  /** Init-reboot never succeeds and never changes the store: the leases it makes carry no subnet mask option. */
  lemma InitRebootNeverSucceeds(cfg: Config, r: Run, k: nat)
    requires ValidRun(cfg, r) && k < |r.calls| && r.calls[k].handler == HandleInitReboot
    ensures r.outs[k].Failed? && r.dbs[k + 1] == r.dbs[k]
  {
    hide Rebooted, StoreLease;
    RunInvAt(cfg, r, k);
    RebootFails(cfg, r.dbs[k], r.calls[k].packet, r.calls[k].recvIp, r.calls[k].now);
  }

  /** A decline takes away one lease of its transaction if there is one, and nothing else. */
  lemma DeclineRemovesOne(cfg: Config, db: Database, call: Call, after: Database, out: Outcome) returns (ip: u32)
    requires call.handler == HandleDecline && Step(cfg, db, call, after, out) && Inv(cfg, db, call.now)
    ensures if exists other :: other in db && db[other].xid == call.packet.xid
      then ip in db && db[ip].xid == call.packet.xid && after == db - {ip}
      else after == db
  {
    hide StoreOptions;
    ip := 0;
    if exists other :: other in db && db[other].xid == call.packet.xid {
      ip :| ip in db && db[ip].xid == call.packet.xid && after == WithoutLease(db, db[ip]);
      assert StoreLease(cfg, ip, db[ip]);
    }
  }

  /** A lease that no discover has just made was there before, under the same transaction. */
  lemma StepOrigin(cfg: Config, db: Database, call: Call, after: Database, out: Outcome, ip: u32)
    requires Inv(cfg, db, call.now) && Step(cfg, db, call, after, out) && ip in after && !Offers(call, out, ip)
    ensures ip in db && after[ip].xid == db[ip].xid
  {
    hide StoreOptions, Renewed, Rebooted, NewLease, SelectingOutcome, MayChoose;
    match call.handler {
      case HandleInitReboot => RebootFails(cfg, db, call.packet, call.recvIp, call.now);
      case HandleRenewing => RenewedLease(cfg, db, call.packet, call.now);
      case HandleRebinding => RenewedLease(cfg, db, call.packet, call.now);
      case HandleDecline =>
        if after != db {
          var other :| other in db && db[other].xid == call.packet.xid && after == WithoutLease(db, db[other]);
        }
      case _ =>
    }
  }

  lemma {:induction false} EarlierDiscover(cfg: Config, r: Run, k: nat, ip: u32) returns (i: nat)
    requires ValidRun(cfg, r) && k <= |r.calls| && ip in r.dbs[k]
    ensures i < k && Offers(r.calls[i], r.outs[i], ip) && r.calls[i].packet.xid == r.dbs[k][ip].xid
  {
    hide Inv, Step, Offers;
    if Offers(r.calls[k - 1], r.outs[k - 1], ip) {
      OfferStores(cfg, r, k - 1, ip);
      i := k - 1;
    } else {
      RunInvAt(cfg, r, k - 1);
      StepOrigin(cfg, r.dbs[k - 1], r.calls[k - 1], r.dbs[k], r.outs[k - 1], ip);
      i := EarlierDiscover(cfg, r, k - 1, ip);
    }
  }

  /** A selecting request succeeds only for an address an earlier discover of that transaction was given. */
  lemma SelectingRestsOnOffer(cfg: Config, r: Run, k: nat) returns (i: nat)
    requires ValidRun(cfg, r) && k < |r.calls| && r.calls[k].handler == HandleSelecting && r.outs[k].Leased?
    ensures i < k && r.calls[i].packet.xid == r.calls[k].packet.xid
    ensures r.outs[k].lease.yiaddr.Some? && Offers(r.calls[i], r.outs[i], r.outs[k].lease.yiaddr.value.addr)
  {
    hide StoreOptions, RequestedAddress;
    RunInvAt(cfg, r, k);
    i := EarlierDiscover(cfg, r, k, RequestedAddress(r.calls[k].packet).value);
  }

  /**
   An offer is honoured: a selecting request of the same transaction for the
   offered address is answered with that address, as long as the lease had not
   expired for an earlier call and was not given up. The request itself may come late.
   */
  lemma OfferIsHonoured(cfg: Config, r: Run, i: nat, j: nat, ip: u32)
    requires ValidRun(cfg, r) && i < j < |r.calls| && Offers(r.calls[i], r.outs[i], ip)
    requires r.calls[j].handler == HandleSelecting && r.calls[j].packet.xid == r.calls[i].packet.xid
    requires RequestedAddress(r.calls[j].packet) == Some(ip)
    requires NotGivenUp(r, i, j, ip, r.calls[i].packet.xid)
    requires forall k :: i < k < j && ip in r.dbs[k] ==> IsCurrent(r.dbs[k][ip], r.calls[k].now)
    ensures r.outs[j].Leased? && r.outs[j].lease.xid == r.calls[i].packet.xid
    ensures StoreLease(cfg, ip, r.outs[j].lease)
  {
    hide NewLease, MayChoose, StoreLease, RequestedAddress, GivesUp;
    OfferStores(cfg, r, i, ip);
    Tenancy(cfg, r, i + 1, j, ip);
    RunInvAt(cfg, r, j);
  }
}
