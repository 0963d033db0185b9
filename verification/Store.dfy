/**
 The in-memory lease store, one handler at a time: a map from address to lease,
 searched, filled and emptied by the handlers of the client states.
 Each call carries the clock reading it makes.
 */
module Store {
  import opened Wrappers
  import opened Bytes
  import opened DhcpOptions
  import opened OptionArea
  import opened DomainNames
  import opened Packet
  import opened Leases

  const LEASE_SECS: int := 3600
  const DEFAULT_PARAM_LIST: seq<byte> := [SUBNETMASK, ROUTER, DOMAINSERVER]

  datatype Config = Config(
    scopeStart: u32,
    scopeEnd: u32,
    gateway: u32,
    subnetMask: u32,
    domainName: seq<byte>,
    dnsServers: seq<u32>,
    dnsSearch: seq<Name>)

  predicate PowerOfTwo(n: nat) {
    n == 1 || (n > 0 && n % 2 == 0 && PowerOfTwo(n / 2))
  }

  /** Ones then zeros: what the network constructor accepts as a netmask. */
  predicate ContiguousMask(mask: u32) {
    PowerOfTwo(0x1_0000_0000 - mask)
  }

  lemma {:induction false} PowersAre(n: nat)
    requires n <= 0x1_0000_0000
    ensures PowerOfTwo(n) <==> n in {
        1, 2, 4, 8, 16, 32, 64, 128, 256, 512, 1024, 2048, 4096, 8192, 16384, 32768, 0x1_0000, 0x2_0000,
        0x4_0000, 0x8_0000, 0x10_0000, 0x20_0000, 0x40_0000, 0x80_0000, 0x100_0000, 0x200_0000, 0x400_0000,
        0x800_0000, 0x1000_0000, 0x2000_0000, 0x4000_0000, 0x8000_0000, 0x1_0000_0000}
  {
    if n > 1 && n % 2 == 0 {
      PowersAre(n / 2);
    }
  }

  /** The netmasks are the ones of 0 to 32 leading ones. */
  lemma NetmasksAre(mask: u32)
    ensures ContiguousMask(mask) <==> mask in {
        0, 0x8000_0000, 0xC000_0000, 0xE000_0000, 0xF000_0000, 0xF800_0000, 0xFC00_0000, 0xFE00_0000,
        0xFF00_0000, 0xFF80_0000, 0xFFC0_0000, 0xFFE0_0000, 0xFFF0_0000, 0xFFF8_0000, 0xFFFC_0000,
        0xFFFE_0000, 0xFFFF_0000, 0xFFFF_8000, 0xFFFF_C000, 0xFFFF_E000, 0xFFFF_F000, 0xFFFF_F800,
        0xFFFF_FC00, 0xFFFF_FE00, 0xFFFF_FF00, 0xFFFF_FF80, 0xFFFF_FFC0, 0xFFFF_FFE0, 0xFFFF_FFF0,
        0xFFFF_FFF8, 0xFFFF_FFFC, 0xFFFF_FFFE, 0xFFFF_FFFF}
  {
    PowersAre(0x1_0000_0000 - mask);
  }

  /** No handler of the store panics on this configuration, whatever it is asked. */
  predicate UsableConfig(cfg: Config) {
    ContiguousMask(cfg.subnetMask) && Compressible(cfg.dnsSearch)
  }

  /** Every option the store can add fits its length byte. */
  predicate WellFormedConfig(cfg: Config) {
    && UsableConfig(cfg)
    && IsAscii(cfg.domainName) && !EndsWithNul(cfg.domainName) && |cfg.domainName| <= 255
    && |cfg.dnsServers| <= 63
    && |Compress(cfg.dnsSearch).bytes| <= 255
  }

  /** The upper end of the scope is exclusive. */
  predicate InScope(cfg: Config, ip: u32) {
    cfg.scopeStart <= ip < cfg.scopeEnd
  }

  function PoolSize(cfg: Config): nat {
    if cfg.scopeStart < cfg.scopeEnd then cfg.scopeEnd - cfg.scopeStart else 0
  }

  type Database = map<u32, Lease>

  // ---- Options the store adds ----

  function ParamOption(cfg: Config, code: byte): Options {
    match code
    case 3 => if cfg.gateway != 0 then [DhcpOption(ROUTER, Addrs([cfg.gateway]))] else []
    case 6 => if cfg.dnsServers != [] then [DhcpOption(DOMAINSERVER, Addrs(cfg.dnsServers))] else []
    case 15 => if cfg.domainName != [] then [DhcpOption(DOMAINNAME, Text(cfg.domainName))] else []
    case 119 => if cfg.dnsSearch != [] then [DhcpOption(DOMAINSEARCH, Blob(Compress(cfg.dnsSearch).bytes))] else []
    case _ => []
  }

  function ParamOptions(cfg: Config, codes: seq<byte>): Options {
    if codes == [] then [] else ParamOptions(cfg, codes[..|codes| - 1]) + ParamOption(cfg, codes[|codes| - 1])
  }

  method ProcessParams(cfg: Config, codes: seq<byte>) returns (options: Options)
    requires DOMAINSEARCH in codes ==> Compressible(cfg.dnsSearch)
    ensures options == ParamOptions(cfg, codes)
  {
    hide Compress, Compressible;
    options := [];
    for i := 0 to |codes|
      invariant options == ParamOptions(cfg, codes[..i])
    {
      assert codes[..i + 1][..i] == codes[..i];
      if codes[i] == ROUTER && cfg.gateway != 0 {
        options := options + [DhcpOption(ROUTER, Addrs([cfg.gateway]))];
      } else if codes[i] == DOMAINSERVER && cfg.dnsServers != [] {
        options := options + [DhcpOption(DOMAINSERVER, Addrs(cfg.dnsServers))];
      } else if codes[i] == DOMAINNAME && cfg.domainName != [] {
        options := options + [DhcpOption(DOMAINNAME, Text(cfg.domainName))];
      } else if codes[i] == DOMAINSEARCH && cfg.dnsSearch != [] {
        var compressedNames := DomainNameListCompression(cfg.dnsSearch);
        options := options + [DhcpOption(DOMAINSEARCH, Blob(compressedNames))];
      }
    }
    assert codes[..|codes|] == codes;
  }

  function RequestedParams(packet: DhcpPacket): seq<byte> {
    match GetOption(packet.options, PARAMETERLIST)
    case Some(DhcpOption(_, Blob(codes))) => if codes != [] then codes else DEFAULT_PARAM_LIST
    case _ => DEFAULT_PARAM_LIST
  }

  function NewLease(cfg: Config, packet: DhcpPacket, ip: u32, now: int): Lease {
    var options := ParamOptions(cfg, RequestedParams(packet));
    Lease(packet.xid, Some(Ipv4Net(ip, cfg.subnetMask)), None, None,
          if options != [] then Some(options) else None, now, LEASE_SECS, 0)
  }

  // ---- What each handler does ----

  /** The first address from `i` on that has no lease. */
  function UnusedFrom(db: Database, i: int, end: u32): Option<u32>
    requires 0 <= i
    decreases end - i
  {
    if i >= end then None else if i in db then UnusedFrom(db, i + 1, end) else Some(i)
  }

  function Unused(cfg: Config, db: Database): Option<u32> {
    UnusedFrom(db, cfg.scopeStart, cfg.scopeEnd)
  }

  predicate AllCurrent(db: Database, now: int) {
    forall ip :: ip in db ==> IsCurrent(db[ip], now)
  }

  /** An address discover may choose: the first unused one, or else any whose lease has expired. */
  predicate MayChoose(cfg: Config, db: Database, now: int, ip: u32) {
    match Unused(cfg, db)
    case Some(first) => ip == first
    case None => ip in db && !IsCurrent(db[ip], now)
  }

  /** Making the lease does not panic: it builds its network, and compresses the search list if asked for it. */
  predicate CanServe(cfg: Config, packet: DhcpPacket) {
    ContiguousMask(cfg.subnetMask) && (DOMAINSEARCH in RequestedParams(packet) ==> Compressible(cfg.dnsSearch))
  }

  /** The discover does not panic: it finds no address, or can make the lease. */
  predicate DiscoverSafe(cfg: Config, db: Database, packet: DhcpPacket, now: int) {
    (Unused(cfg, db) == None && AllCurrent(db, now)) || CanServe(cfg, packet)
  }

  datatype Handler =
    | HandleDiscover | HandleSelecting | HandleInitReboot | HandleRenewing | HandleRebinding
    | HandleRelease | HandleDecline | HandleInform

  datatype Call = Call(handler: Handler, recvIp: u32, packet: DhcpPacket, now: int)

  datatype Outcome = Leased(lease: Lease) | Finished | Failed(error: BackendError)

  function RequestedAddress(packet: DhcpPacket): Option<u32> {
    match GetOption(packet.options, ADDRESSREQUEST)
    case Some(DhcpOption(_, Addr(ip))) => Some(ip)
    case _ => None
  }

  function SelectingOutcome(db: Database, packet: DhcpPacket): Outcome {
    match RequestedAddress(packet)
    case None => Failed(NoLeaseAvailable)
    case Some(ip) =>
      if ip in db && db[ip].xid == packet.xid then Leased(db[ip]) else Failed(NoLeaseAvailable)
  }

  function RenewalAddress(packet: DhcpPacket): u32 {
    match RequestedAddress(packet)
    case Some(ip) => ip
    case None => packet.ciaddr
  }

  /** Storing a lease keys it by its own address; one without an address is not stored. */
  function Stored(db: Database, lease: Lease): Database {
    match lease.yiaddr
    case Some(net) => db[net.addr := lease]
    case None => db
  }

  function Renewed(db: Database, packet: DhcpPacket, now: int): (Database, Outcome) {
    var ip := RenewalAddress(packet);
    if ip == 0 then (db, Failed(ProtocolError))
    else if ip in db then
      var lease := db[ip].(leaseTime := now);
      (Stored(db, lease), Leased(lease))
    else (db, Failed(NoLeaseAvailable))
  }

  /** The mask init-reboot checks against, or the error it ends in. */
  function RebootMask(lease: Lease): Option<u32> {
    match lease.options
    case None => None
    case Some(options) =>
      match GetOption(options, SUBNETMASK)
      case Some(DhcpOption(_, Addr(mask))) => if mask != 0 then Some(mask) else None
      case _ => None
  }

  function Origin(packet: DhcpPacket, recvIp: u32): u32 {
    if packet.giaddr != 0 then packet.giaddr else recvIp
  }

  predicate SameNetwork(mask: u32, a: u32, b: u32) {
    a / (0x1_0000_0000 - mask) == b / (0x1_0000_0000 - mask)
  }

  function Rebooted(db: Database, packet: DhcpPacket, recvIp: u32, now: int): (Database, Outcome) {
    var ip := match RequestedAddress(packet) case Some(a) => a case None => 0;
    if ip == 0 then (db, Failed(ProtocolError))
    else if ip !in db then (db, Failed(NoLeaseAvailable))
    else
      match RebootMask(db[ip])
      case None => (db, Failed(Generic))
      case Some(mask) =>
        var kept := if ContiguousMask(mask) && !SameNetwork(mask, ip, Origin(packet, recvIp)) then db - {ip} else db;
        var lease := db[ip].(leaseTime := now);
        (Stored(kept, lease), Leased(lease))
  }

  function WithoutLease(db: Database, lease: Lease): Database {
    match lease.yiaddr
    case Some(net) => db - {net.addr}
    case None => db
  }

  /**
   What a call that does not panic does to the store. Discover and decline leave
   a choice to the map's order.
   */
  predicate Step(cfg: Config, db: Database, call: Call, after: Database, out: Outcome) {
    match call.handler
    case HandleDiscover =>
      if out.Leased? then
        && CanServe(cfg, call.packet) && out.lease.yiaddr.Some?
        && var ip := out.lease.yiaddr.value.addr;
        && MayChoose(cfg, db, call.now, ip)
        && out.lease == NewLease(cfg, call.packet, ip, call.now)
        && after == db[ip := out.lease]
      else
        out == Failed(NoLeaseAvailable) && Unused(cfg, db) == None && AllCurrent(db, call.now) && after == db
    case HandleSelecting => after == db && out == SelectingOutcome(db, call.packet)
    case HandleInitReboot => (after, out) == Rebooted(db, call.packet, call.recvIp, call.now)
    case HandleRenewing => (after, out) == Renewed(db, call.packet, call.now)
    case HandleRebinding => (after, out) == Renewed(db, call.packet, call.now)
    case HandleRelease => after == db - {call.packet.yiaddr} && out == Finished
    case HandleDecline =>
      && out == Finished
      && (if exists ip :: ip in db && db[ip].xid == call.packet.xid
          then exists ip :: ip in db && db[ip].xid == call.packet.xid && after == WithoutLease(db, db[ip])
          else after == db)
    case HandleInform => after == db && out == Failed(Generic)
  }

  class Memory {
    const cfg: Config
    var database: Database

    constructor (cfg: Config)
      ensures this.cfg == cfg && database == map[]
    {
      this.cfg := cfg;
      database := map[];
    }

    method GetUnusedIpAddr() returns (ip: Option<u32>)
      ensures ip == Unused(cfg, database)
    {
      var i: int := cfg.scopeStart;
      while i < cfg.scopeEnd
        invariant cfg.scopeStart <= i
        invariant UnusedFrom(database, i, cfg.scopeEnd) == Unused(cfg, database)
      {
        if i !in database {
          return Some(i);
        }
        i := i + 1;
      }
      return None;
    }

    /** The iteration order of the map is not determined. */
    method GetExpiredLeaseIpAddr(now: int) returns (ip: Option<u32>)
      ensures ip.Some? ==> ip.value in database && !IsCurrent(database[ip.value], now)
      ensures ip.None? ==> AllCurrent(database, now)
    {
      var left := database.Keys;
      while left != {}
        invariant left <= database.Keys
        invariant forall k :: k in database && k !in left ==> IsCurrent(database[k], now)
        decreases |left|
      {
        var k :| k in left;
        if !IsCurrent(database[k], now) {
          return Some(k);
        }
        left := left - {k};
      }
      return None;
    }

    method GetLeaseForXid(xid: u32) returns (lease: Option<Lease>)
      ensures lease.Some? ==> exists ip :: ip in database && database[ip].xid == xid && lease.value == database[ip]
      ensures lease.None? ==> forall ip :: ip in database ==> database[ip].xid != xid
    {
      var left := database.Keys;
      while left != {}
        invariant left <= database.Keys
        invariant forall k :: k in database && k !in left ==> database[k].xid != xid
        decreases |left|
      {
        var k :| k in left;
        if database[k].xid == xid {
          return Some(database[k]);
        }
        left := left - {k};
      }
      return None;
    }

    method GetLeaseForIp(ip: u32) returns (lease: Option<Lease>)
      ensures lease == if ip in database then Some(database[ip]) else None
    {
      if ip in database {
        return Some(database[ip]);
      }
      return None;
    }

    method StoreLease(lease: Lease)
      modifies this
      ensures database == Stored(old(database), lease)
    {
      if lease.yiaddr.Some? {
        database := database[lease.yiaddr.value.addr := lease];
      }
    }

    method RemoveLease(ip: u32)
      modifies this
      ensures database == old(database) - {ip}
    {
      database := database - {ip};
    }

    method Discover(recvIp: u32, packet: DhcpPacket, now: int) returns (out: Outcome)
      requires DiscoverSafe(cfg, database, packet, now)
      modifies this
      ensures Step(cfg, old(database), Call(HandleDiscover, recvIp, packet, now), database, out)
    {
      hide ParamOptions, GetOption, Unused, ContiguousMask, Compressible;
      var ip := GetUnusedIpAddr();
      if ip.None? {
        ip := GetExpiredLeaseIpAddr(now);
      }
      if ip.None? {
        return Failed(NoLeaseAvailable);
      }
      var lease := Lease(packet.xid, Some(Ipv4Net(ip.value, cfg.subnetMask)), None, None, None, now, LEASE_SECS, 0);
      var requested := DEFAULT_PARAM_LIST;
      match GetOption(packet.options, PARAMETERLIST) {
        case Some(DhcpOption(_, Blob(o))) =>
          if o != [] {
            requested := o;
          }
        case _ =>
      }
      var options := ProcessParams(cfg, requested);
      if options != [] {
        lease := lease.(options := Some(options));
      }
      StoreLease(lease);
      return Leased(lease);
    }

    method Selecting(recvIp: u32, packet: DhcpPacket, now: int) returns (out: Outcome)
      ensures Step(cfg, database, Call(HandleSelecting, recvIp, packet, now), database, out)
    {
      var requested := RequestedAddress(packet);
      if requested.None? {
        return Failed(NoLeaseAvailable);
      }
      var lease := GetLeaseForIp(requested.value);
      if lease.Some? {
        if lease.value.xid != packet.xid {
          return Failed(NoLeaseAvailable);
        }
        return Leased(lease.value);
      }
      return Failed(NoLeaseAvailable);
    }

    method InitReboot(recvIp: u32, packet: DhcpPacket, now: int) returns (out: Outcome)
      modifies this
      ensures Step(cfg, old(database), Call(HandleInitReboot, recvIp, packet, now), database, out)
    {
      hide GetOption, ContiguousMask, SameNetwork;
      var requestedIp: u32 := 0;
      var requested := RequestedAddress(packet);
      if requested.Some? {
        requestedIp := requested.value;
      }
      if requestedIp == 0 {
        return Failed(ProtocolError);
      }
      var found := GetLeaseForIp(requestedIp);
      if found.None? {
        return Failed(NoLeaseAvailable);
      }
      var lease := found.value;
      var subnetMask: u32 := 0;
      if lease.options.Some? {
        match GetOption(lease.options.value, SUBNETMASK) {
          case Some(opt) =>
            if opt.value.Addr? {
              subnetMask := opt.value.addr;
            }
          case None => return Failed(Generic);
        }
      }
      if subnetMask == 0 {
        return Failed(Generic);
      }
      var originIp := if packet.giaddr != 0 then packet.giaddr else recvIp;
      if ContiguousMask(subnetMask) && !SameNetwork(subnetMask, requestedIp, originIp) {
        RemoveLease(requestedIp);
      }
      lease := lease.(leaseTime := now);
      StoreLease(lease);
      return Leased(lease);
    }

    method Renewing(recvIp: u32, packet: DhcpPacket, now: int) returns (out: Outcome)
      modifies this
      ensures Step(cfg, old(database), Call(HandleRenewing, recvIp, packet, now), database, out)
    {
      var requested := RequestedAddress(packet);
      var requestedIp := if requested.Some? then requested.value else packet.ciaddr;
      if requestedIp == 0 {
        return Failed(ProtocolError);
      }
      var found := GetLeaseForIp(requestedIp);
      if found.Some? {
        var lease := found.value.(leaseTime := now);
        StoreLease(lease);
        return Leased(lease);
      }
      return Failed(NoLeaseAvailable);
    }

    method Rebinding(recvIp: u32, packet: DhcpPacket, now: int) returns (out: Outcome)
      modifies this
      ensures Step(cfg, old(database), Call(HandleRebinding, recvIp, packet, now), database, out)
    {
      out := Renewing(recvIp, packet, now);
    }

    method Release(recvIp: u32, packet: DhcpPacket, now: int) returns (out: Outcome)
      modifies this
      ensures Step(cfg, old(database), Call(HandleRelease, recvIp, packet, now), database, out)
    {
      RemoveLease(packet.yiaddr);
      return Finished;
    }

    method Decline(recvIp: u32, packet: DhcpPacket, now: int) returns (out: Outcome)
      modifies this
      ensures Step(cfg, old(database), Call(HandleDecline, recvIp, packet, now), database, out)
    {
      var lease := GetLeaseForXid(packet.xid);
      if lease.Some? && lease.value.yiaddr.Some? {
        RemoveLease(lease.value.yiaddr.value.addr);
      }
      return Finished;
    }

    method Inform(recvIp: u32, packet: DhcpPacket, now: int) returns (out: Outcome)
      ensures Step(cfg, database, Call(HandleInform, recvIp, packet, now), database, out)
    {
      return Failed(Generic);
    }
  }
}
