/**
 The lease store under concurrent handlers. The lock is taken once per database
 call, so a handler is a sequence of steps and other handlers' steps may come
 between them: discover's search tests one address per lock, and its store is a
 separate acquisition.
 */
module Interleaving {
  import opened Wrappers
  import opened Bytes
  import opened Packet
  import opened Leases
  import opened Store
  import opened StoreRuns

  /** Where a handler stands: what it does the next time it runs. */
  datatype Task =
    | Scan(packet: DhcpPacket, next: u32)
    | SeekExpired(packet: DhcpPacket)
    | Build(packet: DhcpPacket, ip: u32)
    | SelectGet(packet: DhcpPacket)
    | RebootGet(packet: DhcpPacket, recvIp: u32)
    | RebootRemove(ip: u32, lease: Lease)
    | RenewGet(packet: DhcpPacket)
    | Touch(lease: Lease)
    | Put(lease: Lease)
    | ReleaseRemove(ip: u32)
    | DeclineGet(xid: u32)
    | DeclineRemove(ip: u32)
    | InformReply
    | Done(out: Outcome)

  function Start(cfg: Config, handler: Handler, packet: DhcpPacket, recvIp: u32): Task {
    match handler
    case HandleDiscover => Scan(packet, cfg.scopeStart)
    case HandleSelecting => SelectGet(packet)
    case HandleInitReboot => RebootGet(packet, recvIp)
    case HandleRenewing => RenewGet(packet)
    case HandleRebinding => RenewGet(packet)
    case HandleRelease => ReleaseRemove(packet.yiaddr)
    case HandleDecline => DeclineGet(packet.xid)
    case HandleInform => InformReply
  }

  function AfterRebootGet(db: Database, packet: DhcpPacket, recvIp: u32): Task {
    var ip := match RequestedAddress(packet) case Some(a) => a case None => 0;
    if ip == 0 then Done(Failed(ProtocolError))
    else if ip !in db then Done(Failed(NoLeaseAvailable))
    else
      match RebootMask(db[ip])
      case None => Done(Failed(Generic))
      case Some(mask) =>
        if ContiguousMask(mask) && !SameNetwork(mask, ip, Origin(packet, recvIp)) then RebootRemove(ip, db[ip])
        else Touch(db[ip])
  }

  function AfterRenewGet(db: Database, packet: DhcpPacket): Task {
    var ip := RenewalAddress(packet);
    if ip == 0 then Done(Failed(ProtocolError))
    else if ip in db then Touch(db[ip])
    else Done(Failed(NoLeaseAvailable))
  }

  /** One step of a handler: at most one lock acquisition and one clock reading. A handler that panics stops. */
  predicate TaskStep(cfg: Config, db: Database, now: int, t: Task, after: Database, u: Task) {
    match t
    case Scan(packet, next) =>
      after == db && u ==
        if next >= cfg.scopeEnd then SeekExpired(packet)
        else if next in db then Scan(packet, next + 1)
        else Build(packet, next)
    case SeekExpired(packet) =>
      after == db &&
      (if u.Build? then u.packet == packet && u.ip in db && !IsCurrent(db[u.ip], now)
       else u == Done(Failed(NoLeaseAvailable)) && AllCurrent(db, now))
    case Build(packet, ip) => CanServe(cfg, packet) && after == db && u == Put(NewLease(cfg, packet, ip, now))
    case SelectGet(packet) => after == db && u == Done(SelectingOutcome(db, packet))
    case RebootGet(packet, recvIp) => after == db && u == AfterRebootGet(db, packet, recvIp)
    case RebootRemove(ip, lease) => after == db - {ip} && u == Touch(lease)
    case RenewGet(packet) => after == db && u == AfterRenewGet(db, packet)
    case Touch(lease) => after == db && u == Put(lease.(leaseTime := now))
    case Put(lease) => after == Stored(db, lease) && u == Done(Leased(lease))
    case ReleaseRemove(ip) => after == db - {ip} && u == Done(Finished)
    case DeclineGet(xid) =>
      after == db &&
      (if u.DeclineRemove? then
         exists ip :: ip in db && db[ip].xid == xid && db[ip].yiaddr.Some? && u.ip == db[ip].yiaddr.value.addr
       else u == Done(Finished)
            && ((forall ip :: ip in db ==> db[ip].xid != xid)
                || exists ip :: ip in db && db[ip].xid == xid && db[ip].yiaddr == None))
    case DeclineRemove(ip) => after == db - {ip} && u == Done(Finished)
    case InformReply => after == db && u == Done(Failed(Generic))
    case Done(_) => false
  }

  /** A handler at work on a message. */
  datatype Job = Job(handler: Handler, packet: DhcpPacket, recvIp: u32, at: Task)

  /**
   `chosen` records every address a discover search has settled on, and `answered`
   every address a discover was answered with, each with its transaction id.
   */
  datatype State = State(db: Database, now: int, jobs: seq<Job>, chosen: set<(u32, u32)>, answered: set<(u32, u32)>)

  datatype Action = Spawn(handler: Handler, packet: DhcpPacket, recvIp: u32) | Tick | Act(i: nat)

  /** The search step of a discover that settles on an address. */
  predicate Chooses(t: Task, u: Task) {
    (t.Scan? || t.SeekExpired?) && u.Build?
  }

  /** A discover that has answered with a lease of an address. */
  predicate Answers(job: Job) {
    job.handler == HandleDiscover && job.at.Done? && job.at.out.Leased? && job.at.out.lease.yiaddr.Some?
  }

  function Answer(job: Job): (u32, u32)
    requires Answers(job)
  {
    (job.at.out.lease.yiaddr.value.addr, job.at.out.lease.xid)
  }

  /** Handler `i` has moved on to `u`, leaving the store as `db`. */
  function Acted(s: State, i: nat, db: Database, u: Task): State
    requires i < |s.jobs|
  {
    var job := s.jobs[i].(at := u);
    State(db, s.now, s.jobs[i := job],
          if Chooses(s.jobs[i].at, u) then s.chosen + {(u.ip, u.packet.xid)} else s.chosen,
          if Answers(job) then s.answered + {Answer(job)} else s.answered)
  }

  predicate Next(cfg: Config, s: State, a: Action, s': State) {
    match a
    case Spawn(handler, packet, recvIp) =>
      s' == s.(jobs := s.jobs + [Job(handler, packet, recvIp, Start(cfg, handler, packet, recvIp))])
    case Tick => s.now <= s'.now && s' == s.(now := s'.now)
    case Act(i) =>
      && i < |s.jobs| == |s'.jobs|
      && TaskStep(cfg, s.db, s.now, s.jobs[i].at, s'.db, s'.jobs[i].at)
      && s' == Acted(s, i, s'.db, s'.jobs[i].at)
  }

  predicate Initial(s: State) {
    s.db == map[] && s.jobs == [] && s.chosen == {} && s.answered == {}
  }

  datatype Trace = Trace(states: seq<State>, actions: seq<Action>)

  predicate ValidTrace(cfg: Config, tr: Trace) {
    && |tr.states| == |tr.actions| + 1
    && Initial(tr.states[0])
    && forall k :: 0 <= k < |tr.actions| ==> Next(cfg, tr.states[k], tr.actions[k], tr.states[k + 1])
  }

  // ---- What every interleaving keeps ----

  /** A lease carries its own address in the scope, answered to its transaction by some discover. */
  predicate Rooted(cfg: Config, s: State, ip: u32, lease: Lease) {
    StoreLease(cfg, ip, lease) && (ip, lease.xid) in s.answered && lease.leaseTime <= s.now
  }

  predicate RootedLease(cfg: Config, s: State, lease: Lease) {
    lease.yiaddr.Some? && Rooted(cfg, s, lease.yiaddr.value.addr, lease)
  }

  /** The lease a discover is about to store: its address was chosen for its transaction. */
  predicate NewLeaseOk(cfg: Config, s: State, packet: DhcpPacket, lease: Lease) {
    && lease.yiaddr.Some? && lease.xid == packet.xid && lease.leaseTime <= s.now
    && var ip := lease.yiaddr.value.addr;
    StoreLease(cfg, ip, lease) && (ip, lease.xid) in s.chosen
  }

  predicate JobOk(cfg: Config, s: State, job: Job) {
    match job.at
    case Scan(packet, next) => job.handler == HandleDiscover && packet == job.packet && cfg.scopeStart <= next
    case SeekExpired(packet) => job.handler == HandleDiscover && packet == job.packet
    case Build(packet, ip) =>
      job.handler == HandleDiscover && packet == job.packet && InScope(cfg, ip) && (ip, packet.xid) in s.chosen
    case SelectGet(packet) => job.handler == HandleSelecting && packet == job.packet
    case RenewGet(packet) => job.handler in {HandleRenewing, HandleRebinding} && packet == job.packet
    case RebootGet(packet, _) => job.handler == HandleInitReboot && packet == job.packet
    case RebootRemove(_, _) => false
    case Touch(lease) => job.handler in {HandleRenewing, HandleRebinding} && RootedLease(cfg, s, lease)
    case Put(lease) =>
      if job.handler == HandleDiscover then NewLeaseOk(cfg, s, job.packet, lease)
      else job.handler in {HandleRenewing, HandleRebinding} && RootedLease(cfg, s, lease)
    case ReleaseRemove(ip) => job.handler == HandleRelease && ip == job.packet.yiaddr
    case DeclineGet(xid) => job.handler == HandleDecline && xid == job.packet.xid
    case DeclineRemove(_) => job.handler == HandleDecline
    case InformReply => job.handler == HandleInform
    case Done(out) =>
      out.Leased? ==>
        && RootedLease(cfg, s, out.lease)
        && job.handler in {HandleDiscover, HandleSelecting, HandleRenewing, HandleRebinding}
        && (job.handler in {HandleDiscover, HandleSelecting} ==> out.lease.xid == job.packet.xid)
  }

  predicate Safe(cfg: Config, s: State) {
    && (forall ip :: ip in s.db ==> Rooted(cfg, s, ip, s.db[ip]))
    && (forall i :: 0 <= i < |s.jobs| ==> JobOk(cfg, s, s.jobs[i]))
    && s.answered <= s.chosen
  }

  lemma RebootGetFails(cfg: Config, s: State, packet: DhcpPacket, recvIp: u32)
    requires Safe(cfg, s)
    ensures var u := AfterRebootGet(s.db, packet, recvIp); u.Done? && u.out.Failed?
  {
    hide RequestedAddress, JobOk;
    var ip := match RequestedAddress(packet) case Some(a) => a case None => 0;
    if ip in s.db {
      assert Rooted(cfg, s, ip, s.db[ip]);
    }
  }

  lemma ActedDiscover(cfg: Config, s: State, i: nat, s': State)
    requires Safe(cfg, s) && i < |s.jobs| == |s'.jobs|
    requires TaskStep(cfg, s.db, s.now, s.jobs[i].at, s'.db, s'.jobs[i].at)
    requires s' == Acted(s, i, s'.db, s'.jobs[i].at)
    requires s.jobs[i].handler == HandleDiscover
    ensures JobOk(cfg, s', s'.jobs[i]) && s'.answered <= s'.chosen
    ensures forall ip :: ip in s'.db ==> Rooted(cfg, s', ip, s'.db[ip])
  {
    hide StoreLease, NewLease, AfterRebootGet, AfterRenewGet, SelectingOutcome, CanServe;
    var u := s'.jobs[i].at;
    assert JobOk(cfg, s, s.jobs[i]);
    match s.jobs[i].at {
      case Build(packet, ip) =>
        NewLeaseIsStoreLease(cfg, packet, ip, s.now);
        NewLeaseTime(cfg, packet, ip, s.now);
        StoreLeaseAddress(cfg, ip, NewLease(cfg, packet, ip, s.now));
      case SeekExpired(_) =>
        if u.Build? {
          StoreLeaseAddress(cfg, u.ip, s.db[u.ip]);
        }
      case _ =>
    }
  }

  lemma ActedOther(cfg: Config, s: State, i: nat, s': State)
    requires Safe(cfg, s) && i < |s.jobs| == |s'.jobs|
    requires TaskStep(cfg, s.db, s.now, s.jobs[i].at, s'.db, s'.jobs[i].at)
    requires s' == Acted(s, i, s'.db, s'.jobs[i].at)
    requires s.jobs[i].handler != HandleDiscover
    ensures JobOk(cfg, s', s'.jobs[i]) && s'.answered <= s'.chosen
    ensures forall ip :: ip in s'.db ==> Rooted(cfg, s', ip, s'.db[ip])
  {
    hide StoreLease, NewLease, AfterRebootGet, RequestedAddress, RenewalAddress, CanServe, NewLeaseOk;
    var u := s'.jobs[i].at;
    assert JobOk(cfg, s, s.jobs[i]);
    match s.jobs[i].at {
      case SelectGet(_) =>
        if u.out.Leased? {
          var ip :| ip in s.db && u.out.lease == s.db[ip];
          StoreLeaseAddress(cfg, ip, s.db[ip]);
        }
      case RenewGet(packet) =>
        if u.Touch? {
          StoreLeaseAddress(cfg, RenewalAddress(packet), u.lease);
        }
      case RebootGet(packet, recvIp) => RebootGetFails(cfg, s, packet, recvIp);
      case Touch(lease) => TouchedStoreLease(cfg, lease.yiaddr.value.addr, lease, s.now);
      case _ =>
    }
  }

  lemma ActedSafe(cfg: Config, s: State, i: nat, s': State)
    requires Safe(cfg, s) && i < |s.jobs| == |s'.jobs|
    requires TaskStep(cfg, s.db, s.now, s.jobs[i].at, s'.db, s'.jobs[i].at)
    requires s' == Acted(s, i, s'.db, s'.jobs[i].at)
    ensures JobOk(cfg, s', s'.jobs[i]) && s'.answered <= s'.chosen
    ensures forall ip :: ip in s'.db ==> Rooted(cfg, s', ip, s'.db[ip])
  {
    hide Safe, TaskStep, Acted, JobOk, Rooted;
    if s.jobs[i].handler == HandleDiscover {
      ActedDiscover(cfg, s, i, s');
    } else {
      ActedOther(cfg, s, i, s');
    }
  }

  lemma StoreLeaseAddress(cfg: Config, ip: u32, lease: Lease)
    requires StoreLease(cfg, ip, lease)
    ensures lease.yiaddr.Some? && lease.yiaddr.value.addr == ip && InScope(cfg, ip)
  {
  }

  lemma TouchedStoreLease(cfg: Config, ip: u32, lease: Lease, now: int)
    requires StoreLease(cfg, ip, lease)
    ensures StoreLease(cfg, ip, lease.(leaseTime := now))
  {
    hide StoreOptions;
  }

  lemma NextSafe(cfg: Config, s: State, a: Action, s': State)
    requires Safe(cfg, s) && Next(cfg, s, a, s')
    ensures Safe(cfg, s')
  {
    hide StoreLease, TaskStep;
    match a {
      case Act(i) =>
        ActedSafe(cfg, s, i, s');
        forall j | 0 <= j < |s'.jobs|
          ensures JobOk(cfg, s', s'.jobs[j])
        {
          if j != i {
            JobStaysOk(cfg, s, s', s.jobs[j]);
          }
        }
      case _ =>
    }
  }

  lemma JobStaysOk(cfg: Config, s: State, s': State, job: Job)
    requires JobOk(cfg, s, job) && s.chosen <= s'.chosen && s.answered <= s'.answered && s.now <= s'.now
    ensures JobOk(cfg, s', job)
  {
    hide StoreLease;
  }

  /**
   Safety of every interleaving: each stored lease, and each lease a handler
   holds or has answered with, is keyed by its own address, in the scope, and
   carries the transaction id of a discover that was answered with that address
   before, or in a discover's own hands, chose it before.
   */
  lemma {:induction false} TraceSafe(cfg: Config, tr: Trace, k: nat)
    requires ValidTrace(cfg, tr) && k <= |tr.actions|
    ensures Safe(cfg, tr.states[k])
  {
    hide Next, JobOk, Rooted;
    if k == 0 {
    } else {
      TraceSafe(cfg, tr, k - 1);
      NextSafe(cfg, tr.states[k - 1], tr.actions[k - 1], tr.states[k]);
    }
  }

  /** Step `j` of the trace is the search step of a discover of transaction `xid` settling on `ip`. */
  predicate ChoiceStep(tr: Trace, j: nat, ip: u32, xid: u32)
    requires |tr.states| == |tr.actions| + 1 && j < |tr.actions|
  {
    && tr.actions[j].Act?
    && var i := tr.actions[j].i;
    && i < |tr.states[j].jobs| && i < |tr.states[j + 1].jobs|
    && Chooses(tr.states[j].jobs[i].at, tr.states[j + 1].jobs[i].at)
    && tr.states[j + 1].jobs[i].at.ip == ip && tr.states[j].jobs[i].packet.xid == xid
  }

  /** At step `j` of the trace handler `i` answers a discover of transaction `xid` with a lease of `ip`. */
  predicate AnswerStep(tr: Trace, j: nat, i: nat, ip: u32, xid: u32)
    requires |tr.states| == |tr.actions| + 1 && j < |tr.actions|
  {
    && tr.actions[j] == Act(i) && i < |tr.states[j].jobs| && i < |tr.states[j + 1].jobs|
    && tr.states[j].jobs[i].at.Put? && Answers(tr.states[j + 1].jobs[i])
    && Answer(tr.states[j + 1].jobs[i]) == (ip, xid) && tr.states[j + 1].jobs[i].packet.xid == xid
  }

  /** Every recorded answer was given by a step before. */
  lemma {:induction false} AnsweredByStep(cfg: Config, tr: Trace, k: nat, ip: u32, xid: u32) returns (j: nat, i: nat)
    requires ValidTrace(cfg, tr) && k <= |tr.actions| && (ip, xid) in tr.states[k].answered
    ensures j < k && AnswerStep(tr, j, i, ip, xid)
  {
    hide NewLease, SelectingOutcome, AfterRebootGet, AfterRenewGet, CanServe, JobOk, Rooted;
    var s, s' := tr.states[k - 1], tr.states[k];
    assert Next(cfg, s, tr.actions[k - 1], s');
    if (ip, xid) in s.answered {
      j, i := AnsweredByStep(cfg, tr, k - 1, ip, xid);
    } else {
      j, i := k - 1, tr.actions[k - 1].i;
      TraceSafe(cfg, tr, k - 1);
      TraceSafe(cfg, tr, k);
      DiscoverAnswersOnce(cfg, s, s', i);
    }
  }

  lemma DiscoverAnswersOnce(cfg: Config, s: State, s': State, i: nat)
    requires Safe(cfg, s) && Safe(cfg, s') && i < |s.jobs| == |s'.jobs| && s'.jobs[i] == s.jobs[i].(at := s'.jobs[i].at)
    requires TaskStep(cfg, s.db, s.now, s.jobs[i].at, s'.db, s'.jobs[i].at) && Answers(s'.jobs[i])
    ensures s.jobs[i].at.Put? && s'.jobs[i].packet.xid == Answer(s'.jobs[i]).1
  {
    hide Rooted, NewLeaseOk, NewLease, CanServe;
    assert JobOk(cfg, s, s.jobs[i]) && JobOk(cfg, s', s'.jobs[i]);
  }

  /**
   In every interleaving a successful selecting request rests on an earlier
   discover of the same transaction that was answered with the address.
   */
  lemma SelectingRestsOnAnswer(cfg: Config, tr: Trace, k: nat, i: nat) returns (j: nat, d: nat)
    requires ValidTrace(cfg, tr) && k <= |tr.actions| && i < |tr.states[k].jobs|
    requires var job := tr.states[k].jobs[i]; job.handler == HandleSelecting && job.at.Done? && job.at.out.Leased?
    ensures var job := tr.states[k].jobs[i];
      && job.at.out.lease.yiaddr.Some? && job.at.out.lease.xid == job.packet.xid
      && j < k && AnswerStep(tr, j, d, job.at.out.lease.yiaddr.value.addr, job.packet.xid)
  {
    hide StoreLease, AnswerStep, Next;
    TraceSafe(cfg, tr, k);
    var job := tr.states[k].jobs[i];
    assert JobOk(cfg, tr.states[k], job);
    j, d := AnsweredByStep(cfg, tr, k, job.at.out.lease.yiaddr.value.addr, job.at.out.lease.xid);
  }

  // ---- Tenancy under interleaving ----

  /** The address a handler is about to store a lease for. */
  function InFlight(t: Task): Option<u32> {
    match t
    case Build(_, ip) => Some(ip)
    case Touch(lease) => if lease.yiaddr.Some? then Some(lease.yiaddr.value.addr) else None
    case Put(lease) => if lease.yiaddr.Some? then Some(lease.yiaddr.value.addr) else None
    case _ => None
  }

  /** The handler is about to store a lease of another transaction for the address. */
  predicate Foreign(cfg: Config, t: Task, ip: u32, xid: u32) {
    && InFlight(t) == Some(ip)
    && (if t.Build? then t.packet.xid != xid && CanServe(cfg, t.packet) else t.lease.xid != xid)
  }

  predicate NoForeign(cfg: Config, s: State, ip: u32, xid: u32) {
    forall i :: 0 <= i < |s.jobs| ==> !Foreign(cfg, s.jobs[i].at, ip, xid)
  }

  /** The store holds the address for the transaction, and no handler is about to store another's lease for it. */
  predicate Kept(cfg: Config, s: State, ip: u32, xid: u32) {
    ip in s.db && s.db[ip].xid == xid && NoForeign(cfg, s, ip, xid)
  }

  /** The handler's next step removes the lease of the address. */
  predicate Evicts(t: Task, ip: u32) {
    (t.ReleaseRemove? || t.DeclineRemove? || t.RebootRemove?) && t.ip == ip
  }

  predicate RemovalStep(s: State, a: Action, ip: u32) {
    a.Act? && a.i < |s.jobs| && Evicts(s.jobs[a.i].at, ip)
  }

  /** A step of a search settling on the address. */
  predicate ChoosesAt(s: State, a: Action, s': State, ip: u32) {
    a.Act? && a.i < |s.jobs| && a.i < |s'.jobs| && Chooses(s.jobs[a.i].at, s'.jobs[a.i].at) && s'.jobs[a.i].at.ip == ip
  }

  lemma ActedKept(cfg: Config, s: State, i: nat, s': State, ip: u32, xid: u32)
    requires Safe(cfg, s) && i < |s.jobs| == |s'.jobs|
    requires TaskStep(cfg, s.db, s.now, s.jobs[i].at, s'.db, s'.jobs[i].at)
    requires ip in s.db && s.db[ip].xid == xid && !Foreign(cfg, s.jobs[i].at, ip, xid) && !Evicts(s.jobs[i].at, ip)
    requires IsCurrent(s.db[ip], s.now)
    ensures ip in s'.db && s'.db[ip].xid == xid
    ensures !Foreign(cfg, s'.jobs[i].at, ip, xid) && !(Chooses(s.jobs[i].at, s'.jobs[i].at) && s'.jobs[i].at.ip == ip)
  {
    hide StoreOptions, NewLease, AfterRebootGet, RequestedAddress, RenewalAddress, CanServe;
    assert JobOk(cfg, s, s.jobs[i]);
    match s.jobs[i].at {
      case Build(packet, at) =>
        NewLeaseIsStoreLease(cfg, packet, at, s.now);
        NewLeaseTime(cfg, packet, at, s.now);
      case RebootGet(packet, recvIp) => RebootGetFails(cfg, s, packet, recvIp);
      case RenewGet(packet) =>
        if RenewalAddress(packet) in s.db {
          assert Rooted(cfg, s, RenewalAddress(packet), s.db[RenewalAddress(packet)]);
        }
      case _ =>
    }
  }

  lemma NextKept(cfg: Config, s: State, a: Action, s': State, ip: u32, xid: u32)
    requires Safe(cfg, s) && Next(cfg, s, a, s') && Kept(cfg, s, ip, xid)
    requires IsCurrent(s.db[ip], s.now) && !RemovalStep(s, a, ip)
    ensures Kept(cfg, s', ip, xid) && !ChoosesAt(s, a, s', ip)
  {
    hide TaskStep, Rooted, Foreign, IsCurrent;
    match a {
      case Act(i) => ActedKept(cfg, s, i, s', ip, xid);
      case Spawn(handler, packet, recvIp) => StartsIdle(cfg, handler, packet, recvIp, ip, xid);
      case _ =>
    }
  }

  lemma StartsIdle(cfg: Config, handler: Handler, packet: DhcpPacket, recvIp: u32, ip: u32, xid: u32)
    ensures !Foreign(cfg, Start(cfg, handler, packet, recvIp), ip, xid)
  {
  }

  // ---- Exactly when a tenant is safe ----

  /** What may follow a state. */
  predicate Continues(cfg: Config, s: State, tr: Trace) {
    && |tr.states| == |tr.actions| + 1 && tr.states[0] == s
    && forall k :: 0 <= k < |tr.actions| ==> Next(cfg, tr.states[k], tr.actions[k], tr.states[k + 1])
  }

  /** The lease of the address, as it then stands, is current at every step, and no step removes it. */
  predicate Undisturbed(tr: Trace, ip: u32) {
    forall k :: 0 <= k < |tr.actions| && k < |tr.states| ==>
      && (ip in tr.states[k].db ==> IsCurrent(tr.states[k].db[ip], tr.states[k].now))
      && !RemovalStep(tr.states[k], tr.actions[k], ip)
  }

  /** At the end of the trace the address is still the transaction's. */
  predicate EndsWith(tr: Trace, ip: u32, xid: u32) {
    |tr.states| > 0 && var s := tr.states[|tr.states| - 1]; ip in s.db && s.db[ip].xid == xid
  }

  lemma {:induction false} KeptAlong(cfg: Config, s: State, tr: Trace, k: nat, ip: u32, xid: u32)
    requires Safe(cfg, s) && Kept(cfg, s, ip, xid) && Continues(cfg, s, tr) && Undisturbed(tr, ip) && k < |tr.states|
    ensures Safe(cfg, tr.states[k]) && Kept(cfg, tr.states[k], ip, xid)
  {
    hide Next, Safe, NoForeign, RemovalStep, IsCurrent;
    if k == 0 {
    } else {
      KeptAlong(cfg, s, tr, k - 1, ip, xid);
      NextSafe(cfg, tr.states[k - 1], tr.actions[k - 1], tr.states[k]);
      NextKept(cfg, tr.states[k - 1], tr.actions[k - 1], tr.states[k], ip, xid);
    }
  }

  /** A pending lease of another transaction can be stored in at most two steps, with the clock standing still. */
  lemma TakesOver(cfg: Config, s: State, i: nat, ip: u32, xid: u32) returns (tr: Trace)
    requires Safe(cfg, s) && i < |s.jobs| && Foreign(cfg, s.jobs[i].at, ip, xid)
    requires ip in s.db && IsCurrent(s.db[ip], s.now)
    ensures Continues(cfg, s, tr) && Undisturbed(tr, ip) && |tr.actions| <= 2 && !EndsWith(tr, ip, xid)
    ensures forall k :: 0 <= k < |tr.states| ==> tr.states[k].now == s.now
  {
    hide Safe, Acted, IsCurrent, CanServe, NewLease;
    if s.jobs[i].at.Put? {
      var after := StoresForeign(cfg, s, i, ip, xid);
      tr := Trace([s, after], [Act(i)]);
    } else {
      var u := ForeignPut(cfg, s, i, ip, xid);
      var next := ActNext(cfg, s, i, s.db, u);
      ActedJob(s, i, s.db, u);
      var after := StoresForeign(cfg, next, i, ip, xid);
      tr := Trace([s, next, after], [Act(i), Act(i)]);
    }
  }

  lemma ActedJob(s: State, i: nat, db: Database, u: Task)
    requires i < |s.jobs|
    ensures var s' := Acted(s, i, db, u); |s'.jobs| == |s.jobs| && s'.jobs[i].at == u && s'.db == db && s'.now == s.now
  {
  }

  lemma StoresForeign(cfg: Config, s: State, i: nat, ip: u32, xid: u32) returns (s': State)
    requires i < |s.jobs| && s.jobs[i].at.Put? && Foreign(cfg, s.jobs[i].at, ip, xid)
    ensures Next(cfg, s, Act(i), s') && ip in s'.db && s'.db[ip].xid != xid && s'.now == s.now
  {
    hide Acted;
    var lease := s.jobs[i].at.lease;
    s' := ActNext(cfg, s, i, Stored(s.db, lease), Done(Leased(lease)));
    ActedJob(s, i, Stored(s.db, lease), Done(Leased(lease)));
  }

  /** What a foreign handler that has not yet made its lease makes next. */
  lemma ForeignPut(cfg: Config, s: State, i: nat, ip: u32, xid: u32) returns (u: Task)
    requires i < |s.jobs| && Foreign(cfg, s.jobs[i].at, ip, xid) && !s.jobs[i].at.Put?
    ensures u.Put? && Foreign(cfg, u, ip, xid) && TaskStep(cfg, s.db, s.now, s.jobs[i].at, s.db, u)
  {
    hide ParamOptions, RequestedParams;
    match s.jobs[i].at {
      case Build(packet, at) => u := Put(NewLease(cfg, packet, at, s.now));
      case Touch(lease) => u := Put(lease.(leaseTime := s.now));
    }
  }

  /**
   Tenancy under interleaving, exactly: a current lease is safe from the other
   transactions, in every continuation in which it stays current and is not
   removed, if and only if no handler is about to store a lease of another
   transaction for its address. Its own renewals in flight do no harm.
   */
  lemma TakeoverExact(cfg: Config, s: State, ip: u32)
    requires Safe(cfg, s) && ip in s.db && IsCurrent(s.db[ip], s.now)
    ensures var xid := s.db[ip].xid;
      NoForeign(cfg, s, ip, xid)
      <==> forall tr: Trace :: Continues(cfg, s, tr) && Undisturbed(tr, ip) ==> EndsWith(tr, ip, xid)
  {
    hide Safe, Undisturbed, Foreign, IsCurrent, Next;
    var xid := s.db[ip].xid;
    if NoForeign(cfg, s, ip, xid) {
      forall tr: Trace | Continues(cfg, s, tr) && Undisturbed(tr, ip)
        ensures EndsWith(tr, ip, xid)
      {
        KeptAlong(cfg, s, tr, |tr.actions|, ip, xid);
      }
    } else {
      var i :| 0 <= i < |s.jobs| && Foreign(cfg, s.jobs[i].at, ip, xid);
      var tr := TakesOver(cfg, s, i, ip, xid);
    }
  }

  // ---- Two discovers with one address overlap ----

  /** A search only ever settles on an address without a current lease. */
  lemma ChoiceOfFree(cfg: Config, tr: Trace, k: nat, ip: u32, xid: u32)
    requires ValidTrace(cfg, tr) && k < |tr.actions| && ChoiceStep(tr, k, ip, xid)
    ensures ip in tr.states[k].db ==> !IsCurrent(tr.states[k].db[ip], tr.states[k].now)
  {
    hide NewLease, SelectingOutcome, AfterRebootGet, AfterRenewGet, CanServe;
    assert Next(cfg, tr.states[k], tr.actions[k], tr.states[k + 1]);
  }

  lemma NextKeepsStored(cfg: Config, s: State, a: Action, s': State, ip: u32)
    requires Next(cfg, s, a, s') && ip in s.db && !RemovalStep(s, a, ip)
    ensures ip in s'.db
  {
    hide NewLease, SelectingOutcome, AfterRebootGet, AfterRenewGet, CanServe;
  }

  /** Steps `i` to `j` neither remove the lease of the address nor find it, as it then stands, expired. */
  predicate StaysLeased(tr: Trace, i: nat, j: nat, ip: u32)
    requires |tr.states| == |tr.actions| + 1 && j <= |tr.actions|
  {
    forall k :: i <= k < j ==>
      && (ip in tr.states[k].db ==> IsCurrent(tr.states[k].db[ip], tr.states[k].now))
      && !RemovalStep(tr.states[k], tr.actions[k], ip)
  }

  lemma {:induction false} StoredAlong(cfg: Config, tr: Trace, i: nat, j: nat, ip: u32)
    requires ValidTrace(cfg, tr) && i <= j <= |tr.actions| && ip in tr.states[i].db && StaysLeased(tr, i, j, ip)
    ensures ip in tr.states[j].db
    decreases j - i
  {
    hide Next, RemovalStep, IsCurrent;
    if i == j {
    } else {
      StoredAlong(cfg, tr, i, j - 1, ip);
      NextKeepsStored(cfg, tr.states[j - 1], tr.actions[j - 1], tr.states[j], ip);
    }
  }

  /** The discover is past its search and works on the address. */
  predicate PastSearch(job: Job, ip: u32) {
    job.handler == HandleDiscover && (job.at.Build? || job.at.Put?) && InFlight(job.at) == Some(ip)
  }

  /** One step back, a discover past its search was so before, or has just chosen. */
  lemma PastSearchStep(cfg: Config, s: State, a: Action, s': State, d: nat, ip: u32)
    requires Safe(cfg, s) && Next(cfg, s, a, s') && d < |s'.jobs| && PastSearch(s'.jobs[d], ip)
    ensures d < |s.jobs| && s'.jobs[d].packet == s.jobs[d].packet
    ensures PastSearch(s.jobs[d], ip)
         || (a == Act(d) && Chooses(s.jobs[d].at, s'.jobs[d].at) && s'.jobs[d].at.ip == ip)
  {
    hide NewLeaseOk, Rooted, SelectingOutcome, AfterRebootGet, RenewalAddress, CanServe, ParamOptions, RequestedParams;
    if d < |s.jobs| {
      assert JobOk(cfg, s, s.jobs[d]);
    }
  }

  lemma {:induction false} SearchBefore(cfg: Config, tr: Trace, k: nat, d: nat, ip: u32) returns (c: nat)
    requires ValidTrace(cfg, tr) && k <= |tr.actions| && d < |tr.states[k].jobs| && PastSearch(tr.states[k].jobs[d], ip)
    ensures c < k && tr.actions[c] == Act(d) && ChoiceStep(tr, c, ip, tr.states[k].jobs[d].packet.xid)
  {
    hide Next, PastSearch, Chooses, Safe;
    NoJobsAtStart(cfg, tr);
    TraceSafe(cfg, tr, k - 1);
    PastSearchStep(cfg, tr.states[k - 1], tr.actions[k - 1], tr.states[k], d, ip);
    if PastSearch(tr.states[k - 1].jobs[d], ip) {
      c := SearchBefore(cfg, tr, k - 1, d, ip);
    } else {
      c := k - 1;
    }
  }

  lemma NoJobsAtStart(cfg: Config, tr: Trace)
    requires ValidTrace(cfg, tr)
    ensures tr.states[0].jobs == []
  {
  }

  lemma AnswererPastSearch(cfg: Config, tr: Trace, k: nat, d: nat, ip: u32, xid: u32)
    requires ValidTrace(cfg, tr) && k < |tr.actions| && AnswerStep(tr, k, d, ip, xid)
    ensures PastSearch(tr.states[k].jobs[d], ip) && tr.states[k].jobs[d].packet.xid == xid && ip in tr.states[k + 1].db
  {
    hide NewLease, SelectingOutcome, AfterRebootGet, AfterRenewGet, CanServe;
    assert Next(cfg, tr.states[k], tr.actions[k], tr.states[k + 1]);
  }

  /**
   Two discovers that are answered with one address, while the lease the first one
   stored is not removed and does not expire, overlap: the second one's search had
   settled on the address before the first one stored its lease.
   */
  lemma DiscoversOverlap(cfg: Config, tr: Trace, a: nat, i: nat, x: u32, b: nat, j: nat, y: u32, ip: u32)
    returns (c: nat)
    requires ValidTrace(cfg, tr) && a < b < |tr.actions|
    requires AnswerStep(tr, a, i, ip, x) && AnswerStep(tr, b, j, ip, y)
    requires StaysLeased(tr, a + 1, b, ip)
    ensures c < a && tr.actions[c] == Act(j) && ChoiceStep(tr, c, ip, y)
  {
    hide Next, PastSearch, IsCurrent, RemovalStep;
    AnswererPastSearch(cfg, tr, a, i, ip, x);
    AnswererPastSearch(cfg, tr, b, j, ip, y);
    c := SearchBefore(cfg, tr, b, j, ip);
    ChoiceOfFree(cfg, tr, c, ip, y);
    if c > a {
      StoredAlong(cfg, tr, a + 1, c, ip);
    }
  }

  // ---- Tenancy in terms of the messages ----

  /** The handler may go on to remove the lease the address has under the transaction. */
  predicate MayEvict(t: Task, ip: u32, xid: u32) {
    Evicts(t, ip) || (t.DeclineGet? && t.xid == xid)
  }

  predicate NoneMayEvict(s: State, ip: u32, xid: u32) {
    forall i :: 0 <= i < |s.jobs| ==> !MayEvict(s.jobs[i].at, ip, xid)
  }

  /** No message arrives that can give up the lease. */
  predicate NoGiveUp(tr: Trace, i: nat, j: nat, ip: u32, xid: u32)
    requires j <= |tr.actions|
  {
    forall k :: i <= k < j && tr.actions[k].Spawn? ==> !GivesUp(tr.actions[k].handler, tr.actions[k].packet, ip, xid)
  }

  lemma ActedRemovesNot(cfg: Config, s: State, i: nat, s': State, ip: u32, xid: u32)
    requires Safe(cfg, s) && i < |s.jobs| == |s'.jobs| && ip in s.db && s.db[ip].xid == xid
    requires TaskStep(cfg, s.db, s.now, s.jobs[i].at, s'.db, s'.jobs[i].at) && !MayEvict(s.jobs[i].at, ip, xid)
    ensures !MayEvict(s'.jobs[i].at, ip, xid)
  {
    hide StoreOptions, NewLease, AfterRebootGet, RequestedAddress, RenewalAddress, CanServe;
    assert JobOk(cfg, s, s.jobs[i]);
    match s.jobs[i].at {
      case RebootGet(packet, recvIp) => RebootGetFails(cfg, s, packet, recvIp);
      case DeclineGet(x) =>
        if s'.jobs[i].at.DeclineRemove? {
          var at :| at in s.db && s.db[at].xid == x && s.db[at].yiaddr.Some?
            && s'.jobs[i].at.ip == s.db[at].yiaddr.value.addr;
          assert Rooted(cfg, s, at, s.db[at]);
        }
      case _ =>
    }
  }

  lemma NextRemovesNot(cfg: Config, s: State, a: Action, s': State, ip: u32, xid: u32)
    requires Safe(cfg, s) && Next(cfg, s, a, s') && ip in s.db && s.db[ip].xid == xid && NoneMayEvict(s, ip, xid)
    requires a.Spawn? ==> !GivesUp(a.handler, a.packet, ip, xid)
    ensures NoneMayEvict(s', ip, xid) && !RemovalStep(s, a, ip)
  {
    hide TaskStep, Rooted;
    match a {
      case Act(i) => ActedRemovesNot(cfg, s, i, s', ip, xid);
      case _ =>
    }
  }

  /** No lease of the address, stored or about to be, expires before `floor`. */
  predicate LastsUntil(s: State, ip: u32, floor: int) {
    && floor <= s.now + LEASE_SECS && (ip in s.db ==> floor <= Expiry(s.db[ip]))
    && forall i :: 0 <= i < |s.jobs| && s.jobs[i].at.Put? && InFlight(s.jobs[i].at) == Some(ip) ==>
         floor <= Expiry(s.jobs[i].at.lease)
  }

  lemma NextLasts(cfg: Config, s: State, a: Action, s': State, ip: u32, floor: int)
    requires Safe(cfg, s) && Next(cfg, s, a, s') && LastsUntil(s, ip, floor)
    ensures LastsUntil(s', ip, floor)
  {
    hide StoreOptions, AfterRebootGet, RenewalAddress, SelectingOutcome, RequestedParams, ParamOptions, CanServe;
    match a {
      case Act(i) =>
        assert JobOk(cfg, s, s.jobs[i]);
        if s.jobs[i].at.RebootGet? {
          RebootGetFails(cfg, s, s.jobs[i].at.packet, s.jobs[i].at.recvIp);
        }
      case _ =>
    }
  }

  /**
   Tenancy under interleaving: from a state in which no handler is about to store
   another transaction's lease for the address or to remove the one it has, the
   lease keeps its address and transaction in every interleaving while it stays
   current and no release of the address or decline of the transaction arrives;
   no search chooses the address, and it lasts as long as the leases then stored
   or about to be stored for it.
   */
  lemma {:induction false} InterleavedTenancy(cfg: Config, tr: Trace, i: nat, j: nat, ip: u32, floor: int)
    requires ValidTrace(cfg, tr) && i <= j <= |tr.actions| && ip in tr.states[i].db
    requires var xid := tr.states[i].db[ip].xid;
      NoForeign(cfg, tr.states[i], ip, xid) && NoneMayEvict(tr.states[i], ip, xid) && NoGiveUp(tr, i, j, ip, xid)
    requires forall k :: i <= k < j && ip in tr.states[k].db ==> IsCurrent(tr.states[k].db[ip], tr.states[k].now)
    requires LastsUntil(tr.states[i], ip, floor)
    ensures var xid := tr.states[i].db[ip].xid;
      Kept(cfg, tr.states[j], ip, xid) && NoneMayEvict(tr.states[j], ip, xid)
    ensures LastsUntil(tr.states[j], ip, floor)
    ensures forall k, xid :: i <= k < j ==> !ChoiceStep(tr, k, ip, xid)
    decreases j - i
  {
    hide Safe, Next, NoForeign, NoneMayEvict, ChoiceStep, IsCurrent, LastsUntil, GivesUp;
    if i == j {
    } else {
      InterleavedTenancy(cfg, tr, i, j - 1, ip, floor);
      TenancyStep(cfg, tr, j - 1, ip, tr.states[i].db[ip].xid, floor);
    }
  }

  lemma TenancyStep(cfg: Config, tr: Trace, k: nat, ip: u32, xid: u32, floor: int)
    requires ValidTrace(cfg, tr) && k < |tr.actions| && Kept(cfg, tr.states[k], ip, xid)
    requires NoneMayEvict(tr.states[k], ip, xid) && NoGiveUp(tr, k, k + 1, ip, xid)
    requires IsCurrent(tr.states[k].db[ip], tr.states[k].now) && LastsUntil(tr.states[k], ip, floor)
    ensures Kept(cfg, tr.states[k + 1], ip, xid) && NoneMayEvict(tr.states[k + 1], ip, xid)
    ensures LastsUntil(tr.states[k + 1], ip, floor)
    ensures forall x :: !ChoiceStep(tr, k, ip, x)
  {
    hide Safe, Next, NoForeign, NoneMayEvict, IsCurrent, LastsUntil, GivesUp, RemovalStep, Chooses;
    TraceSafe(cfg, tr, k);
    var s, a, s' := tr.states[k], tr.actions[k], tr.states[k + 1];
    assert Next(cfg, s, a, s');
    NextRemovesNot(cfg, s, a, s', ip, xid);
    NextKept(cfg, s, a, s', ip, xid);
    NextLasts(cfg, s, a, s', ip, floor);
  }

  /** A step of handler `i`, written out. */
  lemma ActNext(cfg: Config, s: State, i: nat, db: Database, u: Task) returns (s': State)
    requires i < |s.jobs| && TaskStep(cfg, s.db, s.now, s.jobs[i].at, db, u)
    ensures Next(cfg, s, Act(i), s') && s' == Acted(s, i, db, u)
  {
    hide TaskStep;
    s' := Acted(s, i, db, u);
  }

  predicate Extends(cfg: Config, tr: Trace, s: State) {
    ValidTrace(cfg, tr) && tr.states[|tr.actions|] == s
  }

  lemma Extend(cfg: Config, tr: Trace, s: State, a: Action, s': State) returns (more: Trace)
    requires Extends(cfg, tr, s) && Next(cfg, s, a, s')
    ensures Extends(cfg, more, s') && more.actions == tr.actions + [a]
  {
    hide Next;
    more := Trace(tr.states + [s'], tr.actions + [a]);
  }

  /** A discover of the race at one of its steps. */
  function Racer(packet: DhcpPacket, at: Task): Job {
    Job(HandleDiscover, packet, 0, at)
  }

  /** Two searches that both run before either stores settle on the same address. */
  lemma RacingSearches(cfg: Config, p: DhcpPacket, q: DhcpPacket, now: int) returns (tr: Trace, s: State)
    requires cfg.scopeStart < cfg.scopeEnd
    ensures Extends(cfg, tr, s) && s.db == map[] && s.now == now
    ensures tr.actions == [Spawn(HandleDiscover, p, 0), Spawn(HandleDiscover, q, 0), Act(0), Act(1)]
    ensures s.jobs == [Racer(p, Build(p, cfg.scopeStart)), Racer(q, Build(q, cfg.scopeStart))]
  {
    hide NewLease, ValidTrace, Extends, CanServe;
    var ip := cfg.scopeStart;
    var s0 := State(map[], now, [], {}, {});
    EmptyTrace(cfg, s0);
    var s1 := s0.(jobs := [Racer(p, Scan(p, ip))]);
    tr := Extend(cfg, Trace([s0], []), s0, Spawn(HandleDiscover, p, 0), s1);
    var s2 := s0.(jobs := [Racer(p, Scan(p, ip)), Racer(q, Scan(q, ip))]);
    tr := Extend(cfg, tr, s1, Spawn(HandleDiscover, q, 0), s2);
    var s3 := ActNext(cfg, s2, 0, map[], Build(p, ip));
    tr := Extend(cfg, tr, s2, Act(0), s3);
    s := ActNext(cfg, s3, 1, map[], Build(q, ip));
    tr := Extend(cfg, tr, s3, Act(1), s);
  }

  lemma EmptyTrace(cfg: Config, s: State)
    requires Initial(s)
    ensures Extends(cfg, Trace([s], []), s)
  {
  }

  /**
   A race: with any non-empty scope, any two concurrent discovers can both be
   answered with the same address at the same time.
   */
  lemma RacingDiscovers(cfg: Config, p: DhcpPacket, q: DhcpPacket, now: int) returns (tr: Trace, s: State)
    requires cfg.scopeStart < cfg.scopeEnd && CanServe(cfg, p) && CanServe(cfg, q)
    ensures ValidTrace(cfg, tr) && tr.states[|tr.actions|] == s && s.now == now
    ensures forall k :: 0 <= k < |tr.actions| && tr.actions[k].Spawn? ==>
      tr.actions[k].handler == HandleDiscover && tr.actions[k].packet in {p, q}
    ensures var a, b := NewLease(cfg, p, cfg.scopeStart, now), NewLease(cfg, q, cfg.scopeStart, now);
      s.jobs == [Racer(p, Done(Leased(a))), Racer(q, Done(Leased(b)))] && s.db == map[cfg.scopeStart := b]
  {
    hide ValidTrace, RequestedParams, ParamOptions, CanServe;
    var ip := cfg.scopeStart;
    var a, b := NewLease(cfg, p, ip, now), NewLease(cfg, q, ip, now);
    var s4: State;
    tr, s4 := RacingSearches(cfg, p, q, now);
    hide Extends, NewLease;
    var s5 := ActNext(cfg, s4, 0, map[], Put(a));
    tr := Extend(cfg, tr, s4, Act(0), s5);
    var s6 := ActNext(cfg, s5, 1, map[], Put(b));
    tr := Extend(cfg, tr, s5, Act(1), s6);
    StoredAt(cfg, p, map[], ip, now);
    var s7 := ActNext(cfg, s6, 0, map[ip := a], Done(Leased(a)));
    tr := Extend(cfg, tr, s6, Act(0), s7);
    StoredAt(cfg, q, map[ip := a], ip, now);
    s := ActNext(cfg, s7, 1, map[ip := b], Done(Leased(b)));
    tr := Extend(cfg, tr, s7, Act(1), s);
    ExtendsIsValid(cfg, tr, s);
  }

  lemma StoredAt(cfg: Config, packet: DhcpPacket, db: Database, ip: u32, now: int)
    ensures Stored(db, NewLease(cfg, packet, ip, now)) == db[ip := NewLease(cfg, packet, ip, now)]
  {
  }

  lemma ExtendsIsValid(cfg: Config, tr: Trace, s: State)
    requires Extends(cfg, tr, s)
    ensures ValidTrace(cfg, tr) && tr.states[|tr.actions|] == s
  {
  }

  // ---- One handler alone is the sequential handler ----

  datatype Solo = Solo(db: Database, task: Task)

  predicate SoloPath(cfg: Config, now: int, path: seq<Solo>) {
    && path != []
    && forall i :: 0 <= i < |path| - 1 ==>
         TaskStep(cfg, path[i].db, now, path[i].task, path[i + 1].db, path[i + 1].task)
  }

  /** What holds of the store and the handler in the middle of an undisturbed call. */
  predicate Partial(cfg: Config, before: Database, call: Call, s: Solo) {
    var p := call.packet;
    match s.task
    case Scan(packet, next) =>
      && call.handler == HandleDiscover && s.db == before && packet == p
      && cfg.scopeStart <= next && UnusedFrom(before, next, cfg.scopeEnd) == Unused(cfg, before)
    case SeekExpired(packet) =>
      call.handler == HandleDiscover && s.db == before && packet == p && Unused(cfg, before) == None
    case Build(packet, ip) =>
      call.handler == HandleDiscover && s.db == before && packet == p && MayChoose(cfg, before, call.now, ip)
    case SelectGet(packet) => call.handler == HandleSelecting && s.db == before && packet == p
    case RebootGet(packet, recvIp) =>
      call.handler == HandleInitReboot && s.db == before && packet == p && recvIp == call.recvIp
    case RenewGet(packet) => call.handler in {HandleRenewing, HandleRebinding} && s.db == before && packet == p
    case RebootRemove(ip, lease) =>
      call.handler == HandleInitReboot && s.db == before
      && Rebooted(before, p, call.recvIp, call.now)
         == (Stored(before - {ip}, lease.(leaseTime := call.now)), Leased(lease.(leaseTime := call.now)))
    case Touch(lease) =>
      var l := lease.(leaseTime := call.now);
      if call.handler == HandleInitReboot
      then Rebooted(before, p, call.recvIp, call.now) == (Stored(s.db, l), Leased(l))
      else call.handler in {HandleRenewing, HandleRebinding}
           && Renewed(before, p, call.now) == (Stored(s.db, l), Leased(l))
    case Put(lease) => Step(cfg, before, call, Stored(s.db, lease), Leased(lease))
    case ReleaseRemove(ip) => call.handler == HandleRelease && s.db == before && ip == p.yiaddr
    case DeclineGet(xid) => call.handler == HandleDecline && s.db == before && xid == p.xid
    case DeclineRemove(ip) => Step(cfg, before, call, s.db - {ip}, Finished)
    case InformReply => call.handler == HandleInform && s.db == before
    case Done(out) => Step(cfg, before, call, s.db, out)
  }

  lemma PartialSearch(cfg: Config, before: Database, call: Call, s: Solo, s': Solo)
    requires s.task.Scan? || s.task.SeekExpired? || s.task.Build?
    requires Partial(cfg, before, call, s) && TaskStep(cfg, s.db, call.now, s.task, s'.db, s'.task)
    ensures Partial(cfg, before, call, s')
  {
    hide Rebooted, Renewed, RequestedParams, ParamOptions, CanServe, SelectingOutcome;
  }

  lemma PartialGet(cfg: Config, before: Database, call: Call, s: Solo, s': Solo)
    requires s.task.RebootGet? || s.task.RenewGet? || s.task.SelectGet?
    requires Partial(cfg, before, call, s) && TaskStep(cfg, s.db, call.now, s.task, s'.db, s'.task)
    ensures Partial(cfg, before, call, s')
  {
    hide RequestedAddress, RenewalAddress, RebootMask, ContiguousMask, SameNetwork, NewLease, MayChoose,
      SelectingOutcome;
  }

  lemma PartialDecline(cfg: Config, before: Database, call: Call, s: Solo, s': Solo)
    requires s.task.DeclineGet?
    requires Partial(cfg, before, call, s) && TaskStep(cfg, s.db, call.now, s.task, s'.db, s'.task)
    ensures Partial(cfg, before, call, s')
  {
    hide Rebooted, Renewed, NewLease, MayChoose, SelectingOutcome;
    if s'.task.DeclineRemove? {
      var ip :| ip in s.db && s.db[ip].xid == s.task.xid && s.db[ip].yiaddr.Some?
        && s'.task.ip == s.db[ip].yiaddr.value.addr;
      assert s.db - {s'.task.ip} == WithoutLease(before, before[ip]);
    } else if ip :| ip in s.db && s.db[ip].xid == s.task.xid && s.db[ip].yiaddr == None {
      assert s.db == WithoutLease(before, before[ip]);
    }
  }

  lemma PartialStep(cfg: Config, before: Database, call: Call, s: Solo, s': Solo)
    requires Partial(cfg, before, call, s) && TaskStep(cfg, s.db, call.now, s.task, s'.db, s'.task)
    ensures Partial(cfg, before, call, s')
  {
    if s.task.Scan? || s.task.SeekExpired? || s.task.Build? {
      PartialSearch(cfg, before, call, s, s');
    } else if s.task.RebootGet? || s.task.RenewGet? || s.task.SelectGet? {
      PartialGet(cfg, before, call, s, s');
    } else if s.task.DeclineGet? {
      PartialDecline(cfg, before, call, s, s');
    } else {
      hide Rebooted, Renewed, NewLease, MayChoose, SelectingOutcome, AfterRebootGet, AfterRenewGet;
    }
  }

  /**
   Refinement: a handler that runs undisturbed through its lock steps does to the
   store, and answers, what the sequential handler may do and answer.
   */
  lemma {:induction false} SoloIsStep(cfg: Config, call: Call, path: seq<Solo>)
    requires SoloPath(cfg, call.now, path)
    requires path[0].task == Start(cfg, call.handler, call.packet, call.recvIp)
    ensures Partial(cfg, path[0].db, call, path[|path| - 1])
    ensures var last := path[|path| - 1];
      last.task.Done? ==> Step(cfg, path[0].db, call, last.db, last.task.out)
  {
    hide TaskStep, Step;
    if |path| == 1 {
      StartPartial(cfg, call, path[0].db);
    } else {
      var n := |path| - 1;
      SoloIsStep(cfg, call, path[..n]);
      PartialStep(cfg, path[0].db, call, path[n - 1], path[n]);
    }
  }

  lemma StartPartial(cfg: Config, call: Call, db: Database)
    ensures Partial(cfg, db, call, Solo(db, Start(cfg, call.handler, call.packet, call.recvIp)))
  {
    hide Step;
  }

  lemma {:induction false} ScanPath(cfg: Config, db: Database, now: int, packet: DhcpPacket, next: u32)
    returns (path: seq<Solo>)
    ensures SoloPath(cfg, now, path) && path[0] == Solo(db, Scan(packet, next))
    ensures var found := UnusedFrom(db, next, cfg.scopeEnd);
      path[|path| - 1] == Solo(db, if found.Some? then Build(packet, found.value) else SeekExpired(packet))
    decreases cfg.scopeEnd - next
  {
    var here := Solo(db, Scan(packet, next));
    if next < cfg.scopeEnd && next in db {
      var rest := ScanPath(cfg, db, now, packet, next + 1);
      path := [here] + rest;
      PathCons(cfg, now, here, rest);
    } else if next < cfg.scopeEnd {
      path := [here, Solo(db, Build(packet, next))];
    } else {
      path := [here, Solo(db, SeekExpired(packet))];
    }
  }

  lemma PathCons(cfg: Config, now: int, first: Solo, rest: seq<Solo>)
    requires SoloPath(cfg, now, rest) && TaskStep(cfg, first.db, now, first.task, rest[0].db, rest[0].task)
    ensures SoloPath(cfg, now, [first] + rest)
  {
    hide TaskStep;
    var path := [first] + rest;
    forall i | 0 <= i < |path| - 1
      ensures TaskStep(cfg, path[i].db, now, path[i].task, path[i + 1].db, path[i + 1].task)
    {
      if i > 0 {
        assert path[i] == rest[i - 1] && path[i + 1] == rest[i];
      }
    }
  }

  lemma PathSnoc(cfg: Config, now: int, path: seq<Solo>, last: Solo)
    requires SoloPath(cfg, now, path)
    requires var end := path[|path| - 1]; TaskStep(cfg, end.db, now, end.task, last.db, last.task)
    ensures SoloPath(cfg, now, path + [last])
  {
    hide TaskStep;
  }

  lemma DiscoverIsSolo(cfg: Config, db: Database, call: Call, after: Database, out: Outcome) returns (path: seq<Solo>)
    requires call.handler == HandleDiscover && Step(cfg, db, call, after, out)
    ensures SoloPath(cfg, call.now, path) && path[0] == Solo(db, Scan(call.packet, cfg.scopeStart))
    ensures path[|path| - 1] == Solo(after, Done(out))
  {
    hide SoloPath, NewLease, UnusedFrom;
    path := ScanPath(cfg, db, call.now, call.packet, cfg.scopeStart);
    if out.Leased? {
      var ip := out.lease.yiaddr.value.addr;
      if Unused(cfg, db) == None {
        PathSnoc(cfg, call.now, path, Solo(db, Build(call.packet, ip)));
        path := path + [Solo(db, Build(call.packet, ip))];
      }
      PathSnoc(cfg, call.now, path, Solo(db, Put(out.lease)));
      path := path + [Solo(db, Put(out.lease))];
    }
    PathSnoc(cfg, call.now, path, Solo(after, Done(out)));
    path := path + [Solo(after, Done(out))];
  }

  /** Each sequential call is one undisturbed passage through the lock steps. */
  lemma StepIsSolo(cfg: Config, db: Database, call: Call, after: Database, out: Outcome) returns (path: seq<Solo>)
    requires Step(cfg, db, call, after, out)
    ensures SoloPath(cfg, call.now, path) && path[0] == Solo(db, Start(cfg, call.handler, call.packet, call.recvIp))
    ensures path[|path| - 1] == Solo(after, Done(out))
  {
    hide Rebooted, Renewed, NewLease, MayChoose, SoloPath, SelectingOutcome;
    var start := Solo(db, Start(cfg, call.handler, call.packet, call.recvIp));
    match call.handler {
      case HandleDiscover => path := DiscoverIsSolo(cfg, db, call, after, out);
      case HandleInitReboot => path := RebootIsSolo(cfg, db, call, after, out);
      case HandleDecline => path := DeclineIsSolo(cfg, db, call, after, out);
      case HandleRenewing => path := RenewIsSolo(cfg, db, call, after, out);
      case HandleRebinding => path := RenewIsSolo(cfg, db, call, after, out);
      case _ =>
        path := [start, Solo(after, Done(out))];
        PathOfTwo(cfg, call.now, start, Solo(after, Done(out)));
    }
  }

  lemma PathOfTwo(cfg: Config, now: int, s: Solo, s': Solo)
    requires TaskStep(cfg, s.db, now, s.task, s'.db, s'.task)
    ensures SoloPath(cfg, now, [s, s'])
  {
    hide TaskStep;
  }

  lemma RebootIsSolo(cfg: Config, db: Database, call: Call, after: Database, out: Outcome) returns (path: seq<Solo>)
    requires call.handler == HandleInitReboot && Step(cfg, db, call, after, out)
    ensures SoloPath(cfg, call.now, path) && path[0] == Solo(db, RebootGet(call.packet, call.recvIp))
    ensures path[|path| - 1] == Solo(after, Done(out))
  {
    hide RequestedAddress, RebootMask, ContiguousMask, SameNetwork;
    var start, done := Solo(db, RebootGet(call.packet, call.recvIp)), Solo(after, Done(out));
    var u := AfterRebootGet(db, call.packet, call.recvIp);
    if u.RebootRemove? {
      var put := Put(u.lease.(leaseTime := call.now));
      path := [start, Solo(db, u), Solo(db - {u.ip}, Touch(u.lease)), Solo(db - {u.ip}, put), done];
    } else if u.Touch? {
      path := [start, Solo(db, u), Solo(db, Put(u.lease.(leaseTime := call.now))), done];
    } else {
      path := [start, done];
    }
  }

  lemma DeclineIsSolo(cfg: Config, db: Database, call: Call, after: Database, out: Outcome) returns (path: seq<Solo>)
    requires call.handler == HandleDecline && Step(cfg, db, call, after, out)
    ensures SoloPath(cfg, call.now, path) && path[0] == Solo(db, DeclineGet(call.packet.xid))
    ensures path[|path| - 1] == Solo(after, Done(out))
  {
    hide Rebooted, Renewed, NewLease, MayChoose, SelectingOutcome;
    var start, done := Solo(db, DeclineGet(call.packet.xid)), Solo(after, Done(out));
    path := [start, done];
    if ip :| ip in db && db[ip].xid == call.packet.xid && after == WithoutLease(db, db[ip]) {
      if db[ip].yiaddr.Some? {
        path := [start, Solo(db, DeclineRemove(db[ip].yiaddr.value.addr)), done];
      }
    }
  }

  lemma RenewIsSolo(cfg: Config, db: Database, call: Call, after: Database, out: Outcome) returns (path: seq<Solo>)
    requires call.handler in {HandleRenewing, HandleRebinding} && Step(cfg, db, call, after, out)
    ensures SoloPath(cfg, call.now, path) && path[0] == Solo(db, RenewGet(call.packet))
    ensures path[|path| - 1] == Solo(after, Done(out))
  {
    hide RenewalAddress;
    var u := AfterRenewGet(db, call.packet);
    if u.Touch? {
      var put := Put(u.lease.(leaseTime := call.now));
      path := [Solo(db, RenewGet(call.packet)), Solo(db, u), Solo(db, put), Solo(after, Done(out))];
    } else {
      path := [Solo(db, RenewGet(call.packet)), Solo(after, Done(out))];
    }
  }
}
