/** Leases and the errors a lease store answers with. Times are in whole clock units of one second. */
module Leases {
  import opened Wrappers
  import opened Bytes
  import opened OptionArea
  import opened Packet

  /** An address with the netmask of its network. */
  datatype Ipv4Net = Ipv4Net(addr: u32, netmask: u32)

  datatype Lease = Lease(
    xid: u32,
    yiaddr: Option<Ipv4Net>,
    siaddr: Option<u32>,
    file: Option<Bytes128>,
    options: Option<Options>,
    leaseTime: int,
    leaseDuration: int,
    serverIdentifier: u32)

  datatype BackendError = NoLeaseAvailable | LeaseMismatchClientIP | ProtocolError | Generic

  function Expiry(lease: Lease): int {
    lease.leaseTime + lease.leaseDuration
  }

  predicate IsCurrent(lease: Lease, now: int) {
    now < Expiry(lease)
  }
}
