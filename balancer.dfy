/**
 * What the three pickers share: the connection handles of the ready
 * snapshot, the addresses they were built for, and the result of a pick.
 */
module Balancer {
  import opened ConsulApi

  /** An established connection handle, opaque to the pickers. */
  datatype SubConn = SubConn(id: nat)

  /** The metadata an address may carry (Go stores an interface value here). */
  datatype Metadata =
    | NoMetadata
    | ServiceMetadata(service: AgentService)
    | NodeMetadata(node: Node)

  /** A resolved address: "host:port" and its metadata. */
  datatype Address = Address(addr: string, metadata: Metadata)

  /**
   * One entry of the ready snapshot. A snapshot is a sequence of these with
   * distinct addresses, in the (arbitrary) order Go iterates its map.
   */
  datatype ReadySubConn = ReadySubConn(address: Address, conn: SubConn)

  /**
   * The result of Pick: a SubConn, a nil SubConn with a nil error, or
   * ErrNoSubConnAvailable.
   */
  datatype PickResult = Picked(sc: SubConn) | PickedNil | ErrNoSubConnAvailable

  /** The connection handles of a snapshot, in snapshot order. */
  function Conns(readySCs: seq<ReadySubConn>): seq<SubConn>
  {
    seq(|readySCs|, i requires 0 <= i < |readySCs| => readySCs[i].conn)
  }
}
