/** The values that the convoy controls exchange. */
module ConvoyTypes {
  import opened Widths

  /** How old a time stamp is, by uint64_t subtraction. */
  function Age(now: nat, timestamp: nat): (a: nat) {
    (now - timestamp) % B64
  }

  datatype DeviceType = UnknownDevice | MasterDevice | MemberDevice | GatewayDevice

  /** A cluster device: its type, its own address, its manager's and its convoy's. */
  datatype Device = Device(kind: DeviceType, address: int, manager: int, convoy: int)

  datatype Role = Undefined | Manager | Member | Gateway

  /** An orchestration message: the role, convoy and clusters that a node shall take. */
  datatype Command = Command(role: Role, convoy: int, cluster: int, clusterGw: int)

  datatype Broadcast = Broadcast(
    convoy: int,
    cluster: int,
    fullConvoy: bool,
    fullCluster: bool,
    direction: int,
    rssi: real)
}
