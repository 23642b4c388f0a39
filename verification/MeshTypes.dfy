/**
 The packed message the radio carries and the constants of the protocol.
 */
module MeshTypes {
  import opened Basics

  const TYPE_ADAPTER_DATA: byte := 0
  const TYPE_MASTER_BEACON: byte := 1
  const TYPE_ENROLLMENT: byte := 2
  const TYPE_SERIAL_CMD_BROADCAST: byte := 3
  const TYPE_JOIN_ACK: byte := 4

  const PROTO_VERSION: byte := 2
  const MAX_HOPS: byte := 10
  const MAX_PEERS: nat := 10
  const STALE_MASTER_THRESHOLD_MS: nat := 9000
  const STALE_PEER_THRESHOLD_MS: nat := 8000
  const MASTER_BEACON_INTERVAL_MS: nat := 3000

  type Bytes32 = s: seq<byte> | |s| == 32 witness Fill(32, 0)
  type Bytes64 = s: seq<byte> | |s| == 64 witness Fill(64, 0)

  /** struct mesh_message. */
  datatype MeshMsg = MeshMsg(
    protoVersion: byte, messageType: byte, dataType: int32, origin: Mac, target: Mac, lastHop: Mac,
    data: Bytes64, hopCount: byte, epochNum: uint32, seqNum: uint16, key: Bytes32)

  /** At least one byte is not zero. */
  predicate NonZero(s: seq<byte>) {
    exists i :: 0 <= i < |s| && s[i] != 0
  }
}
