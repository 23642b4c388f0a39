/**
 Machine integers and the few sequence helpers that every other module uses.
 C's unsigned types are subset types of int: an assignment that could wrap must say so with `%`.
 */
module Basics {
  datatype Option<+T> = None | Some(value: T)

  type byte = x: int | 0 <= x < 0x100
  type uint16 = x: int | 0 <= x < 0x1_0000
  type uint32 = x: int | 0 <= x < 0x1_0000_0000
  type uint64 = x: int | 0 <= x < 0x1_0000_0000_0000_0000
  type int32 = x: int | -0x8000_0000 <= x < 0x8000_0000
  type int64 = x: int | -0x8000_0000_0000_0000 <= x < 0x8000_0000_0000_0000

  const TWO_32 := 0x1_0000_0000
  const TWO_64 := 0x1_0000_0000_0000_0000

  /** A six-byte hardware address. */
  type Mac = m: seq<byte> | |m| == 6 witness [0, 0, 0, 0, 0, 0]

  const BROADCAST_MAC: Mac := [0xFF, 0xFF, 0xFF, 0xFF, 0xFF, 0xFF]
  const ZERO_MAC: Mac := [0, 0, 0, 0, 0, 0]

  /** `n` copies of the byte `b`, as memset leaves them. */
  function Fill(n: nat, b: byte): (s: seq<byte>)
    ensures |s| == n && forall i | 0 <= i < n :: s[i] == b
  {
    seq(n, _ => b)
  }

  /** Reads four bytes, lowest first. */
  function LittleEndian32(s: seq<byte>): uint32
    requires |s| == 4
  {
    s[0] as int + 0x100 * (s[1] as int) + 0x1_0000 * (s[2] as int) + 0x100_0000 * (s[3] as int)
  }
}
