/** Fixed-width unsigned integers and byte strings, with the arithmetic the Rust and C sources rely on. */
module Ints {
  type byte = x: int | 0 <= x < 0x100
  type u16 = x: int | 0 <= x < 0x1_0000
  type u32 = x: int | 0 <= x < 0x1_0000_0000
  type u64 = x: int | 0 <= x < 0x1_0000_0000_0000_0000
  type u128 = x: int | 0 <= x < 0x1_0000_0000_0000_0000_0000_0000_0000_0000
  type bytes = seq<byte>

  const U64_MAX: u64 := 0xFFFF_FFFF_FFFF_FFFF

  /** `u64::saturating_add`. */
  function SatAdd(a: u64, b: u64): u64 {
    if a + b > U64_MAX then U64_MAX else a + b
  }

  /** `u64::saturating_sub`. */
  function SatSub(a: u64, b: u64): u64 {
    if a < b then 0 else a - b
  }

  function Min(a: int, b: int): int {
    if a < b then a else b
  }

  function Max(a: int, b: int): int {
    if a < b then b else a
  }

  // Network order.

  function Be16(b: bytes, at: nat): u16
    requires at + 2 <= |b|
  {
    b[at] as int * 0x100 + b[at + 1] as int
  }

  function Be32(b: bytes, at: nat): u32
    requires at + 4 <= |b|
  {
    Be16(b, at) as int * 0x1_0000 + Be16(b, at + 2) as int
  }

  function ToBe16(v: u16): (b: bytes)
    ensures |b| == 2 && Be16(b, 0) == v
  {
    [v / 0x100, v % 0x100]
  }

  function ToBe32(v: u32): (b: bytes)
    ensures |b| == 4 && Be32(b, 0) == v
  {
    ToBe16(v / 0x1_0000) + ToBe16(v % 0x1_0000)
  }

  lemma Halves(hi: u16, lo: u16)
    ensures (hi * 0x1_0000 + lo) / 0x1_0000 == hi && (hi * 0x1_0000 + lo) % 0x1_0000 == lo
  {
  }

  lemma HalfBytes(hi: byte, lo: byte)
    ensures (hi * 0x100 + lo) / 0x100 == hi && (hi * 0x100 + lo) % 0x100 == lo
  {
  }

  lemma Respell16(b: bytes, at: nat)
    requires at + 2 <= |b|
    ensures ToBe16(Be16(b, at)) == b[at..at + 2]
  {
    HalfBytes(b[at], b[at + 1]);
  }

  lemma Respell32(b: bytes, at: nat)
    requires at + 4 <= |b|
    ensures ToBe32(Be32(b, at)) == b[at..at + 4]
  {
    hide Be16, ToBe16;
    Halves(Be16(b, at), Be16(b, at + 2));
    Respell16(b, at);
    Respell16(b, at + 2);
    assert b[at..at + 4] == b[at..at + 2] + b[at + 2..at + 4];
  }

  // Little-endian order.

  function Le16(b: bytes, at: nat): u16
    requires at + 2 <= |b|
  {
    b[at] as int + b[at + 1] as int * 0x100
  }

  function Le32(b: bytes, at: nat): u32
    requires at + 4 <= |b|
  {
    Le16(b, at) as int + Le16(b, at + 2) as int * 0x1_0000
  }

  function ToLe16(v: u16): (b: bytes)
    ensures |b| == 2 && Le16(b, 0) == v
  {
    [v % 0x100, v / 0x100]
  }

  function ToLe32(v: u32): (b: bytes)
    ensures |b| == 4 && Le32(b, 0) == v
  {
    ToLe16(v % 0x1_0000) + ToLe16(v / 0x1_0000)
  }

  lemma RespellLe16(b: bytes, at: nat)
    requires at + 2 <= |b|
    ensures ToLe16(Le16(b, at)) == b[at..at + 2]
  {
    HalfBytes(b[at + 1], b[at]);
  }

  lemma RespellLe32(b: bytes, at: nat)
    requires at + 4 <= |b|
    ensures ToLe32(Le32(b, at)) == b[at..at + 4]
  {
    hide Le16, ToLe16;
    Halves(Le16(b, at + 2), Le16(b, at));
    RespellLe16(b, at);
    RespellLe16(b, at + 2);
    assert b[at..at + 4] == b[at..at + 2] + b[at + 2..at + 4];
  }
}
