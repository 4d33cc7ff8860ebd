/** Bytes, fixed-width unsigned words and their little-endian encoding,
    as the x64 kernel lays them out in memory. */
module Wire {

  newtype byte = x: int | 0 <= x < 0x100
  type u16 = x: int | 0 <= x < 0x1_0000
  type u32 = x: int | 0 <= x < 0x1_0000_0000
  type u64 = x: int | 0 <= x < 0x1_0000_0000_0000_0000

  datatype Option<+T> = None | Some(value: T)

  /** 256^n: the number of values an n-byte word can hold. */
  function Pow256(n: nat): (r: nat)
    ensures r >= 1
  {
    if n == 0 then 1 else 0x100 * Pow256(n - 1)
  }

  /** The n-byte little-endian image of v (least significant byte first). */
  function LE(v: nat, n: nat): (bs: seq<byte>)
    requires v < Pow256(n)
    ensures |bs| == n
  {
    if n == 0 then [] else [(v % 0x100) as byte] + LE(v / 0x100, n - 1)
  }

  /** The unsigned value of a little-endian byte string. */
  function FromLE(bs: seq<byte>): (v: nat)
    ensures v < Pow256(|bs|)
  {
    if bs == [] then 0 else bs[0] as nat + 0x100 * FromLE(bs[1..])
  }

  /** Reading back a written word gives the word. */
  lemma {:induction false} FromLEOfLE(v: nat, n: nat)
    requires v < Pow256(n)
    ensures FromLE(LE(v, n)) == v
  {
    if n > 0 {
      assert v / 0x100 < Pow256(n - 1);
      FromLEOfLE(v / 0x100, n - 1);
      var bs := LE(v, n);
      assert bs[1..] == LE(v / 0x100, n - 1);
    }
  }

  /** Writing back a read word gives the bytes: the encoding is onto. */
  lemma {:induction false} LEOfFromLE(bs: seq<byte>)
    ensures LE(FromLE(bs), |bs|) == bs
  {
    if bs != [] {
      LEOfFromLE(bs[1..]);
      var v := FromLE(bs);
      assert v % 0x100 == bs[0] as nat;
      assert v / 0x100 == FromLE(bs[1..]);
    }
  }

  // Word widths in bytes.
  const Width16: nat := 2
  const Width32: nat := 4
  const Width64: nat := 8

  /** The words the structs declare, as their memory images. */
  function U16(v: u16): (bs: seq<byte>)
    ensures |bs| == 2 && FromLE(bs) == v
  {
    FromLEOfLE(v, Width16);
    LE(v, Width16)
  }

  function U32(v: u32): (bs: seq<byte>)
    ensures |bs| == 4 && FromLE(bs) == v
  {
    FromLEOfLE(v, Width32);
    LE(v, Width32)
  }

  function U64(v: u64): (bs: seq<byte>)
    ensures |bs| == 8 && FromLE(bs) == v
  {
    FromLEOfLE(v, Width64);
    LE(v, Width64)
  }
}
