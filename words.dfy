/**
 * Fixed-width machine integers, the byte order of a 32-bit word in memory,
 * and bitwise AND, as used by both the Rust control plane and the C program.
 */
module Words {

  type U8 = x: int | 0 <= x < 0x100
  type U16 = x: int | 0 <= x < 0x1_0000
  type U32 = x: int | 0 <= x < 0x1_0000_0000
  type U64 = x: int | 0 <= x < 0x1_0000_0000_0000_0000

  /** Four bytes, lowest address first (a `[u8; 4]`). */
  type Bytes4 = s: seq<U8> | |s| == 4 witness [0, 0, 0, 0]

  /** The byte order of the host the control plane runs on. */
  datatype ByteOrder = LittleEndian | BigEndian

  function Pow256(n: nat): (p: nat)
    ensures p >= 1
  {
    if n == 0 then 1 else 0x100 * Pow256(n - 1)
  }

  /** The value of a byte string read least significant byte first. */
  function LeValue(s: seq<U8>): (v: nat)
    ensures v < Pow256(|s|)
  {
    if s == [] then 0 else s[0] + 0x100 * LeValue(s[1..])
  }

  /** The `n` bytes of `x`, least significant first. */
  function LeBytes(x: nat, n: nat): (s: seq<U8>)
    ensures |s| == n
  {
    if n == 0 then [] else [x % 0x100] + LeBytes(x / 0x100, n - 1)
  }

  function Reverse4(b: Bytes4): Bytes4 {
    [b[3], b[2], b[1], b[0]]
  }

  /** `u32::from_ne_bytes`: the word whose in-memory image on `host` is `b`. */
  function FromNeBytes(b: Bytes4, host: ByteOrder): U32 {
    assert Pow256(4) == 0x1_0000_0000;
    match host
    case LittleEndian => LeValue(b)
    case BigEndian => LeValue(Reverse4(b))
  }

  /** `u32::to_ne_bytes`: the in-memory image of `x` on `host`. */
  function ToNeBytes(x: U32, host: ByteOrder): Bytes4 {
    match host
    case LittleEndian => LeBytes(x, 4)
    case BigEndian => Reverse4(LeBytes(x, 4))
  }

  /** The value of four bytes, written out. */
  lemma LeValue4(b: Bytes4)
    ensures LeValue(b) == b[0] as int + 0x100 * (b[1] as int + 0x100 * (b[2] as int + 0x100 * b[3] as int))
  {
    assert b[3..][1..] == [];
    assert LeValue(b[3..]) == b[3] as int;
    assert b[2..][1..] == b[3..];
    assert LeValue(b[2..]) == b[2] as int + 0x100 * LeValue(b[3..]);
    assert b[1..][1..] == b[2..];
    assert LeValue(b[1..]) == b[1] as int + 0x100 * LeValue(b[2..]);
    assert LeValue(b) == b[0] as int + 0x100 * LeValue(b[1..]);
  }

  lemma DivModByte(lo: int, hi: int)
    requires 0 <= lo < 0x100 && 0 <= hi
    ensures (lo + 0x100 * hi) % 0x100 == lo && (lo + 0x100 * hi) / 0x100 == hi
  {
  }

  /** Splitting the value of a byte string into as many bytes gives the string back. */
  lemma {:induction false} LeBytesOfValue(s: seq<U8>)
    ensures LeBytes(LeValue(s), |s|) == s
  {
    if s != [] {
      DivModByte(s[0], LeValue(s[1..]));
      LeBytesOfValue(s[1..]);
    }
  }

  /** Reading back the `n` bytes of a value below 256^n gives the value. */
  lemma {:induction false} LeValueOfBytes(x: nat, n: nat)
    requires x < Pow256(n)
    ensures LeValue(LeBytes(x, n)) == x
  {
    if n > 0 {
      LeValueOfBytes(x / 0x100, n - 1);
      assert LeBytes(x, n)[1..] == LeBytes(x / 0x100, n - 1);
    }
  }

  /**
   * The word `u32::from_ne_bytes` builds lies in memory as exactly the bytes
   * it was built from, whatever the host's byte order.
   */
  lemma {:induction false} NeBytesRoundTrip(b: Bytes4, host: ByteOrder)
    ensures ToNeBytes(FromNeBytes(b, host), host) == b
  {
    match host
    case LittleEndian => LeBytesOfValue(b);
    case BigEndian => LeBytesOfValue(Reverse4(b));
  }

  /** And the other way: every word is built from its in-memory image. */
  lemma {:induction false} NeWordRoundTrip(x: U32, host: ByteOrder)
    ensures FromNeBytes(ToNeBytes(x, host), host) == x
  {
    assert Pow256(4) == 0x1_0000_0000;
    LeValueOfBytes(x, 4);
    match host
    case LittleEndian =>
    case BigEndian => assert Reverse4(Reverse4(LeBytes(x, 4))) == LeBytes(x, 4);
  }

  function Pow2(k: nat): (p: nat)
    ensures p >= 1
  {
    if k == 0 then 1 else 2 * Pow2(k - 1)
  }

  /** Bitwise AND of two unsigned integers, one bit at a time. */
  function BitAnd(x: nat, y: nat): (r: nat)
    ensures r <= x && r <= y
    decreases x
  {
    if x == 0 || y == 0 then 0
    else 2 * BitAnd(x / 2, y / 2) + (if x % 2 == 1 && y % 2 == 1 then 1 else 0)
  }

  /** Masking with the low `k` bits leaves a value below `2^k` unchanged. */
  lemma {:induction false} BitAndLowMask(x: nat, k: nat)
    requires x < Pow2(k)
    ensures BitAnd(x, Pow2(k) - 1) == x
  {
    if x != 0 {
      var m := Pow2(k - 1);
      assert (2 * m - 1) / 2 == m - 1 && (2 * m - 1) % 2 == 1;
      BitAndLowMask(x / 2, k - 1);
    }
  }
}
