/** The value memory show reads from: bytes at unbounded addresses, 64-bit words stored
    little-endian as on the x86-64 target, and the integer and boolean readings show_type
    applies to them (runtime.c:327-339). */
module Memory {
  type Byte = b: int | 0 <= b < 256

  /** The contents of memory at every address. */
  type Mem = nat -> Byte

  const TWO63: nat := 0x8000_0000_0000_0000
  const TWO64: nat := 0x1_0000_0000_0000_0000

  function Pow256(n: nat): (p: nat)
    ensures p >= 1
  {
    if n == 0 then 1 else 256 * Pow256(n - 1)
  }

  /** The n bytes from `addr` on. */
  function Bytes(m: Mem, addr: nat, n: nat): seq<Byte>
  {
    seq(n, i requires 0 <= i < n => m(addr + i))
  }

  /** The unsigned integer with these bytes, least significant first. */
  function LittleEndian(b: seq<Byte>): nat {
    if |b| == 0 then 0 else b[0] + 256 * LittleEndian(b[1..])
  }

  /** n bytes hold an unsigned integer below 256^n. */
  lemma {:induction false} LittleEndianBound(b: seq<Byte>)
    ensures LittleEndian(b) < Pow256(|b|)
  {
    if |b| > 0 {
      LittleEndianBound(b[1..]);
    }
  }

  /** A uint64_t (or the bits of a double, or a pointer) at `addr`. */
  function Word(m: Mem, addr: nat): (w: nat)
    ensures w < TWO64
  {
    LittleEndianBound(Bytes(m, addr, 8));
    assert Pow256(8) == TWO64;
    LittleEndian(Bytes(m, addr, 8))
  }

  /** The int64_t with the bits of `w`: two's complement. */
  function Signed(w: nat): (v: int)
    requires w < TWO64
    ensures -(TWO63 as int) <= v < TWO63
    ensures v % TWO64 == w
    ensures v < 0 <==> w >= TWO63
  {
    if w < TWO63 then w else w - TWO64
  }

  /** `*(bool*)data`: the byte at `addr`, true unless zero. */
  predicate BoolAt(m: Mem, addr: nat) {
    m(addr) != 0
  }

  /** The byte at `addr` is the low byte of the word there, and the next 7 bytes its rest. */
  lemma {:induction false} WordBytes(m: Mem, addr: nat)
    ensures Word(m, addr) % 256 == m(addr)
    ensures Word(m, addr) / 256 == LittleEndian(Bytes(m, addr + 1, 7))
  {
    var b := Bytes(m, addr, 8);
    assert b[1..] == Bytes(m, addr + 1, 7);
    assert Word(m, addr) == m(addr) + 256 * LittleEndian(b[1..]);
  }
}
