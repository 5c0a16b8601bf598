/** Machine words of the contract and the server, and arithmetic modulo 2^64.

    AssemblyScript `u64` arithmetic wraps silently, so every sum, difference and product that the
    contract stores goes through `Wrap`. `Cong` is equality modulo 2^64. */
module Words {

  const TWO32: int := 0x1_0000_0000
  const TWO64: int := 0x1_0000_0000_0000_0000

  type byte = x: int | 0 <= x < 256
  type u32 = x: int | 0 <= x < TWO32
  type u64 = x: int | 0 <= x < TWO64

  /** `u64.MAX_VALUE`. */
  const MAX64: u64 := 0xFFFF_FFFF_FFFF_FFFF

  type Bytes = seq<byte>

  /** A string of the source, held as its UTF-8 bytes. */
  datatype Text = Text(utf8: Bytes)

  const EMPTY := Text([])

  function Wrap(x: int): u64 {
    x % TWO64
  }

  lemma WrapSmall(x: u64)
    ensures Wrap(x) == x
  {
  }

  lemma WrapPeriod(a: int, k: int)
    ensures Wrap(a + TWO64 * k) == Wrap(a)
  {
    var q, r := a / TWO64, a % TWO64;
    assert a + TWO64 * k == TWO64 * (q + k) + r;
  }

  /** Wrapping an operand first does not change a wrapped sum. */
  lemma WrapAdd(x: int, y: int)
    ensures Wrap(Wrap(x) + y) == Wrap(x + y)
  {
    var q := x / TWO64;
    assert x + y == Wrap(x) + y + TWO64 * q;
    WrapPeriod(Wrap(x) + y, q);
  }

  ghost predicate Cong(a: int, b: int) {
    Wrap(a - b) == 0
  }

  lemma CongRefl(a: int)
    ensures Cong(a, a)
  {
  }

  lemma WrapIsCong(x: int)
    ensures Cong(Wrap(x), x)
  {
    assert Wrap(x) - x == -TWO64 * (x / TWO64);
  }

  lemma CongAdd(a: int, b: int, c: int, d: int)
    requires Cong(a, b) && Cong(c, d)
    ensures Cong(a + c, b + d) && Cong(a - c, b - d)
  {
    var p, q := (a - b) / TWO64, (c - d) / TWO64;
    assert a - b == TWO64 * p && c - d == TWO64 * q;
    assert (a + c) - (b + d) == TWO64 * (p + q);
    assert (a - c) - (b - d) == TWO64 * (p - q);
  }

  lemma CongTrans(a: int, b: int, c: int)
    requires Cong(a, b) && Cong(b, c)
    ensures Cong(a, c) && Cong(b, a)
  {
    CongAdd(a, b, b, c);
    CongAdd(b, b, a, b);
  }

  lemma CongSym(a: int, b: int)
    requires Cong(a, b)
    ensures Cong(b, a)
  {
    CongTrans(a, b, b);
  }

  /** What a wrapped update does to a congruence: adding `d` on both sides keeps it. */
  lemma CongStep(x: int, total: int, sum: int, d: int)
    requires Cong(total, sum)
    ensures Cong(total - x + Wrap(x + d), sum + d)
  {
    WrapIsCong(x + d);
    CongAdd(total, sum, Wrap(x + d), x + d);
  }
}
