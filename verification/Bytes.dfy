/** Bytes and machine words as the C sources see them. */
module Bytes {

  type byte = b: int | 0 <= b < 256

  const TWO32: int := 0x1_0000_0000
  const TWO64: int := 0x1_0000_0000_0000_0000

  type uint32 = w: int | 0 <= w < 0x1_0000_0000

  datatype Option<+T> = None | Some(value: T)

  /** Unsigned 32-bit subtraction, which wraps. */
  function Sub32(a: uint32, b: uint32): (r: uint32)
    ensures (b + r) % TWO32 == a
  {
    if a >= b then a - b else a - b + TWO32
  }

  /** Two and three bytes read as big-endian numbers. */
  function Be16(hi: byte, lo: byte): (n: nat)
    ensures n < 0x10000
  {
    hi as int * 256 + lo
  }

  function Be24(hi: byte, mid: byte, lo: byte): nat {
    hi as int * 65536 + mid as int * 256 + lo
  }

  function Be32(b0: byte, b1: byte, b2: byte, b3: byte): uint32 {
    b0 as int * 0x100_0000 + b1 as int * 0x1_0000 + b2 as int * 0x100 + b3
  }

  /** A 16-bit number as two bytes, most significant first. */
  function U16(n: nat): (b: seq<byte>)
    requires n < 0x10000
    ensures |b| == 2 && n == b[0] as int * 256 + b[1]
  {
    [n / 256, n % 256]
  }

  /** A 32-bit number as four bytes, most significant first. */
  function U32(n: uint32): (b: seq<byte>)
    ensures |b| == 4
    ensures n == b[0] as int * 0x100_0000 + b[1] as int * 0x1_0000 + b[2] as int * 0x100 + b[3]
  {
    [n / 256 / 256 / 256, n / 256 / 256 % 256, n / 256 % 256, n % 256]
  }

  function Min(a: int, b: int): int {
    if a <= b then a else b
  }

  lemma SliceSlice<T>(d: seq<T>, from: nat, to: nat, m: nat, n: nat)
    requires from + n <= to <= |d| && m <= n
    ensures d[from..to][m..n] == d[from + m..from + n]
  {
    var w := d[from..to];
    forall k | 0 <= k < n - m ensures w[m..n][k] == d[from + m..from + n][k] {
      assert w[m + k] == d[from + (m + k)];
    }
  }

  lemma DropDrop<T>(d: seq<T>, m: nat, n: nat)
    requires m + n <= |d|
    ensures d[m..][n..] == d[m + n..]
  {
  }

  lemma TakeMore<T>(d: seq<T>, m: nat, n: nat)
    requires m + n <= |d|
    ensures d[..m] + d[m..][..n] == d[..m + n]
  {
  }

  lemma MulAtLeast(d: int, m: nat)
    requires d >= 1
    ensures d * m >= m
  {
    assert (d - 1) * m >= 0;
  }

  /** Quotient and remainder are unique. */
  lemma DivMod(n: int, m: nat, q: int, r: int)
    requires 0 <= r < m && n == q * m + r
    ensures n / m == q && n % m == r
  {
    var q', r' := n / m, n % m;
    assert n == q' * m + r';
    assert (q - q') * m == r' - r;
    if q > q' {
      MulAtLeast(q - q', m);
    } else if q < q' {
      assert (q' - q) * m == r - r';
      MulAtLeast(q' - q, m);
    }
  }

  lemma SubsetSize<T>(a: set<T>, b: set<T>)
    requires a <= b
    ensures |a| <= |b|
  {
    if a != {} {
      var x :| x in a;
      SubsetSize(a - {x}, b - {x});
    }
  }
}
