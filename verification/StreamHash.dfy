/** voice/crypto_sha256.c and voice/crypto.c: SHA-256, SHA-1 and MD5 share one block-buffering scheme, and HMAC uses
    it. */
module StreamHash {
  import opened Bytes

  const BLOCK: nat := 64
  const LIMIT: nat := 0x2000_0000_0000_0000   // 2^61 bytes: the longest message whose bit length fits 64 bits

  type State = seq<uint32>

  /** An algorithm: its initial state, its compression function, and its byte order. */
  datatype Alg = Alg(init: State, compress: (State, seq<byte>) -> State, bigEndian: bool) {
    /** The compression function keeps the number of words, at most eight. */
    ghost predicate WellFormed() {
      && |init| <= 8
      && forall st: State, block: seq<byte> :: |st| == |init| && |block| == BLOCK ==> |compress(st, block)| == |init|
    }
  }

  // ---- the standard: section 5.1.1 of FIPS 180-4, sections 3.1 and 3.2 of RFC 1321 ----

  /** The compression function, block after block. */
  function Absorb(alg: Alg, st: State, data: seq<byte>): State
    requires |data| % BLOCK == 0
    decreases |data|
  {
    if data == [] then st else Absorb(alg, alg.compress(st, data[..BLOCK]), data[BLOCK..])
  }

  /** The smallest number of zero bytes that leaves room for exactly the length. */
  function ZeroCount(n: nat): (z: nat)
    ensures (n + 1 + z) % BLOCK == 56 && z < BLOCK
  {
    (55 - n) % BLOCK
  }

  lemma ZeroCountSmallest(n: nat, y: nat)
    requires (n + 1 + y) % BLOCK == 56
    ensures ZeroCount(n) <= y
  {
    if y < BLOCK {
      ZeroCountUnique(n, y);
    }
  }

  lemma ZeroCountUnique(n: nat, y: nat)
    requires (n + 1 + y) % BLOCK == 56 && y < BLOCK
    ensures ZeroCount(n) == y
  {
  }

  /** The two cases of the padding length in the final functions. */
  lemma PadLength(n: nat)
    ensures ZeroCount(n) + 1 == if n % BLOCK < 56 then 56 - n % BLOCK else 120 - n % BLOCK
  {
    var q, r := n / BLOCK, n % BLOCK;
    assert n == q * BLOCK + r;
    ZeroCountUnique(n, (if r < 56 then 56 - r else 120 - r) - 1);
  }

  function Zeros(n: nat): (z: seq<byte>)
    ensures |z| == n
  {
    seq(n, _ => 0)
  }

  function Power256(i: nat): (p: nat)
    ensures p > 0
  {
    if i == 0 then 1 else 256 * Power256(i - 1)
  }

  /** The i-th byte of a number, least significant first. */
  function ByteAt(n: nat, i: nat): byte {
    n / Power256(i) % 256
  }

  function NumberBytes(n: nat, width: nat, bigEndian: bool): (b: seq<byte>)
    ensures |b| == width
  {
    seq(width, i requires 0 <= i < width => ByteAt(n, if bigEndian then width - 1 - i else i))
  }

  lemma WholeAfterLength(m: nat)
    requires m % BLOCK == 56
    ensures (m + 8) % BLOCK == 0
  {
    DivMod(m + 8, BLOCK, m / BLOCK + 1, 0);
  }

  function Padding(alg: Alg, n: nat): (p: seq<byte>)
    ensures (n + |p|) % BLOCK == 0
  {
    WholeAfterLength(n + 1 + ZeroCount(n));
    [0x80] + Zeros(ZeroCount(n)) + NumberBytes(8 * n % TWO64, 8, alg.bigEndian)
  }

  function DigestOf(alg: Alg, st: State): (d: seq<byte>)
    ensures |d| == 4 * |st|
  {
    if st == [] then [] else NumberBytes(st[0], 4, alg.bigEndian) + DigestOf(alg, st[1..])
  }

  /** The hash of a whole message. */
  function Hash(alg: Alg, message: seq<byte>): seq<byte> {
    DigestOf(alg, Absorb(alg, alg.init, message + Padding(alg, |message|)))
  }

  lemma {:induction false} AbsorbAppend(alg: Alg, st: State, a: seq<byte>, b: seq<byte>)
    requires |a| % BLOCK == 0 && |b| % BLOCK == 0
    ensures Absorb(alg, st, a + b) == Absorb(alg, Absorb(alg, st, a), b)
    decreases |a|
  {
    if a == [] {
      assert a + b == b;
    } else {
      assert (a + b)[..BLOCK] == a[..BLOCK];
      assert (a + b)[BLOCK..] == a[BLOCK..] + b;
      AbsorbAppend(alg, alg.compress(st, a[..BLOCK]), a[BLOCK..], b);
    }
  }

  lemma {:induction false} AbsorbLength(alg: Alg, st: State, data: seq<byte>)
    requires alg.WellFormed() && |st| == |alg.init| && |data| % BLOCK == 0
    ensures |Absorb(alg, st, data)| == |alg.init|
    decreases |data|
  {
    if data != [] {
      AbsorbLength(alg, alg.compress(st, data[..BLOCK]), data[BLOCK..]);
    }
  }

  /** One whole block more. */
  lemma AbsorbBlock(alg: Alg, st: State, a: seq<byte>, block: seq<byte>)
    requires |a| % BLOCK == 0 && |block| == BLOCK
    ensures Absorb(alg, st, a + block) == alg.compress(Absorb(alg, st, a), block)
  {
    AbsorbAppend(alg, st, a, block);
    assert block[..BLOCK] == block && block[BLOCK..] == [];
  }

  function Whole(n: nat): (w: nat)
    ensures w <= n < w + BLOCK && w % BLOCK == 0
  {
    n / BLOCK * BLOCK
  }

  lemma WholeIs(n: nat, w: nat)
    requires w % BLOCK == 0 && w <= n < w + BLOCK
    ensures Whole(n) == w
  {
    DivMod(n, BLOCK, w / BLOCK, n - w);
  }

  lemma WholeSum(m: nat, i: nat)
    requires m % BLOCK == 0 && i % BLOCK == 0
    ensures (m + i) % BLOCK == 0
  {
    DivMod(m + i, BLOCK, m / BLOCK + i / BLOCK, 0);
  }

  lemma BitsWrap(n: nat)
    ensures 8 * n % TWO64 == 8 * (n % LIMIT)
  {
    var q, r := n / LIMIT, n % LIMIT;
    DivMod(8 * n, TWO64, q, 8 * r);
  }

  lemma PositionWraps(n: nat)
    ensures n % LIMIT % BLOCK == n % BLOCK
  {
    var q, r := n / LIMIT, n % LIMIT;
    var q', r' := r / BLOCK, r % BLOCK;
    DivMod(n, BLOCK, q * 0x80_0000_0000_0000 + q', r');
  }

  /** The bit counter wraps at 2^64, but the position in the block does not notice. */
  lemma CounterIndex(n: nat)
    ensures 8 * n % TWO64 / 8 % BLOCK == n % BLOCK == n - Whole(n)
  {
    BitsWrap(n);
    PositionWraps(n);
  }

  lemma CounterAdd(m: nat, n: nat)
    ensures (8 * m % TWO64 + 8 * n) % TWO64 == 8 * (m + n) % TWO64
  {
    var q, r := 8 * m / TWO64, 8 * m % TWO64;
    assert 8 * (m + n) == q * TWO64 + (r + 8 * n);
    ModDrop(q, r + 8 * n);
  }

  lemma ModDrop(q: nat, x: nat)
    ensures (q * TWO64 + x) % TWO64 == x % TWO64
  {
  }

  class Context {
    const alg: Alg
    var state: State
    var count: int              // bits, modulo 2^64
    const buffer: array<byte>
    ghost var fed: seq<byte>

    ghost predicate Valid()
      reads this, buffer
    {
      count == 8 * |fed| % TWO64 && Buffered()
    }

    /** The whole blocks are compressed, the rest is in the buffer. */
    ghost predicate Buffered()
      reads this, buffer
    {
      && buffer.Length == BLOCK
      && state == Absorb(alg, alg.init, fed[..Whole(|fed|)])
      && buffer[..|fed| - Whole(|fed|)] == fed[Whole(|fed|)..]
    }

    constructor (alg: Alg)
      ensures Valid() && fresh(buffer) && this.alg == alg && fed == []
    {
      this.alg := alg;
      state, count, fed := alg.init, 0, [];
      buffer := new byte[BLOCK](_ => 0);
    }

    /** Compress the whole blocks of p and buffer the rest; the buffer is empty before. */
    method Blocks(p: seq<byte>)
      requires buffer.Length == BLOCK && |fed| % BLOCK == 0 && state == Absorb(alg, alg.init, fed)
      modifies this`state, this`fed, buffer
      ensures Buffered() && fed == old(fed) + p
    {
      ghost var before := fed;
      hide Absorb, Whole;
      assert before + p[..0] == before;
      var i := 0;
      while i + BLOCK <= |p|
        invariant 0 <= i <= |p| && i % BLOCK == 0
        invariant state == Absorb(alg, alg.init, before + p[..i])
        invariant fed == before
      {
        WholeSum(|before|, i);
        AbsorbBlock(alg, alg.init, before + p[..i], p[i..i + BLOCK]);
        assert before + p[..i] + p[i..i + BLOCK] == before + p[..i + BLOCK];
        state := alg.compress(state, p[i..i + BLOCK]);
        i := i + BLOCK;
      }
      forall j | 0 <= j < |p| - i { buffer[j] := p[i + j]; }
      fed := before + p;
      WholeSum(|before|, i);
      WholeIs(|fed|, |before| + i);
      assert fed[..Whole(|fed|)] == before + p[..i];
      assert buffer[..|p| - i] == p[i..] == fed[Whole(|fed|)..];
    }

    /** Less than the rest of a block: it is only buffered. */
    method Keep(idx: nat, p: seq<byte>)
      requires Buffered() && idx == |fed| - Whole(|fed|) && idx + |p| < BLOCK
      modifies this`fed, buffer
      ensures Buffered() && fed == old(fed) + p
    {
      forall j | 0 <= j < |p| { buffer[idx + j] := p[j]; }
      ghost var w := |fed| - idx;
      fed := fed + p;
      WholeIs(|fed|, w);
      assert fed[..w] == old(fed)[..w];
      assert buffer[..idx + |p|] == fed[w..];
    }

    /** The rest of a block: compress the buffer. */
    method TopUp(idx: nat, p: seq<byte>)
      requires Buffered() && idx == |fed| - Whole(|fed|) && idx + |p| == BLOCK
      modifies this`state, this`fed, buffer
      ensures |fed| % BLOCK == 0 && state == Absorb(alg, alg.init, fed) && fed == old(fed) + p
    {
      hide Absorb, Whole;
      ghost var w := |fed| - idx;
      WholeSum(w, BLOCK);
      forall j | 0 <= j < |p| { buffer[idx + j] := p[j]; }
      assert buffer[..] == fed[w..] + p;
      AbsorbBlock(alg, alg.init, fed[..w], buffer[..]);
      assert fed[..w] + buffer[..] == fed + p;
      state := alg.compress(state, buffer[..]);
      fed := fed + p;
    }

    method Update(data: seq<byte>)
      requires Valid()
      modifies this`state, this`count, this`fed, buffer
      ensures Valid() && fed == old(fed) + data
    {
      hide Absorb, Whole;
      var p := data;
      CounterIndex(|fed|);
      CounterAdd(|fed|, |p|);
      var idx := count / 8 % BLOCK;
      count := (count + 8 * |p|) % TWO64;
      if idx != 0 {
        var fill := BLOCK - idx;
        if |p| < fill {
          Keep(idx, p);
          return;
        }
        TopUp(idx, p[..fill]);
        p := p[fill..];
      } else {
        assert fed[..Whole(|fed|)] == fed;
      }
      Blocks(p);
      assert fed == old(fed) + data;
    }

    /** Pad, absorb the padding, and write out the state. */
    method Final() returns (digest: seq<byte>)
      requires Valid()
      modifies this`state, this`count, this`fed, buffer
      ensures digest == Hash(alg, old(fed))
    {
      hide Absorb, Padding;
      var pad := BuildPad(alg, count, |fed|);
      Update(pad);
      WholeBlocks(fed);
      digest := DigestOf(alg, state);
    }
  }

  lemma WholeBlocks(data: seq<byte>)
    requires |data| % BLOCK == 0
    ensures data[..Whole(|data|)] == data
  {
  }

  method BuildPad(alg: Alg, bits: int, ghost n: nat) returns (pad: seq<byte>)
    requires bits == 8 * n % TWO64
    ensures pad == Padding(alg, n)
  {
    CounterIndex(n);
    PadLength(n);
    var idx := bits / 8 % BLOCK;
    var padLen := if idx < 56 then 56 - idx else 120 - idx;
    pad := [0x80] + Zeros(padLen - 1) + NumberBytes(bits, 8, alg.bigEndian);
  }

  function Concat(pieces: seq<seq<byte>>): seq<byte> {
    if pieces == [] then [] else Concat(pieces[..|pieces| - 1]) + pieces[|pieces| - 1]
  }

  /** However a message is split into updates, the digest is the hash of the whole message. */
  method HashPieces(alg: Alg, pieces: seq<seq<byte>>) returns (digest: seq<byte>)
    ensures digest == Hash(alg, Concat(pieces))
  {
    var c := new Context(alg);
    for i := 0 to |pieces|
      invariant c.Valid() && fresh(c) && fresh(c.buffer) && c.alg == alg
      invariant c.fed == Concat(pieces[..i])
    {
      assert pieces[..i + 1][..i] == pieces[..i];
      c.Update(pieces[i]);
    }
    assert pieces[..|pieces|] == pieces;
    digest := c.Final();
  }

  // ---- HMAC: section 2 of RFC 2104 ----

  function Xor(a: byte, b: byte): byte {
    ((a as bv8) ^ (b as bv8)) as int
  }

  function XorAll(k: seq<byte>, b: byte): (r: seq<byte>)
    ensures |r| == |k|
  {
    seq(|k|, i requires 0 <= i < |k| => Xor(k[i], b))
  }

  /** The key, hashed if it is longer than a block, extended with zeros to a block. */
  function BlockKey(alg: Alg, key: seq<byte>): (k: seq<byte>)
    requires alg.WellFormed()
    ensures |k| == BLOCK
  {
    HashLength(alg, key);
    var short := if |key| > BLOCK then Hash(alg, key) else key;
    short + Zeros(BLOCK - |short|)
  }

  function Hmac(alg: Alg, key: seq<byte>, text: seq<byte>): seq<byte>
    requires alg.WellFormed()
  {
    var k := BlockKey(alg, key);
    Hash(alg, XorAll(k, 0x5C) + Hash(alg, XorAll(k, 0x36) + text))
  }

  lemma HashLength(alg: Alg, message: seq<byte>)
    requires alg.WellFormed()
    ensures |Hash(alg, message)| == 4 * |alg.init| <= 32
  {
    AbsorbLength(alg, alg.init, message + Padding(alg, |message|));
  }

  method PrepareKey(alg: Alg, key: seq<byte>) returns (k: array<byte>)
    requires alg.WellFormed()
    ensures fresh(k) && k[..] == BlockKey(alg, key)
  {
    k := new byte[BLOCK](_ => 0);
    var short := key;
    if |key| > BLOCK {
      short := HashPieces(alg, [key]);
      OnePiece(key);
      HashLength(alg, key);
    }
    forall i | 0 <= i < |short| { k[i] := short[i]; }
    assert k[..] == short + Zeros(BLOCK - |short|);
  }

  /** hmac_sha256 and hmac_sha1. */
  method ComputeHmac(alg: Alg, key: seq<byte>, text: seq<byte>) returns (mac: seq<byte>)
    requires alg.WellFormed()
    ensures mac == Hmac(alg, key, text)
  {
    hide Hash;
    var k := PrepareKey(alg, key);
    var ipad, opad := new byte[BLOCK](_ => 0), new byte[BLOCK](_ => 0);
    for i := 0 to BLOCK
      invariant k[..] == BlockKey(alg, key)
      invariant forall j :: 0 <= j < i ==> ipad[j] == Xor(k[j], 0x36) && opad[j] == Xor(k[j], 0x5C)
    {
      ipad[i] := Xor(k[i], 0x36);
      opad[i] := Xor(k[i], 0x5C);
    }
    assert ipad[..] == XorAll(k[..], 0x36) && opad[..] == XorAll(k[..], 0x5C);
    TwoPieces(ipad[..], text);
    var inner := HashPieces(alg, [ipad[..], text]);
    TwoPieces(opad[..], inner);
    mac := HashPieces(alg, [opad[..], inner]);
  }

  lemma OnePiece(a: seq<byte>)
    ensures Concat([a]) == a
  {
    assert [a][..0] == [];
  }

  lemma TwoPieces(a: seq<byte>, b: seq<byte>)
    ensures Concat([a, b]) == a + b
  {
    OnePiece(a);
    assert [a, b][..1] == [a];
  }

  // ---- the byte order of numbers ----

  /** Bytes read as a number, most significant first. */
  function ValueBig(b: seq<byte>): nat {
    if b == [] then 0 else ValueBig(b[..|b| - 1]) * 256 + b[|b| - 1] as int
  }

  lemma DivDiv(n: nat, a: nat, b: nat)
    requires a > 0 && b > 0
    ensures a * b > 0 && n / (a * b) == n / a / b && n % (a * b) == n / a % b * a + n % a
  {
    var q, r := n / a, n % a;
    var q2, r2 := q / b, q % b;
    assert n == (q2 * b + r2) * a + r;
    assert (q2 * b + r2) * a == q2 * (a * b) + r2 * a;
    assert r2 * a <= (b - 1) * a;
    assert (b - 1) * a == a * b - a;
    DivMod(n, a * b, q2, r2 * a + r);
  }

  /** The number written with the most significant byte first is the number, modulo 256 to the width; the other order is
      the same bytes from the back. */
  lemma {:induction false} NumberBytesIs(n: nat, width: nat)
    ensures ValueBig(NumberBytes(n, width, true)) == n % Power256(width)
    ensures forall i :: 0 <= i < width ==> NumberBytes(n, width, false)[i] == NumberBytes(n, width, true)[width - 1 - i]
    decreases width
  {
    hide NumberBytes, Power256;
    BackToFront(n, width);
    PowerStep(width);
    if width > 0 {
      NumberBytesIs(n / 256, width - 1);
      NumberBytesStep(n, width);
      DivDiv(n, 256, Power256(width - 1));
    }
  }

  lemma PowerStep(i: nat)
    ensures Power256(i) == if i == 0 then 1 else 256 * Power256(i - 1)
  {
  }

  lemma BackToFront(n: nat, width: nat)
    ensures forall i :: 0 <= i < width ==> NumberBytes(n, width, false)[i] == NumberBytes(n, width, true)[width - 1 - i]
  {
    hide ByteAt;
  }

  /** All but the last byte are those of the number shifted by a byte. */
  lemma NumberBytesStep(n: nat, width: nat)
    requires width > 0
    ensures var b := NumberBytes(n, width, true);
            b[..width - 1] == NumberBytes(n / 256, width - 1, true) && b[width - 1] as int == n % 256
  {
    hide ByteAt;
    var b, front := NumberBytes(n, width, true), NumberBytes(n / 256, width - 1, true);
    forall i | 0 <= i < width - 1 ensures b[i] == front[i] {
      ByteAtShift(n, width - 2 - i);
    }
    assert b[..width - 1] == front;
    FirstByteAt(n);
  }

  lemma ByteAtShift(n: nat, i: nat)
    ensures ByteAt(n, i + 1) == ByteAt(n / 256, i)
  {
    DivDiv(n, 256, Power256(i));
  }

  lemma FirstByteAt(n: nat)
    ensures ByteAt(n, 0) as int == n % 256
  {
    assert Power256(0) == 1;
  }

  /** The last eight bytes of a padded message are its length in bits, modulo 2^64. */
  lemma LengthField(alg: Alg, n: nat)
    ensures |Padding(alg, n)| >= 9 && Padding(alg, n)[0] == 0x80
    ensures var last := Padding(alg, n)[|Padding(alg, n)| - 8..];
            var first := if alg.bigEndian then last else seq(8, i requires 0 <= i < 8 => last[7 - i]);
            ValueBig(first) == 8 * n % 0x1_0000_0000_0000_0000
    ensures forall i :: 1 <= i < |Padding(alg, n)| - 8 ==> Padding(alg, n)[i] == 0
  {
    var bits := 8 * n % TWO64;
    var p := Padding(alg, n);
    var last := p[|p| - 8..];
    assert last == NumberBytes(bits, 8, alg.bigEndian);
    NumberBytesIs(bits, 8);
    assert Power256(8) == TWO64;
    var reversed := seq(8, i requires 0 <= i < 8 => last[7 - i]);
    if !alg.bigEndian {
      assert reversed == NumberBytes(bits, 8, true);
    }
  }

  /** Section 2 of RFC 2104, written out: the key, or its hash if it is longer than a block, filled up with zeros; each
      byte combined with 0x36 and with 0x5C; the text hashed behind the one, that hash behind the other. */
  lemma HmacIs(alg: Alg, key: seq<byte>, text: seq<byte>)
    requires alg.WellFormed()
    ensures var short := if |key| <= 64 then key else Hash(alg, key);
            && |short| <= 64
            && var k := short + seq(64 - |short|, _ => 0 as byte);
               var inner := seq(64, i requires 0 <= i < 64 => (k[i] as bv8 ^ 0x36) as byte);
               var outer := seq(64, i requires 0 <= i < 64 => (k[i] as bv8 ^ 0x5C) as byte);
               Hmac(alg, key, text) == Hash(alg, outer + Hash(alg, inner + text))
  {
    hide Hash;
    HashLength(alg, key);
    var short := if |key| <= 64 then key else Hash(alg, key);
    var k := short + seq(64 - |short|, _ => 0 as byte);
    assert BlockKey(alg, key) == k;
    var inner := seq(64, i requires 0 <= i < 64 => (k[i] as bv8 ^ 0x36) as byte);
    var outer := seq(64, i requires 0 <= i < 64 => (k[i] as bv8 ^ 0x5C) as byte);
    assert XorAll(k, 0x36) == inner && XorAll(k, 0x5C) == outer;
  }
}
