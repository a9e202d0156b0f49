/** voice/crypto.c (encoder) and voice/tencent_nls.c (decoder): Base64 by section 4 of RFC 4648. */
module Base64 {
  import opened Bytes

  const PAD: byte := 61

  /** The alphabet, in ASCII. */
  function Char(v: nat): (c: byte)
    requires v < 64
    ensures c != 0 && c != PAD
  {
    if v < 26 then 65 + v else if v < 52 then 97 + (v - 26)
    else if v < 62 then 48 + (v - 52) else if v == 62 then 43 else 47
  }

  /** The decoder's table: -1 for bytes outside the alphabet. */
  function Value(c: byte): (v: int)
    ensures -1 <= v < 64
  {
    if 65 <= c <= 90 then c - 65
    else if 97 <= c <= 122 then c - 97 + 26
    else if 48 <= c <= 57 then c - 48 + 52
    else if c == 43 then 62
    else if c == 47 then 63
    else -1
  }

  lemma ValueOfChar(v: nat)
    requires v < 64
    ensures Value(Char(v)) == v
  {
  }

  // ---- encoding ----

  function Encode(x: seq<byte>): (r: seq<byte>)
    ensures |r| == (|x| + 2) / 3 * 4
    decreases |x|
  {
    if |x| == 0 then []
    else if |x| == 1 then [Char(x[0] / 4), Char(x[0] % 4 * 16), PAD, PAD]
    else if |x| == 2 then [Char(x[0] / 4), Char(x[0] % 4 * 16 + x[1] / 16), Char(x[1] % 16 * 4), PAD]
    else Group(x[0], x[1], x[2]) + Encode(x[3..])
  }

  function Group(a: byte, b: byte, c: byte): (r: seq<byte>)
    ensures |r| == 4
  {
    [Char(a / 4), Char(a % 4 * 16 + b / 16), Char(b % 16 * 4 + c / 64), Char(c % 64)]
  }

  /** Four characters, one after the other. */
  method Put(out: array<byte>, o: nat, c0: byte, c1: byte, c2: byte, c3: byte)
    requires o + 4 <= out.Length
    modifies out
    ensures out[..o + 4] == old(out[..o]) + [c0, c1, c2, c3]
  {
    out[o] := c0;
    out[o + 1] := c1;
    out[o + 2] := c2;
    out[o + 3] := c3;
  }

  /** base64_encode: the characters, their number, and a terminating NUL; or -1 if they do not fit. */
  method Base64Encode(x: seq<byte>, out: array<byte>) returns (n: int)
    modifies out
    ensures n == if out.Length < (|x| + 2) / 3 * 4 + 1 then -1 else |Encode(x)|
    ensures n >= 0 ==> out[..n] == Encode(x) && out[n] == 0
  {
    hide Encode, Char, Group;
    if out.Length < (|x| + 2) / 3 * 4 + 1 { return -1; }
    var i, o := 0, 0;
    assert x[0..] == x;
    while i + 2 < |x|
      invariant 0 <= i <= |x| && 0 <= o < out.Length && out[..o] + Encode(x[i..]) == Encode(x)
      invariant o + |Encode(x[i..])| < out.Length
    {
      EncodeGroup(x, i);
      Put(out, o, Char(x[i] / 4), Char(x[i] % 4 * 16 + x[i + 1] / 16),
          Char(x[i + 1] % 16 * 4 + x[i + 2] / 64), Char(x[i + 2] % 64));
      i, o := i + 3, o + 4;
    }
    EncodeTail(x, i);
    if i < |x| {
      if i + 1 < |x| {
        Put(out, o, Char(x[i] / 4), Char(x[i] % 4 * 16 + x[i + 1] / 16), Char(x[i + 1] % 16 * 4), PAD);
      } else {
        Put(out, o, Char(x[i] / 4), Char(x[i] % 4 * 16), PAD, PAD);
      }
      o := o + 4;
    }
    out[o] := 0;
    return o;
  }

  lemma EncodeGroup(x: seq<byte>, i: nat)
    requires i + 2 < |x|
    ensures Encode(x[i..]) ==
            [Char(x[i] / 4), Char(x[i] % 4 * 16 + x[i + 1] / 16),
             Char(x[i + 1] % 16 * 4 + x[i + 2] / 64), Char(x[i + 2] % 64)]
            + Encode(x[i + 3..])
  {
    assert x[i..][3..] == x[i + 3..];
  }

  lemma EncodeTail(x: seq<byte>, i: nat)
    requires i <= |x| <= i + 2
    ensures Encode(x[i..]) ==
            if i == |x| then []
            else if i + 1 == |x| then [Char(x[i] / 4), Char(x[i] % 4 * 16), PAD, PAD]
            else [Char(x[i] / 4), Char(x[i] % 4 * 16 + x[i + 1] / 16), Char(x[i + 1] % 16 * 4), PAD]
  {
  }

  // ---- decoding, with a 32-bit accumulator ----

  function Shift6(acc: uint32, v: nat): uint32 { (acc * 64 + v) % TWO32 }

  function Pow2(bits: nat): (p: nat)
    requires bits < 8
    ensures p > 0
  {
    if bits == 0 then 1 else 2 * Pow2(bits - 1)
  }

  function Stops(s: seq<byte>): bool { s == [] || s[0] == 0 || s[0] == PAD }

  function Decode(s: seq<byte>, acc: uint32, bits: nat): seq<byte>
    requires bits < 8
    decreases |s|
  {
    if Stops(s) then []
    else
      var v := Value(s[0]);
      if v < 0 then Decode(s[1..], acc, bits)
      else
        var acc' := Shift6(acc, v);
        if bits + 6 < 8 then Decode(s[1..], acc', bits + 6)
        else [acc' / Pow2(bits - 2) % 256] + Decode(s[1..], acc', bits - 2)
  }

  /** The decoding loop of tc_tts: as many bytes as the output has room for. */
  method Base64Decode(s: seq<byte>, out: array<byte>) returns (n: nat)
    modifies out
    ensures n == Min(|Decode(s, 0, 0)|, out.Length)
    ensures out[..n] == Decode(s, 0, 0)[..n]
  {
    hide Decode, Shift6, Value, Pow2;
    var i, acc: uint32, bits := 0, 0, 0;
    n := 0;
    ghost var done: seq<byte> := [];
    while i < |s| && s[i] != 0 && s[i] != PAD
      invariant 0 <= i <= |s| && 0 <= bits < 8
      invariant done + Decode(s[i..], acc, bits) == Decode(s, 0, 0)
      invariant n == Min(|done|, out.Length) && out[..n] == done[..n]
    {
      DecodeOne(s, i, acc, bits);
      var v := Value(s[i]);
      i := i + 1;
      if v >= 0 {
        acc := Shift6(acc, v);
        bits := bits + 6;
        if bits >= 8 {
          bits := bits - 8;
          var b := acc / Pow2(bits) % 256;
          if n < out.Length {
            out[n] := b;
            n := n + 1;
          }
          assert done + ([b] + Decode(s[i..], acc, bits)) == done + [b] + Decode(s[i..], acc, bits);
          done := done + [b];
        }
      }
    }
    DecodeStops(s[i..], acc, bits);
    assert done + [] == done;
  }

  lemma DecodeOne(s: seq<byte>, i: nat, acc: uint32, bits: nat)
    requires i < |s| && bits < 8 && s[i] != 0 && s[i] != PAD
    ensures Decode(s[i..], acc, bits) ==
            if Value(s[i]) < 0 then Decode(s[i + 1..], acc, bits)
            else if bits < 2 then Decode(s[i + 1..], Shift6(acc, Value(s[i])), bits + 6)
            else [Shift6(acc, Value(s[i])) / Pow2(bits - 2) % 256]
                 + Decode(s[i + 1..], Shift6(acc, Value(s[i])), bits - 2)
  {
    hide Shift6, Value, Pow2;
    assert s[i..][1..] == s[i + 1..];
  }

  // ---- decoding undoes encoding ----

  lemma WrapKeepsLowBits(n: nat)
    ensures n % TWO32 % 4096 == n % 4096
  {
    var q, r := n / TWO32, n % TWO32;
    DivMod(n, 4096, q * 0x10_0000 + r / 4096, r % 4096);
  }

  /** The low bits of the accumulator are the last two sextets, whatever it held before. */
  lemma LowTwoSextets(acc: uint32, u: nat, v: nat)
    requires u < 64 && v < 64 && acc % 64 == u
    ensures Shift6(acc, v) % 4096 == u * 64 + v
  {
    var n := acc as int * 64 + v;
    WrapKeepsLowBits(n);
    DivMod(n, 4096, acc as int / 64, u * 64 + v);
  }

  lemma LowSextet(acc: uint32, v: nat)
    requires v < 64
    ensures Shift6(acc, v) % 64 == v
  {
    var u := acc as int % 64;
    LowTwoSextets(acc, u, v);
    var r: int := Shift6(acc, v);
    DivMod(r, 64, r / 4096 * 64 + u, v);
  }

  lemma ByteOf16(acc: nat)
    ensures acc / 16 % 256 == acc % 4096 / 16
  {
    var q, r := acc / 4096, acc % 4096;
    DivMod(acc, 16, q * 256 + r / 16, r % 16);
    DivMod(acc / 16, 256, q, r / 16);
  }

  lemma ByteOf4(acc: nat)
    ensures acc / 4 % 256 == acc % 4096 / 4 % 256
  {
    var q, r := acc / 4096, acc % 4096;
    DivMod(acc, 4, q * 1024 + r / 4, r % 4);
    DivMod(acc / 4, 256, q * 4 + r / 4 / 256, r / 4 % 256);
  }

  lemma ByteOf1(acc: nat)
    ensures acc % 256 == acc % 4096 % 256
  {
    var q, r := acc / 4096, acc % 4096;
    DivMod(acc, 256, q * 16 + r / 256, r % 256);
  }

  lemma DecodeStep(v: nat, rest: seq<byte>, acc: uint32, bits: nat)
    requires v < 64 && bits < 8
    ensures Decode([Char(v)] + rest, acc, bits) ==
            if bits < 2 then Decode(rest, Shift6(acc, v), bits + 6)
            else [Shift6(acc, v) / Pow2(bits - 2) % 256] + Decode(rest, Shift6(acc, v), bits - 2)
  {
    ValueOfChar(v);
    assert ([Char(v)] + rest)[1..] == rest;
  }

  /** Two sextets that hold a byte and four bits of the next. */
  lemma FirstByte(u: nat, v: nat, rest: seq<byte>, acc: uint32)
    requires u < 64 && v < 64
    ensures Decode([Char(u), Char(v)] + rest, acc, 0) ==
            [(u * 4 + v / 16) as byte] + Decode(rest, Shift6(Shift6(acc, u), v), 4)
  {
    var acc1 := Shift6(acc, u);
    hide Decode, Char, Shift6, Value;
    assert [Char(u), Char(v)] + rest == [Char(u)] + ([Char(v)] + rest);
    DecodeStep(u, [Char(v)] + rest, acc, 0);
    DecodeStep(v, rest, acc1, 6);
    LowSextet(acc, u);
    LowTwoSextets(acc1, u, v);
    ByteOf16(Shift6(acc1, v));
    assert Pow2(4) == 16;
  }

  lemma MiddleByte(u: nat, v: nat)
    requires u < 64 && v < 64
    ensures (u * 64 + v) / 4 % 256 == u % 16 * 16 + v / 4
  {
    DivMod(u * 64 + v, 4, u * 16 + v / 4, v % 4);
    DivMod(u * 16 + v / 4, 256, u / 16, u % 16 * 16 + v / 4);
  }

  lemma LowByte(u: nat, v: nat)
    requires u < 64 && v < 64
    ensures (u * 64 + v) % 256 == u % 4 * 64 + v
  {
    DivMod(u * 64 + v, 256, u / 4, u % 4 * 64 + v);
  }

  lemma SecondByte(u: nat, v: nat, rest: seq<byte>, acc: uint32)
    requires u < 64 && v < 64 && acc % 64 == u
    ensures Decode([Char(v)] + rest, acc, 4) == [(u % 16 * 16 + v / 4) as byte] + Decode(rest, Shift6(acc, v), 2)
  {
    DecodeStep(v, rest, acc, 4);
    LowTwoSextets(acc, u, v);
    ByteOf4(Shift6(acc, v));
    MiddleByte(u, v);
    assert Pow2(2) == 4;
  }

  lemma ThirdByte(u: nat, v: nat, rest: seq<byte>, acc: uint32)
    requires u < 64 && v < 64 && acc % 64 == u
    ensures Decode([Char(v)] + rest, acc, 2) == [(u % 4 * 64 + v) as byte] + Decode(rest, Shift6(acc, v), 0)
  {
    DecodeStep(v, rest, acc, 2);
    LowTwoSextets(acc, u, v);
    ByteOf1(Shift6(acc, v));
    LowByte(u, v);
  }

  /** Three bytes cut into four sextets and put together again. */
  lemma Sextets(a: int, b: int, c: int)
    requires 0 <= a < 256 && 0 <= b < 256 && 0 <= c < 256
    ensures var s1, s2 := a % 4 * 16 + b / 16, b % 16 * 4 + c / 64;
            a / 4 * 4 + s1 / 16 == a && s1 % 16 * 16 + s2 / 4 == b && s2 % 4 * 64 + c % 64 == c
  {
  }

  lemma DecodeGroup(a: byte, b: byte, c: byte, rest: seq<byte>, acc: uint32) returns (acc': uint32)
    ensures Decode(Group(a, b, c) + rest, acc, 0) == [a, b, c] + Decode(rest, acc', 0)
  {
    hide Decode, Char, Shift6;
    var s0, s1, s2, s3
        := a as int / 4, a as int % 4 * 16 + b as int / 16, b as int % 16 * 4 + c as int / 64, c as int % 64;
    Sextets(a, b, c);
    var acc1 := Shift6(acc, s0);
    var acc2 := Shift6(acc1, s1);
    var acc3 := Shift6(acc2, s2);
    acc' := Shift6(acc3, s3);
    var tail := [Char(s3)] + rest;
    assert Group(a, b, c) + rest == [Char(s0), Char(s1)] + ([Char(s2)] + tail);
    FirstByte(s0, s1, [Char(s2)] + tail, acc);
    LowSextet(acc1, s1);
    SecondByte(s1, s2, tail, acc2);
    LowSextet(acc2, s2);
    ThirdByte(s2, s3, rest, acc3);
  }

  lemma DecodeStops(s: seq<byte>, acc: uint32, bits: nat)
    requires bits < 8 && Stops(s)
    ensures Decode(s, acc, bits) == []
  {
  }

  lemma OneByteLeft(a: int, rest: seq<byte>, acc: uint32)
    requires 0 <= a < 256
    ensures Decode([Char(a / 4), Char(a % 4 * 16), PAD, PAD] + rest, acc, 0) == [a as byte]
  {
    hide Decode, Char, Shift6;
    Sextets(a, 0, 0);
    var tail := [PAD, PAD] + rest;
    assert [Char(a / 4), Char(a % 4 * 16), PAD, PAD] + rest == [Char(a / 4), Char(a % 4 * 16)] + tail;
    FirstByte(a / 4, a % 4 * 16, tail, acc);
    DecodeStops(tail, Shift6(Shift6(acc, a / 4), a % 4 * 16), 4);
  }

  lemma TwoBytesLeft(a: int, b: int, rest: seq<byte>, acc: uint32)
    requires 0 <= a < 256 && 0 <= b < 256
    ensures Decode([Char(a / 4), Char(a % 4 * 16 + b / 16), Char(b % 16 * 4), PAD] + rest, acc, 0) ==
            [a as byte, b as byte]
  {
    hide Decode, Char, Shift6;
    Sextets(a, b, 0);
    var s0, s1, s2 := a / 4, a % 4 * 16 + b / 16, b % 16 * 4;
    var tail := [PAD] + rest;
    assert [Char(s0), Char(s1), Char(s2), PAD] + rest == [Char(s0), Char(s1)] + ([Char(s2)] + tail);
    var acc2 := Shift6(Shift6(acc, s0), s1);
    FirstByte(s0, s1, [Char(s2)] + tail, acc);
    LowSextet(Shift6(acc, s0), s1);
    SecondByte(s1, s2, tail, acc2);
    DecodeStops(tail, Shift6(acc2, s2), 2);
  }

  /** Whatever the accumulator held, and although it wraps, decoding an encoding and the NUL behind it gives the bytes
      back. */
  lemma {:induction false} RoundTrip(x: seq<byte>, rest: seq<byte>, acc: uint32)
    requires Stops(rest)
    ensures Decode(Encode(x) + rest, acc, 0) == x
    decreases |x|
  {
    hide Decode, Char, Group, Shift6;
    if |x| == 0 {
      assert Encode(x) + rest == rest;
      DecodeStops(rest, acc, 0);
    } else if |x| == 1 {
      OneByteLeft(x[0], rest, acc);
    } else if |x| == 2 {
      TwoBytesLeft(x[0], x[1], rest, acc);
    } else {
      var g := Group(x[0], x[1], x[2]);
      assert Encode(x) + rest == g + (Encode(x[3..]) + rest);
      var acc' := DecodeGroup(x[0], x[1], x[2], Encode(x[3..]) + rest, acc);
      RoundTrip(x[3..], rest, acc');
    }
  }

  // ---- against the table and the layout of section 4 of RFC 4648 ----

  /** A to Z, a to z, 0 to 9, + and /. */
  lemma AlphabetIs(v: nat)
    requires v < 63
    ensures Char(0) == 65 && Char(26) == 97 && Char(52) == 48 && Char(62) == 43 && Char(63) == 47
    ensures v + 1 !in {26, 52, 62, 63} ==> Char(v + 1) as int == Char(v) as int + 1
  {
  }

  /** A group is the 24 bits of its three bytes, six at a time from the highest. */
  lemma GroupIsSextets(a: byte, b: byte, c: byte)
    ensures var n := a as int * 65536 + b as int * 256 + c;
            && 0 <= n < 16777216
            && Group(a, b, c) == [Char(n / 262144), Char(n / 4096 % 64), Char(n / 64 % 64), Char(n % 64)]
  {
    var n: int := a as int * 65536 + b as int * 256 + c;
    var s0, s1, s2, s3 := a as int / 4, a as int % 4 * 16 + b as int / 16, b as int % 16 * 4 + c as int / 64,
                          c as int % 64;
    assert n == ((s0 * 64 + s1) * 64 + s2) * 64 + s3;
    SextetOf(n, (s0 * 64 + s1) * 64 + s2, s3);
    SextetOf((s0 * 64 + s1) * 64 + s2, s0 * 64 + s1, s2);
    SextetOf(s0 * 64 + s1, s0, s1);
    DivMod(n, 4096, s0 * 64 + s1, s2 * 64 + s3);
    DivMod(n, 262144, s0, (s1 * 64 + s2) * 64 + s3);
  }

  lemma SextetOf(n: int, q: int, r: int)
    requires n == q * 64 + r && 0 <= r < 64
    ensures n / 64 == q && n % 64 == r
  {
    DivMod(n, 64, q, r);
  }
}
