/** voice/llm.c: escaping a text into a JSON string and reading one back: section 7 of RFC 8259. */
module JsonString {
  import opened Bytes

  const QUOTE: byte := 34
  const BACKSLASH: byte := 92
  const LF: byte := 10
  const CR: byte := 13
  const TAB: byte := 9
  const LOWER_U: byte := 117
  const MARGIN: nat := 8

  // ---- escaping ----

  function HexDigit(d: nat): byte
    requires d < 16
  {
    if d < 10 then 48 + d else 97 + (d - 10)
  }

  function EscapeChar(c: byte): (e: seq<byte>)
    ensures 1 <= |e| <= 6
  {
    if c == QUOTE || c == BACKSLASH then [BACKSLASH, c]
    else if c == LF then [BACKSLASH, 110]
    else if c == CR then [BACKSLASH, 114]
    else if c == TAB then [BACKSLASH, 116]
    else if c < 0x20 then [BACKSLASH, LOWER_U, 48, 48, HexDigit(c / 16), HexDigit(c % 16)]
    else [c]
  }

  function Escape(s: seq<byte>): seq<byte> {
    if s == [] then [] else EscapeChar(s[0]) + Escape(s[1..])
  }

  lemma {:induction false} EscapeAppend(s: seq<byte>, c: byte)
    ensures Escape(s + [c]) == Escape(s) + EscapeChar(c)
    decreases |s|
  {
    if s == [] {
      assert s + [c] == [c];
    } else {
      assert (s + [c])[1..] == s[1..] + [c];
      EscapeAppend(s[1..], c);
    }
  }

  /** Write a string at position i of an array. */
  method Put(dst: array<byte>, i: nat, e: seq<byte>)
    requires i + |e| <= dst.Length
    modifies dst
    ensures dst[..i] == old(dst[..i]) && dst[i..i + |e|] == e
    ensures dst[..i + |e|] == old(dst[..i]) + e
  {
    forall k | 0 <= k < |e| { dst[i + k] := e[k]; }
  }

  /** json_escape: as many whole characters as fit with a margin, then a NUL. */
  method JsonEscape(src: seq<byte>, dst: array<byte>) returns (n: nat, taken: nat)
    requires 0 !in src && dst.Length > 0
    modifies dst
    ensures n < dst.Length && dst[n] == 0 && taken <= |src|
    ensures dst[..n] == Escape(src[..taken])
    ensures taken < |src| ==> n + MARGIN >= dst.Length
    ensures |Escape(src)| + MARGIN <= dst.Length ==> taken == |src| && dst[..n] == Escape(src)
  {
    n, taken := 0, 0;
    while taken < |src| && n + MARGIN < dst.Length
      invariant taken <= |src| && n < dst.Length && (taken == 0 ==> n == 0)
      invariant dst[..n] == Escape(src[..taken])
    {
      var c := src[taken];
      assert src[..taken + 1] == src[..taken] + [c];
      EscapeAppend(src[..taken], c);
      var e := EscapeChar(c);
      Put(dst, n, e);
      n := n + |e|;
      taken := taken + 1;
    }
    EscapeLonger(src, taken);
    assert src[..|src|] == src;
    dst[n] := 0;
  }

  lemma {:induction false} EscapeLonger(s: seq<byte>, k: nat)
    requires k <= |s|
    ensures |Escape(s[..k])| <= |Escape(s)|
    ensures k < |s| ==> |Escape(s[..k])| < |Escape(s)|
    decreases |s| - k
  {
    if k == |s| {
      assert s[..k] == s;
    } else {
      assert s[..k + 1] == s[..k] + [s[k]];
      EscapeAppend(s[..k], s[k]);
      EscapeLonger(s, k + 1);
    }
  }

  // ---- reading a string back ----

  function HexValue(c: byte): (v: nat)
    ensures v < 16
  {
    if 48 <= c <= 57 then c - 48
    else if 97 <= c <= 102 then c - 97 + 10
    else if 65 <= c <= 70 then c - 65 + 10
    else 0
  }

  function CodePoint(h: seq<byte>): (cp: nat)
    requires |h| == 4
    ensures cp < 0x10000
  {
    ((HexValue(h[0]) * 16 + HexValue(h[1])) * 16 + HexValue(h[2])) * 16 + HexValue(h[3])
  }

  function Utf8(cp: nat): (b: seq<byte>)
    requires cp < 0x10000
    ensures 1 <= |b| <= 3
  {
    if cp < 0x80 then [cp]
    else if cp < 0x800 then [0xC0 + cp / 64, 0x80 + cp % 64]
    else [0xE0 + cp / 4096, 0x80 + cp / 64 % 64, 0x80 + cp % 64]
  }

  function SimpleEscape(c: byte): byte {
    if c == 110 then LF else if c == 114 then CR else if c == 116 then TAB else c
  }

  /** The text of a JSON string that starts right after its opening quote. */
  function Unescape(s: seq<byte>): seq<byte>
    decreases |s|
  {
    if s == [] then []
    else if s[0] == BACKSLASH && |s| > 1 then
      if s[1] != LOWER_U then [SimpleEscape(s[1])] + Unescape(s[2..])
      else if |s| < 6 then Unescape(s[2..])
      else Utf8(CodePoint(s[2..6])) + Unescape(s[6..])
    else if s[0] == QUOTE then []
    else [s[0]] + Unescape(s[1..])
  }

  /** One round of the loop, at position q: the bytes it writes and how far it moves. */
  function Round(s: seq<byte>, q: nat): (seq<byte>, nat)
    requires q < |s| && s[q] != QUOTE
  {
    if s[q] != BACKSLASH || q + 1 == |s| then ([s[q]], 1)
    else if s[q + 1] != LOWER_U then ([SimpleEscape(s[q + 1])], 2)
    else if q + 5 >= |s| then ([], 2)
    else (Utf8(CodePoint(s[q + 2..q + 6])), 6)
  }

  lemma UnescapeRound(s: seq<byte>, q: nat)
    requires q < |s| && s[q] != QUOTE
    ensures q + Round(s, q).1 <= |s| && Unescape(s[q..]) == Round(s, q).0 + Unescape(s[q + Round(s, q).1..])
  {
    var rest := s[q..];
    assert rest[1..] == s[q + 1..];
    if |rest| > 1 {
      assert rest[2..] == s[q + 2..];
    }
    if |rest| >= 6 {
      assert rest[2..6] == s[q + 2..q + 6] && rest[6..] == s[q + 6..];
    }
  }

  lemma UnescapeEnds(s: seq<byte>, q: nat)
    requires q <= |s| && (q == |s| || s[q] == QUOTE)
    ensures Unescape(s[q..]) == []
  {
  }

  lemma Regroup(before: seq<byte>, now: seq<byte>, s: seq<byte>, q: nat)
    requires q <= |s| && before <= now
    ensures before + (now[|before|..] + Unescape(s[q..])) == now + Unescape(s[q..])
  {
    assert before + now[|before|..] == now;
  }

  /** One character, escaped or not. */
  method DecodeOne(s: seq<byte>, q: nat, out: array<byte>, n: nat) returns (n': nat, q': nat)
    requires q < |s| && s[q] != QUOTE && n + 4 < out.Length
    modifies out
    ensures q < q' == q + Round(s, q).1 && n' < out.Length
    ensures out[..n'] == old(out[..n]) + Round(s, q).0
  {
    hide Utf8, CodePoint, SimpleEscape;
    n', q' := n, q;
    if s[q] == BACKSLASH && q + 1 < |s| {
      q' := q' + 1;
      if s[q'] == LOWER_U {
        if q' + 4 >= |s| { return n', q' + 1; }
        var e := Utf8(CodePoint(s[q' + 1..q' + 5]));
        Put(out, n', e);
        n', q' := n' + |e|, q' + 4;
      } else {
        Put(out, n', [SimpleEscape(s[q'])]);
        n' := n' + 1;
      }
    } else {
      Put(out, n', [s[q]]);
      n' := n' + 1;
    }
    q' := q' + 1;
  }

  /** The decoding loop of parse_openai_content. */
  method ParseString(s: seq<byte>, out: array<byte>) returns (n: nat)
    requires 0 !in s && out.Length > 0
    modifies out
    ensures n < out.Length && out[n] == 0
    ensures out[..n] <= Unescape(s)
    ensures |Unescape(s)| + 4 < out.Length ==> out[..n] == Unescape(s)
  {
    hide Unescape, Round;
    n := 0;
    var q := 0;
    assert s[0..] == s && out[..0] == [];
    while q < |s| && n + 4 < out.Length
      invariant q <= |s| && n < out.Length
      invariant out[..n] + Unescape(s[q..]) == Unescape(s)
      decreases |s| - q
    {
      if s[q] == QUOTE { break; }
      UnescapeRound(s, q);
      ghost var before := out[..n];
      n, q := DecodeOne(s, q, out, n);
      Regroup(before, out[..n], s, q);
    }
    if n + 4 < out.Length { UnescapeEnds(s, q); }
    out[n] := 0;
  }

  // ---- round trips ----

  lemma HexRoundTrip(d: nat)
    requires d < 16
    ensures HexValue(HexDigit(d)) == d
  {
  }

  lemma CharRoundTrip(c: byte, t: seq<byte>)
    requires c != 0
    ensures Unescape(EscapeChar(c) + t) == [c] + Unescape(t)
  {
    var u := EscapeChar(c) + t;
    if c < 0x20 && c != LF && c != CR && c != TAB {
      HexRoundTrip(c / 16);
      HexRoundTrip(c % 16);
      assert u[2..6] == [48, 48, HexDigit(c / 16), HexDigit(c % 16)];
      assert CodePoint(u[2..6]) == c;
      assert u[6..] == t;
    } else if |EscapeChar(c)| == 2 {
      assert u[2..] == t;
    } else {
      assert u[1..] == t;
    }
  }

  /** Reading back what was written, up to the closing quote, gives the text. */
  lemma {:induction false} EscapeRoundTrip(s: seq<byte>, rest: seq<byte>)
    requires 0 !in s
    ensures Unescape(Escape(s) + ([QUOTE] + rest)) == s
    decreases |s|
  {
    var tail := [QUOTE] + rest;
    if s == [] {
      assert Escape(s) + tail == tail;
    } else {
      assert Escape(s) + tail == EscapeChar(s[0]) + (Escape(s[1..]) + tail);
      CharRoundTrip(s[0], Escape(s[1..]) + tail);
      EscapeRoundTrip(s[1..], rest);
    }
  }

  predicate Continuation(b: byte) { 0x80 <= b < 0xC0 }

  /** Section 4 of RFC 3629, up to three bytes: no overlong form and no surrogate. */
  function DecodeUtf8(b: seq<byte>): Option<nat> {
    if |b| == 1 && b[0] < 0x80 then Some(b[0])
    else if |b| == 2 && 0xC2 <= b[0] < 0xE0 && Continuation(b[1]) then Some((b[0] - 0xC0) as int * 64 + (b[1] - 0x80))
    else if |b| == 3 && 0xE0 <= b[0] < 0xF0 && Continuation(b[1]) && Continuation(b[2]) then
      var cp := (b[0] - 0xE0) as int * 4096 + (b[1] - 0x80) as int * 64 + (b[2] - 0x80);
      if cp < 0x800 || 0xD800 <= cp < 0xE000 then None else Some(cp)
    else None
  }

  /** An escape gives valid UTF-8 for its code point exactly when the code point is not a surrogate. */
  lemma Utf8RoundTrip(cp: nat)
    requires cp < 0x10000
    ensures DecodeUtf8(Utf8(cp)) == if 0xD800 <= cp < 0xE000 then None else Some(cp)
  {
    if cp >= 0x800 {
      assert cp == cp / 4096 * 4096 + cp / 64 % 64 * 64 + cp % 64;
    }
  }

  // ---- against the tables of section 7 of RFC 8259 ----

  /** The value of a hexadecimal digit of either case, in ASCII. */
  predicate IsHex(c: byte, d: nat) {
    || (d < 10 && c as int == 48 + d)
    || (10 <= d < 16 && (c as int == 97 + (d - 10) || c as int == 65 + (d - 10)))
  }

  /** Four digits of either case are read as their number, and written as UTF-8. */
  lemma FourHexDigits(h: seq<byte>, a: nat, b: nat, c: nat, d: nat, t: seq<byte>)
    requires |h| == 4 && IsHex(h[0], a) && IsHex(h[1], b) && IsHex(h[2], c) && IsHex(h[3], d)
    ensures CodePoint(h) == a * 4096 + b * 256 + c * 16 + d
    ensures Unescape([92, 117] + h + t) == Utf8(a * 4096 + b * 256 + c * 16 + d) + Unescape(t)
  {
    HexIs(h[0], a);
    HexIs(h[1], b);
    HexIs(h[2], c);
    HexIs(h[3], d);
    var s := [92, 117] + h + t;
    assert s[2..6] == h && s[6..] == t;
  }

  lemma HexIs(c: byte, d: nat)
    requires IsHex(c, d)
    ensures HexValue(c) == d
  {
  }

  /** What the letter behind a backslash stands for. */
  function Meaning(letter: byte): Option<byte> {
    if letter == 34 || letter == 92 || letter == 47 then Some(letter)
    else if letter == 98 then Some(8)
    else if letter == 102 then Some(12)
    else if letter == 110 then Some(10)
    else if letter == 114 then Some(13)
    else if letter == 116 then Some(9)
    else None
  }

  /** Every two-character escape of the standard is read as what it stands for, except exactly backspace and form feed,
      which are read as the letters b and f. */
  lemma ShortEscapesExactly(letter: byte, t: seq<byte>)
    requires Meaning(letter).Some?
    ensures Unescape([92, letter] + t) == [Meaning(letter).value] + Unescape(t) <==> letter != 98 && letter != 102
    ensures letter == 98 || letter == 102 ==> Unescape([92, letter] + t) == [letter] + Unescape(t)
  {
    var s := [92, letter] + t;
    assert s[2..] == t;
    var m := Meaning(letter).value;
    assert ([m] + Unescape(t))[0] == m && Unescape(s)[0] == SimpleEscape(letter);
  }

  /** Only a quote, a backslash and control characters are written otherwise than as themselves. */
  lemma PlainCharacters(c: byte)
    ensures EscapeChar(c) == [c] <==> c >= 32 && c != 34 && c != 92
    ensures 0 < c ==> forall i :: 0 <= i < |EscapeChar(c)| ==> EscapeChar(c)[i] >= 32
  {
  }
}
