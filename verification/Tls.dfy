/** apptraffic/src/proto.c: the server name in a TLS ClientHello. */
module Tls {
  import opened Bytes

  const HANDSHAKE: byte := 22
  const CLIENT_HELLO: byte := 1
  const DOT: byte := 46

  // ---- the wire format: section 4.1.2 of RFC 8446, section 3 of RFC 6066 ----

  function U24(n: nat): (b: seq<byte>)
    requires n < 0x1000000
    ensures |b| == 3 && n == b[0] as int * 65536 + b[1] as int * 256 + b[2]
  {
    [n / 256 / 256, n / 256 % 256, n % 256]
  }

  datatype Extension =
    | ServerName(kind: byte, host: seq<byte>, moreNames: seq<byte>)
    | Other(typ: nat, body: seq<byte>)
  {
    predicate WellFormed() {
      match this
      case ServerName(_, host, more) => 5 + |host| + |more| < 0x10000
      case Other(typ, body) => 0 < typ < 0x10000 && |body| < 0x10000
    }

    function Type(): nat { if ServerName? then 0 else typ }

    function Body(): (b: seq<byte>)
      requires WellFormed()
      ensures |b| < 0x10000
    {
      match this
      case ServerName(kind, host, more) => U16(3 + |host| + |more|) + [kind] + U16(|host|) + host + more
      case Other(_, body) => body
    }

    function Encode(): seq<byte>
      requires WellFormed()
    {
      U16(Type()) + U16(|Body()|) + Body()
    }
  }

  ghost predicate AllWellFormed(exts: seq<Extension>) {
    forall e :: e in exts ==> e.WellFormed()
  }

  ghost function EncodeExtensions(exts: seq<Extension>): seq<byte>
    requires AllWellFormed(exts)
  {
    if exts == [] then [] else exts[0].Encode() + EncodeExtensions(exts[1..])
  }

  datatype ClientHello = ClientHello(
    recordVersion: nat, version: nat, random: seq<byte>, sessionId: seq<byte>,
    suites: seq<byte>, compressions: seq<byte>, extensions: seq<Extension>)
  {
    ghost predicate WellFormed() {
      && 0x0301 <= recordVersion < 0x10000 && version < 0x10000
      && |random| == 32 && |sessionId| < 256 && |suites| < 0x10000 && |compressions| < 256
      && AllWellFormed(extensions)
      && |EncodeExtensions(extensions)| < 0x10000
      && 4 + |Body()| < 0x10000
    }

    ghost function FromExtensions(): seq<byte>
      requires AllWellFormed(extensions) && |EncodeExtensions(extensions)| < 0x10000
    {
      U16(|EncodeExtensions(extensions)|) + EncodeExtensions(extensions)
    }

    ghost function FromCompressions(): seq<byte>
      requires |compressions| < 256
      requires AllWellFormed(extensions) && |EncodeExtensions(extensions)| < 0x10000
    {
      [|compressions| as byte] + compressions + FromExtensions()
    }

    ghost function FromSuites(): seq<byte>
      requires |suites| < 0x10000 && |compressions| < 256
      requires AllWellFormed(extensions) && |EncodeExtensions(extensions)| < 0x10000
    {
      U16(|suites|) + suites + FromCompressions()
    }

    ghost function Body(): seq<byte>
      requires version < 0x10000 && |sessionId| < 256 && |suites| < 0x10000 && |compressions| < 256
      requires AllWellFormed(extensions) && |EncodeExtensions(extensions)| < 0x10000
    {
      U16(version) + random + ([|sessionId| as byte] + sessionId + FromSuites())
    }

    ghost function Message(): seq<byte>
      requires WellFormed()
    {
      [CLIENT_HELLO] + U24(|Body()|) + Body()
    }

    /** One TLS record that holds the whole message. */
    ghost function Record(): seq<byte>
      requires WellFormed()
    {
      [HANDSHAKE] + U16(recordVersion) + U16(|Message()|) + Message()
    }
  }

  /** The host of the first server_name extension, if its kind is host_name, as it fits a C buffer of `cap` bytes;
      only a dotted one counts. */
  function Announced(exts: seq<Extension>, cap: nat): Option<seq<byte>>
    requires cap > 0
  {
    if exts == [] then None
    else if exts[0].ServerName? then if exts[0].kind == 0 then Shown(exts[0].host, cap) else None
    else Announced(exts[1..], cap)
  }

  /** A C string stops at its first NUL. */
  function CString(s: seq<byte>): (r: seq<byte>)
    ensures r <= s && 0 !in r
    ensures 0 !in s ==> r == s
  {
    if s == [] || s[0] == 0 then [] else [s[0]] + CString(s[1..])
  }

  function Shown(name: seq<byte>, cap: nat): Option<seq<byte>>
    requires cap > 0
  {
    var host := CString(name[..Min(|name|, cap - 1)]);
    if DOT in host then Some(host) else None
  }

  // ---- what the parser computes, on suffixes of the data ----

  function Num16(d: seq<byte>): (n: nat)
    requires |d| >= 2
    ensures n < 0x10000
  {
    Be16(d[0], d[1])
  }

  function Num24(d: seq<byte>): nat
    requires |d| >= 3
  {
    Be24(d[0], d[1], d[2])
  }

  function ScanExtensions(w: seq<byte>, cap: nat): Option<seq<byte>>
    requires cap > 0
    decreases |w|
  {
    if |w| < 4 then None
    else
      var len := Num16(w[2..]);
      var rest := w[4..];
      if Num16(w) == 0 && len <= |rest| then NameIn(rest, cap)
      else if len <= |rest| then ScanExtensions(rest[len..], cap)
      else None
  }

  /** The first name of a server_name extension, read up to the end of all extensions. */
  function NameIn(rest: seq<byte>, cap: nat): Option<seq<byte>>
    requires cap > 0
  {
    if |rest| < 5 then None
    else
      var n := Num16(rest[3..]);
      if rest[2] == 0 && n > 0 && 5 + n <= |rest| then Shown(rest[5..5 + n], cap) else None
  }

  function FromExtensionsSni(d: seq<byte>, cap: nat): Option<seq<byte>>
    requires cap > 0
  {
    if |d| < 2 then None else ScanExtensions(d[2..2 + Min(Num16(d), |d| - 2)], cap)
  }

  function FromCompressionsSni(d: seq<byte>, cap: nat): Option<seq<byte>>
    requires cap > 0
  {
    if |d| < 1 || 1 + d[0] > |d| then None else FromExtensionsSni(d[1 + d[0]..], cap)
  }

  function FromSuitesSni(d: seq<byte>, cap: nat): Option<seq<byte>>
    requires cap > 0
  {
    if |d| < 2 || 2 + Num16(d) > |d| then None else FromCompressionsSni(d[2 + Num16(d)..], cap)
  }

  function BodySni(d: seq<byte>, cap: nat): Option<seq<byte>>
    requires cap > 0
  {
    if |d| < 38 || 35 + d[34] > |d| then None else FromSuitesSni(d[35 + d[34]..], cap)
  }

  function MessageSni(d: seq<byte>, cap: nat): Option<seq<byte>>
    requires cap > 0
  {
    if |d| < 4 || d[0] != CLIENT_HELLO || 4 + Num24(d[1..]) > |d| then None else BodySni(d[4..], cap)
  }

  function SniOf(d: seq<byte>, cap: nat): Option<seq<byte>> {
    if |d| < 5 || cap == 0 || d[0] != HANDSHAKE || Num16(d[1..]) < 0x0301 || 5 + Num16(d[3..]) > |d| then None
    else MessageSni(d[5..], cap)
  }

  // ---- the cursor-driven parser ----

  method ParseName(data: seq<byte>, start: nat, extEnd: nat, cap: nat) returns (r: Option<seq<byte>>)
    requires cap > 0 && start <= extEnd <= |data|
    ensures r == NameIn(data[start..extEnd], cap)
  {
    hide CString, Shown;
    if start + 5 > extEnd { return None; }
    var nameType := data[start + 2];
    var nameLen := Be16(data[start + 3], data[start + 4]);
    var pos := start + 5;
    if nameType == 0 && nameLen > 0 && pos + nameLen <= extEnd {
      SliceSlice(data, start, extEnd, 5, 5 + nameLen);
      r := CopyHost(data, pos, nameLen, cap);
      return;
    }
    return None;
  }

  /** Copy at most `cap - 1` bytes and terminate them; keep the result if it has a dot. */
  method CopyHost(data: seq<byte>, pos: nat, nameLen: nat, cap: nat) returns (r: Option<seq<byte>>)
    requires cap > 0 && pos + nameLen <= |data|
    ensures r == Shown(data[pos..pos + nameLen], cap)
  {
    hide CString;
    var copyLen := if nameLen < cap - 1 then nameLen else cap - 1;
    assert data[pos..pos + copyLen] == data[pos..pos + nameLen][..copyLen];
    var host := CString(data[pos..pos + copyLen]);
    r := if DOT in host then Some(host) else None;
  }

  method ParseExtensions(data: seq<byte>, start: nat, extEnd: nat, cap: nat) returns (r: Option<seq<byte>>)
    requires cap > 0 && start <= extEnd <= |data|
    ensures r == ScanExtensions(data[start..extEnd], cap)
  {
    hide NameIn, Be16;
    var pos: int := start;
    ghost var answer := ScanExtensions(data[start..extEnd], cap);
    while pos + 4 <= extEnd
      invariant start <= pos
      invariant answer == if pos <= extEnd then ScanExtensions(data[pos..extEnd], cap) else None
      decreases extEnd - pos
    {
      var extType := Be16(data[pos], data[pos + 1]);
      var extDataLen := Be16(data[pos + 2], data[pos + 3]);
      pos := pos + 4;
      SliceSlice(data, pos - 4, extEnd, 4, extEnd - (pos - 4));
      if extType == 0 && pos + extDataLen <= extEnd {
        r := ParseName(data, pos, extEnd, cap);
        return;
      }
      if pos + extDataLen <= extEnd {
        SliceSlice(data, pos, extEnd, extDataLen, extEnd - pos);
      }
      pos := pos + extDataLen;
    }
    return None;
  }

  /** From the length of the session id on. */
  method ParseVectors(data: seq<byte>, start: nat, cap: nat) returns (r: Option<seq<byte>>)
    requires cap > 0 && start < |data|
    ensures r == if start + 1 + data[start] > |data| then None else FromSuitesSni(data[start + 1 + data[start]..], cap)
  {
    hide *;
    var len := |data|;
    var pos := start + 1 + data[start];
    if pos > len { return None; }
    SuitesAt(data, pos, cap);
    if pos + 2 > len { return None; }
    var csLen := Be16(data[pos], data[pos + 1]);
    pos := pos + 2 + csLen;
    if pos > len { return None; }
    CompressionsAt(data, pos, cap);
    if pos + 1 > len { return None; }
    var cmLen := data[pos] as int;
    pos := pos + 1 + cmLen;
    if pos > len { return None; }
    ExtensionsAt(data, pos, cap);
    if pos + 2 > len { return None; }
    var extLen := Be16(data[pos], data[pos + 1]);
    pos := pos + 2;
    var extEnd := pos + extLen;
    if extEnd > len { extEnd := len; }
    r := ParseExtensions(data, pos, extEnd, cap);
  }

  lemma SuitesAt(data: seq<byte>, pos: nat, cap: nat)
    requires cap > 0 && pos <= |data|
    ensures FromSuitesSni(data[pos..], cap) ==
            if pos + 2 > |data| || pos + 2 + Be16(data[pos], data[pos + 1]) > |data| then None
            else FromCompressionsSni(data[pos + 2 + Be16(data[pos], data[pos + 1])..], cap)
  {
    hide FromCompressionsSni, Be16;
    if pos + 2 <= |data| {
      var n := 2 + Be16(data[pos], data[pos + 1]);
      if pos + n <= |data| { DropDrop(data, pos, n); }
    }
  }

  lemma CompressionsAt(data: seq<byte>, pos: nat, cap: nat)
    requires cap > 0 && pos <= |data|
    ensures FromCompressionsSni(data[pos..], cap) ==
            if pos + 1 > |data| || pos + 1 + data[pos] > |data| then None
            else FromExtensionsSni(data[pos + 1 + data[pos]..], cap)
  {
    hide FromExtensionsSni;
    if pos + 1 <= |data| && pos + 1 + data[pos] <= |data| {
      DropDrop(data, pos, 1 + data[pos] as int);
    }
  }

  lemma ExtensionsAt(data: seq<byte>, pos: nat, cap: nat)
    requires cap > 0 && pos <= |data|
    ensures FromExtensionsSni(data[pos..], cap) ==
            if pos + 2 > |data| then None
            else
              var extEnd := pos + 2 + Be16(data[pos], data[pos + 1]);
              ScanExtensions(data[pos + 2..if extEnd > |data| then |data| else extEnd], cap)
  {
    hide ScanExtensions, Be16;
    if pos + 2 <= |data| {
      var n := Min(Be16(data[pos], data[pos + 1]), |data| - pos - 2);
      assert data[pos..][2..2 + n] == data[pos + 2..pos + 2 + n];
    }
  }

  method ParseSni(data: seq<byte>, cap: nat) returns (r: Option<seq<byte>>)
    ensures r == SniOf(data, cap)
  {
    hide FromSuitesSni, Be24;
    var len := |data|;
    if len < 5 || cap == 0 { return None; }
    var recordLen := Be16(data[3], data[4]);
    if data[0] != HANDSHAKE || Be16(data[1], data[2]) < 0x0301 { return None; }
    var pos := 5;
    if pos + recordLen > len { return None; }
    if pos + 4 > len { return None; }
    var hsType := data[pos];
    var hsLen := Be24(data[pos + 1], data[pos + 2], data[pos + 3]);
    pos := pos + 4;
    if hsType != CLIENT_HELLO || pos + hsLen > len { return None; }
    DropDrop(data, 5, 4);
    if pos + 38 > len { return None; }
    pos := pos + 34;
    r := ParseVectors(data, pos, cap);
    if pos + 1 + data[pos] <= len { DropDrop(data, 9, 35 + data[pos] as int); }
  }

  // ---- parsing undoes encoding ----

  lemma Num16Of(n: nat, tail: seq<byte>)
    requires n < 0x10000
    ensures Num16(U16(n) + tail) == n
  {
  }

  lemma Num24Of(n: nat, tail: seq<byte>)
    requires n < 0x1000000
    ensures Num24(U24(n) + tail) == n
  {
  }

  lemma NameRoundTrip(e: Extension, later: seq<byte>, cap: nat)
    requires cap > 0 && e.WellFormed() && e.ServerName?
    ensures NameIn(e.Body() + later, cap) == if e.kind == 0 then Shown(e.host, cap) else None
  {
    hide NameIn, Shown, U16;
    var n, listed := |e.host|, e.moreNames + later;
    assert e.Body() + later == U16(3 + n + |e.moreNames|) + [e.kind] + (U16(n) + (e.host + listed));
    assert (e.host + listed)[..n] == e.host;
    NameInIs(U16(3 + n + |e.moreNames|), e.kind, n, e.host + listed, cap);
    ShownEmpty(cap);
  }

  lemma NameInIs(length: seq<byte>, kind: byte, n: nat, tail: seq<byte>, cap: nat)
    requires cap > 0 && |length| == 2 && n <= |tail| && n < 0x10000
    ensures NameIn(length + [kind] + (U16(n) + tail), cap) == if kind == 0 && n > 0 then Shown(tail[..n], cap) else None
  {
    hide Shown, U16, Num16;
    var rest := length + [kind] + (U16(n) + tail);
    assert rest[3..] == U16(n) + tail;
    Num16Of(n, tail);
    assert rest[5..5 + n] == tail[..n];
  }

  lemma ShownEmpty(cap: nat)
    requires cap > 0
    ensures Shown([], cap) == None
  {
  }

  lemma {:induction false} ScanRoundTrip(exts: seq<Extension>, cap: nat)
    requires cap > 0 && AllWellFormed(exts)
    ensures ScanExtensions(EncodeExtensions(exts), cap) == Announced(exts, cap)
  {
    if exts != [] {
      var e, later := exts[0], EncodeExtensions(exts[1..]);
      assert e in exts;
      var w := EncodeExtensions(exts);
      assert w == U16(e.Type()) + U16(|e.Body()|) + (e.Body() + later);
      assert w[2..] == U16(|e.Body()|) + (e.Body() + later);
      assert w[4..] == e.Body() + later;
      assert Num16(w) == e.Type() && Num16(w[2..]) == |e.Body()|;
      if e.ServerName? {
        NameRoundTrip(e, later, cap);
      } else {
        assert w[4..][|e.Body()|..] == later;
        ScanRoundTrip(exts[1..], cap);
      }
    }
  }

  lemma ExtensionsLayer(ch: ClientHello, t: seq<byte>, cap: nat)
    requires cap > 0 && ch.WellFormed()
    ensures FromExtensionsSni(ch.FromExtensions() + t, cap) == Announced(ch.extensions, cap)
  {
    var w := EncodeExtensions(ch.extensions);
    var d := ch.FromExtensions() + t;
    assert d == U16(|w|) + (w + t);
    assert d[2..2 + |w|] == w;
    ScanRoundTrip(ch.extensions, cap);
  }

  lemma CompressionsLayer(ch: ClientHello, t: seq<byte>, cap: nat)
    requires cap > 0 && ch.WellFormed()
    ensures FromCompressionsSni(ch.FromCompressions() + t, cap) == Announced(ch.extensions, cap)
  {
    var d := ch.FromCompressions() + t;
    assert d == [|ch.compressions| as byte] + ch.compressions + (ch.FromExtensions() + t);
    assert d[1 + |ch.compressions|..] == ch.FromExtensions() + t;
    ExtensionsLayer(ch, t, cap);
  }

  lemma SuitesLayer(ch: ClientHello, t: seq<byte>, cap: nat)
    requires cap > 0 && ch.WellFormed()
    ensures FromSuitesSni(ch.FromSuites() + t, cap) == Announced(ch.extensions, cap)
  {
    hide FromCompressionsSni, EncodeExtensions, Announced, ClientHello.FromCompressions;
    var d := ch.FromSuites() + t;
    assert d == U16(|ch.suites|) + ch.suites + (ch.FromCompressions() + t);
    assert Num16(d) == |ch.suites|;
    assert d[2 + |ch.suites|..] == ch.FromCompressions() + t;
    CompressionsLayer(ch, t, cap);
  }

  lemma BodyLayer(ch: ClientHello, t: seq<byte>, cap: nat)
    requires cap > 0 && ch.WellFormed()
    ensures BodySni(ch.Body() + t, cap) == Announced(ch.extensions, cap)
  {
    hide FromSuitesSni, EncodeExtensions, Announced;
    var d := ch.Body() + t;
    var n := |ch.sessionId|;
    assert d == U16(ch.version) + ch.random + [n as byte] + ch.sessionId + (ch.FromSuites() + t);
    assert d[34] == n;
    assert d[35 + n..] == ch.FromSuites() + t;
    SuitesLayer(ch, t, cap);
  }

  lemma MessageLayer(ch: ClientHello, t: seq<byte>, cap: nat)
    requires cap > 0 && ch.WellFormed()
    ensures MessageSni(ch.Message() + t, cap) == Announced(ch.extensions, cap)
  {
    hide Num24, U24, BodySni, EncodeExtensions, ClientHello.Body, Announced;
    Num24Of(|ch.Body()|, ch.Body() + t);
    var d := ch.Message() + t;
    assert d == [CLIENT_HELLO] + U24(|ch.Body()|) + (ch.Body() + t);
    assert d[1..] == U24(|ch.Body()|) + (ch.Body() + t);
    assert Num24(d[1..]) == |ch.Body()|;
    assert d[4..] == ch.Body() + t;
    BodyLayer(ch, t, cap);
  }

  /** The parser finds in any encoded ClientHello exactly the name it announces, whatever follows the record. */
  lemma RecordRoundTrip(ch: ClientHello, t: seq<byte>, cap: nat)
    requires cap > 0 && ch.WellFormed()
    ensures SniOf(ch.Record() + t, cap) == Announced(ch.extensions, cap)
  {
    hide Num16, U16, U24, MessageSni, EncodeExtensions, ClientHello.Body, Announced;
    Num16Of(ch.recordVersion, U16(|ch.Message()|) + (ch.Message() + t));
    Num16Of(|ch.Message()|, ch.Message() + t);
    var d := ch.Record() + t;
    assert d == [HANDSHAKE] + U16(ch.recordVersion) + U16(|ch.Message()|) + (ch.Message() + t);
    assert d[1..] == U16(ch.recordVersion) + (U16(|ch.Message()|) + (ch.Message() + t));
    assert d[3..] == U16(|ch.Message()|) + (ch.Message() + t);
    assert Num16(d[1..]) == ch.recordVersion && Num16(d[3..]) == |ch.Message()|;
    assert d[5..] == ch.Message() + t;
    MessageLayer(ch, t, cap);
    assert |d| >= 5 + |ch.Message()|;
  }

  // ---- what that means, in terms of the hello alone ----

  /** The i-th extension is the first server_name extension. */
  predicate FirstName(exts: seq<Extension>, i: nat) {
    i < |exts| && exts[i].ServerName? && forall j :: 0 <= j < i ==> !exts[j].ServerName?
  }

  /** The bytes a C string of capacity cap shows of a name: not more than cap - 1, and not from a NUL on. */
  predicate ShownBytes(name: seq<byte>, cap: nat, g: seq<byte>) {
    && g <= name && |g| < cap && 0 !in g
    && (|g| == |name| || |g| == cap - 1 || name[|g|] == 0)
  }

  lemma {:induction false} CStringIs(s: seq<byte>, g: seq<byte>)
    requires g <= s && 0 !in g && (|g| == |s| || s[|g|] == 0)
    ensures CString(s) == g
    decreases |s|
  {
    if g == [] {
      assert s == [] || s[0] == 0;
    } else {
      assert s[0] == g[0] && g[0] in g;
      CStringIs(s[1..], g[1..]);
      assert g == [g[0]] + g[1..];
    }
  }

  lemma ShownIs(name: seq<byte>, cap: nat, g: seq<byte>)
    requires cap > 0 && ShownBytes(name, cap, g)
    ensures Shown(name, cap) == if 46 in g then Some(g) else None
  {
    CStringIs(name[..Min(|name|, cap - 1)], g);
  }

  lemma {:induction false} AnnouncedFirst(exts: seq<Extension>, cap: nat, i: nat)
    requires cap > 0 && FirstName(exts, i)
    ensures Announced(exts, cap) == if exts[i].kind == 0 then Shown(exts[i].host, cap) else None
    decreases |exts|
  {
    if i > 0 {
      assert exts[1..][i - 1] == exts[i];
      AnnouncedFirst(exts[1..], cap, i - 1);
    }
  }

  lemma {:induction false} AnnouncedNone(exts: seq<Extension>, cap: nat)
    requires cap > 0 && forall j :: 0 <= j < |exts| ==> !exts[j].ServerName?
    ensures Announced(exts, cap) == None
    decreases |exts|
  {
    if exts != [] {
      AnnouncedNone(exts[1..], cap);
    }
  }

  /** Every encoded ClientHello gives back what its first server name shows, if that is a host name with a dot. */
  lemma HostGivenBack(ch: ClientHello, t: seq<byte>, cap: nat, i: nat, g: seq<byte>)
    requires cap > 0 && ch.WellFormed() && FirstName(ch.extensions, i) && ShownBytes(ch.extensions[i].host, cap, g)
    ensures SniOf(ch.Record() + t, cap) == if ch.extensions[i].kind == 0 && 46 in g then Some(g) else None
  {
    hide SniOf, Announced, Shown, ShownBytes;
    RecordRoundTrip(ch, t, cap);
    AnnouncedFirst(ch.extensions, cap, i);
    ShownIs(ch.extensions[i].host, cap, g);
  }

  /** A name without NUL: the whole of it if it fits, else as many bytes as fit. */
  lemma WholeHostGivenBack(ch: ClientHello, t: seq<byte>, cap: nat, i: nat)
    requires cap > 0 && ch.WellFormed() && FirstName(ch.extensions, i)
    requires ch.extensions[i].kind == 0 && 0 !in ch.extensions[i].host
    ensures var h := ch.extensions[i].host;
            && (|h| < cap ==> SniOf(ch.Record() + t, cap) == if 46 in h then Some(h) else None)
            && (|h| >= cap ==> SniOf(ch.Record() + t, cap) == if 46 in h[..cap - 1] then Some(h[..cap - 1]) else None)
  {
    hide SniOf;
    var h := ch.extensions[i].host;
    HostGivenBack(ch, t, cap, i, if |h| < cap then h else h[..cap - 1]);
  }

  /** Without a server name there is none. */
  lemma NoHostGivenBack(ch: ClientHello, t: seq<byte>, cap: nat)
    requires cap > 0 && ch.WellFormed() && forall j :: 0 <= j < |ch.extensions| ==> !ch.extensions[j].ServerName?
    ensures SniOf(ch.Record() + t, cap) == None
  {
    hide SniOf, Announced;
    RecordRoundTrip(ch, t, cap);
    AnnouncedNone(ch.extensions, cap);
  }

  // ---- on any input: a host is never made up ----

  /** The bytes of h stand somewhere in d. */
  ghost predicate Within(h: seq<byte>, d: seq<byte>) {
    exists p: nat :: StandsAt(h, d, p)
  }

  predicate StandsAt(h: seq<byte>, d: seq<byte>, p: nat) {
    p + |h| <= |d| && d[p..p + |h|] == h
  }

  lemma WithinSlice(h: seq<byte>, d: seq<byte>, from: nat, to: nat)
    requires from <= to <= |d| && Within(h, d[from..to])
    ensures Within(h, d)
  {
    var p: nat :| StandsAt(h, d[from..to], p);
    SliceSlice(d, from, to, p, p + |h|);
    assert StandsAt(h, d, from + p);
  }

  lemma WithinTail(h: seq<byte>, d: seq<byte>, from: nat)
    requires from <= |d| && Within(h, d[from..])
    ensures Within(h, d)
  {
    assert d[from..] == d[from..|d|];
    WithinSlice(h, d, from, |d|);
  }

  predicate GoodHost(h: seq<byte>, cap: nat) { 46 in h && 0 !in h && |h| < cap }

  lemma ShownFromName(name: seq<byte>, cap: nat, h: seq<byte>)
    requires cap > 0 && Shown(name, cap) == Some(h)
    ensures GoodHost(h, cap) && Within(h, name)
  {
    assert name[0..|h|] == h;
    assert StandsAt(h, name, 0);
  }

  lemma {:induction false} ScanFromTheData(w: seq<byte>, cap: nat, h: seq<byte>)
    requires cap > 0 && ScanExtensions(w, cap) == Some(h)
    ensures GoodHost(h, cap) && Within(h, w)
    decreases |w|
  {
    hide Shown, Num16, Within;
    var len, rest := Num16(w[2..]), w[4..];
    if Num16(w) == 0 && len <= |rest| {
      var n := Num16(rest[3..]);
      ShownFromName(rest[5..5 + n], cap, h);
      WithinSlice(h, rest, 5, 5 + n);
    } else {
      ScanFromTheData(rest[len..], cap, h);
      WithinTail(h, rest, len);
    }
    WithinTail(h, w, 4);
  }

  /** The checks on the headers. */
  lemma SniHeader(d: seq<byte>, cap: nat, h: seq<byte>)
    requires SniOf(d, cap) == Some(h)
    ensures |d| >= 9 && d[0] == 22 && d[1] as int * 256 + d[2] as int >= 0x0301
    ensures |d| >= 5 + d[3] as int * 256 + d[4] as int
    ensures d[5] == 1 && |d| >= 9 + d[6] as int * 65536 + d[7] as int * 256 + d[8] as int
  {
    hide BodySni;
    var message := d[5..];
    assert message[1..][0] == d[6] && message[1..][1] == d[7] && message[1..][2] == d[8];
    assert d[1..][0] == d[1] && d[1..][1] == d[2] && d[3..][0] == d[3] && d[3..][1] == d[4];
  }

  /** Whatever the input is: a reported host has a dot, no NUL, fits the buffer, and stands in the data of a handshake
      record with a ClientHello. */
  lemma SniFromTheData(d: seq<byte>, cap: nat, h: seq<byte>)
    requires SniOf(d, cap) == Some(h)
    ensures GoodHost(h, cap) && Within(h, d)
    ensures |d| >= 9 && d[0] == 22 && d[1] as int * 256 + d[2] as int >= 0x0301
    ensures |d| >= 5 + d[3] as int * 256 + d[4] as int
    ensures d[5] == 1 && |d| >= 9 + d[6] as int * 65536 + d[7] as int * 256 + d[8] as int
  {
    hide Within, ScanExtensions, Num16, Num24;
    SniHeader(d, cap, h);
    var message := d[5..];
    var body := message[4..];
    var suites := body[35 + body[34]..];
    var compressions := suites[2 + Num16(suites)..];
    var exts := compressions[1 + compressions[0]..];
    var end := 2 + Min(Num16(exts), |exts| - 2);
    ScanFromTheData(exts[2..end], cap, h);
    WithinSlice(h, exts, 2, end);
    WithinTail(h, compressions, 1 + compressions[0] as int);
    WithinTail(h, suites, 2 + Num16(suites));
    WithinTail(h, body, 35 + body[34] as int);
    WithinTail(h, message, 4);
    WithinTail(h, d, 5);
  }
}
