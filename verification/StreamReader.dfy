/** dav-bridge/src/dav-bridge.c: the bounded reader of the request body. */
module StreamReader {
  import opened Bytes

  const CHUNK_SIZE: nat := 65536
  const CR: byte := 13
  const LF: byte := 10
  const HEADER_END: seq<byte> := [CR, LF, CR, LF]

  // ---- substrings ----

  predicate OccursAt(hay: seq<byte>, pat: seq<byte>, i: nat) {
    i + |pat| <= |hay| && hay[i..i + |pat|] == pat
  }

  ghost predicate FreeBefore(hay: seq<byte>, pat: seq<byte>, n: nat) {
    forall i :: 0 <= i < n ==> !OccursAt(hay, pat, i)
  }

  ghost predicate FirstAt(hay: seq<byte>, pat: seq<byte>, d: nat) {
    OccursAt(hay, pat, d) && FreeBefore(hay, pat, d)
  }

  ghost predicate Absent(hay: seq<byte>, pat: seq<byte>) {
    FreeBefore(hay, pat, |hay| + 1)
  }

  lemma FirstIsUnique(hay: seq<byte>, pat: seq<byte>, d: nat, e: nat)
    requires FirstAt(hay, pat, d) && FirstAt(hay, pat, e)
    ensures d == e
  {
  }

  /** An occurrence inside a window of the input is one in the input, and the other way round. */
  lemma WindowOccurrence(u: seq<byte>, pat: seq<byte>, from: nat, n: nat, i: nat)
    requires from + n <= |u| && i + |pat| <= n
    ensures OccursAt(u[from..from + n], pat, i) <==> OccursAt(u, pat, from + i)
  {
    SliceSlice(u, from, from + n, i, i + |pat|);
  }

  /** find_bytes, on the buffered bytes `hay[..hlen]`. */
  method FindBytes(hay: array<byte>, hlen: nat, from: nat, needle: seq<byte>) returns (r: Option<nat>)
    requires hlen <= hay.Length
    ensures r.Some? ==>
              && from <= r.value && needle != []
              && OccursAt(hay[..hlen], needle, r.value)
              && forall i :: from <= i < r.value ==> !OccursAt(hay[..hlen], needle, i)
    ensures r == None ==> needle == [] || forall i :: from <= i ==> !OccursAt(hay[..hlen], needle, i)
  {
    if from > hlen || |needle| == 0 || |needle| > hlen - from { return None; }
    var i := from;
    while i + |needle| <= hlen
      invariant from <= i
      invariant forall j :: from <= j < i ==> !OccursAt(hay[..hlen], needle, j)
      decreases hlen - i
    {
      assert hay[..hlen][i..i + |needle|] == hay[i..i + |needle|];
      if hay[i..i + |needle|] == needle { return Some(i); }
      i := i + 1;
    }
    return None;
  }

  // ---- standard input, delivered in pieces of any size ----

  class Stdin {
    var rest: seq<byte>

    constructor (input: seq<byte>)
      ensures rest == input
    {
      rest := input;
    }

    /** fread: at least one byte unless the input is exhausted, at most n. */
    method Fread(buf: array<byte>, off: nat, n: nat) returns (got: nat)
      requires off + n <= buf.Length
      modifies this, buf
      ensures got <= n && got <= |old(rest)|
      ensures got == 0 <==> n == 0 || old(rest) == []
      ensures rest == old(rest)[got..]
      ensures buf[..off] == old(buf[..off])
      ensures buf[off..off + got] == old(rest)[..got]
    {
      if n == 0 || rest == [] {
        assert rest[0..] == rest && buf[off..off + 0] == rest[..0];
        return 0;
      }
      var k: nat :| 1 <= k <= n && k <= |rest|;
      forall i | 0 <= i < k { buf[off + i] := rest[i]; }
      assert buf[off..off + k] == rest[..k];
      rest := rest[k..];
      return k;
    }
  }

  /** An output file: fwrite may fall short. */
  class Sink {
    var written: seq<byte>
    var broken: bool

    constructor ()
      ensures written == [] && !broken
    {
      written, broken := [], false;
    }

    method Write(data: seq<byte>) returns (n: nat)
      modifies this
      ensures n <= |data| && written == old(written) + data[..n]
      ensures broken <==> old(broken) || n < |data|
    {
      n :| 0 <= n <= |data|;
      written := written + data[..n];
      broken := broken || n < |data|;
    }
  }

  /** The bytes given to MD5_Update. */
  class Digest {
    var input: seq<byte>

    constructor ()
      ensures input == []
    {
      input := [];
    }

    method Update(data: seq<byte>)
      modifies this
      ensures input == old(input) + data
    {
      input := input + data;
    }
  }

  // ---- what a reader finds in the input, however it is delivered ----

  /** A line without its terminator and without any CR, and what follows it. */
  function LineOf(u: seq<byte>, acc: seq<byte>, cap: nat): Option<(seq<byte>, seq<byte>)> {
    if u == [] then None
    else if u[0] == LF then Some((acc, u[1..]))
    else if |acc| + 1 >= cap then None
    else LineOf(u[1..], if u[0] != CR then acc + [u[0]] else acc, cap)
  }

  predicate EndsHeaders(h: seq<byte>) {
    |h| >= 4 && h[|h| - 4..] == HEADER_END
  }

  /** The part headers up to and with the first blank line, and what follows. */
  function HeadersOf(u: seq<byte>, acc: seq<byte>, cap: nat): Option<(seq<byte>, seq<byte>)> {
    if u == [] || |acc| + 1 >= cap then None
    else if EndsHeaders(acc + [u[0]]) then Some((acc + [u[0]], u[1..]))
    else HeadersOf(u[1..], acc + [u[0]], cap)
  }

  datatype CopyResult = Copied | Malformed | WriteError | TooLarge

  /** What copying up to the delimiter comes to on input u, when every write succeeds. */
  ghost predicate CopyOutcome(u: seq<byte>, pat: seq<byte>, max: nat, rc: CopyResult) {
    if exists d: nat :: FirstAt(u, pat, d) then
      var d: nat :| FirstAt(u, pat, d);
      rc == if d <= max then Copied else TooLarge
    else
      rc == if |u| - (|pat| - 1) <= max then Malformed else TooLarge
  }

  lemma SuffixOccurrence(u: seq<byte>, pat: seq<byte>, from: nat, i: nat)
    requires from <= |u|
    ensures OccursAt(u[from..], pat, i) <==> OccursAt(u, pat, from + i)
  {
    if from + i + |pat| <= |u| {
      WindowOccurrence(u, pat, from, |u| - from, i);
      assert u[from..from + (|u| - from)] == u[from..];
    }
  }

  lemma OccursWithin(u: seq<byte>, pat: seq<byte>, i: nat)
    requires OccursAt(u, pat, i)
    ensures i + |pat| <= |u|
  {
  }

  lemma AppendMore(base: seq<byte>, u: seq<byte>, m: nat, n: nat)
    requires m + n <= |u|
    ensures base + u[..m] + u[m..][..n] == base + u[..m + n]
  {
    TakeMore(u, m, n);
    assert base + (u[..m] + u[m..][..n]) == base + u[..m] + u[m..][..n];
  }

  lemma SearchedOn(u: seq<byte>, pat: seq<byte>, total: nat, n: nat, found: bool)
    requires total <= |u| && FreeBefore(u, pat, total) && FreeBefore(u[total..], pat, n)
    requires found ==> FirstAt(u[total..], pat, n)
    ensures FreeBefore(u, pat, total + n)
    ensures found ==> FirstAt(u, pat, total + n)
  {
    forall i | total <= i < total + n ensures !OccursAt(u, pat, i) {
      SuffixOccurrence(u, pat, total, i - total);
    }
    SuffixOccurrence(u, pat, total, n);
  }

  /** The first total bytes of u, all before the delimiter, have gone to the file and the digest. */
  ghost predicate CopiedSoFar(u: seq<byte>, pat: seq<byte>, total: nat, rest: seq<byte>,
                              w: seq<byte>, written: seq<byte>, d: seq<byte>, digested: seq<byte>)
  {
    && FreeBefore(u, pat, total)
    && total <= |u| && rest == u[total..]
    && written == w + u[..total] && digested == d + u[..total]
  }

  lemma NothingCopied(u: seq<byte>, pat: seq<byte>, w: seq<byte>, d: seq<byte>)
    ensures CopiedSoFar(u, pat, 0, u, w, w, d, d)
  {
  }

  lemma CopiedMore(u: seq<byte>, pat: seq<byte>, total: nat, rest: seq<byte>,
                   w: seq<byte>, written: seq<byte>, d: seq<byte>, digested: seq<byte>, n: nat, found: bool)
    requires CopiedSoFar(u, pat, total, rest, w, written, d, digested)
    requires n <= |rest| && FreeBefore(rest, pat, n) && (found ==> FirstAt(rest, pat, n))
    ensures CopiedSoFar(u, pat, total + n, rest[n..], w, written + rest[..n], d, digested + rest[..n])
    ensures found ==> FirstAt(u, pat, total + n)
  {
    hide FreeBefore, FirstAt;
    SearchedOn(u, pat, total, n, found);
    DropDrop(u, total, n);
    AppendMore(w, u, total, n);
    AppendMore(d, u, total, n);
  }

  lemma OutcomeFound(u: seq<byte>, pat: seq<byte>, max: nat, d: nat)
    requires FirstAt(u, pat, d)
    ensures CopyOutcome(u, pat, max, if d <= max then Copied else TooLarge)
  {
    forall e: nat | FirstAt(u, pat, e) ensures e == d {
      FirstIsUnique(u, pat, e, d);
    }
  }

  /** What copying up to the delimiter has done when it stops: u was unread before, rest is unread now. */
  ghost predicate CopyDone(u: seq<byte>, pat: seq<byte>, max: nat, rc: CopyResult, total: nat, rest: seq<byte>,
                           w: seq<byte>, written: seq<byte>, d: seq<byte>, digested: seq<byte>)
  {
    && (rc != WriteError ==> CopyOutcome(u, pat, max, rc))
    && (rc == Copied ==>
          && FirstAt(u, pat, total) && rest == u[total..]
          && written == w + u[..total] && digested == d + u[..total])
  }

  lemma WriteFailed(u: seq<byte>, pat: seq<byte>, max: nat, total: nat, rest: seq<byte>,
                    w: seq<byte>, written: seq<byte>, d: seq<byte>, digested: seq<byte>)
    ensures CopyDone(u, pat, max, WriteError, total, rest, w, written, d, digested)
  {
  }

  lemma EndOfInput(u: seq<byte>, pat: seq<byte>, max: nat, total: nat, rest: seq<byte>,
                   w: seq<byte>, written: seq<byte>, d: seq<byte>, digested: seq<byte>)
    requires CopiedSoFar(u, pat, total, rest, w, written, d, digested)
    requires pat != [] && |rest| < |pat| && total <= max
    ensures CopyDone(u, pat, max, Malformed, total, rest, w, written, d, digested)
  {
  }

  lemma PastLimit(u: seq<byte>, pat: seq<byte>, max: nat, total: nat, rest: seq<byte>,
                  w: seq<byte>, written: seq<byte>, d: seq<byte>, digested: seq<byte>, found: bool)
    requires CopiedSoFar(u, pat, total, rest, w, written, d, digested)
    requires pat != [] && max < total
    requires if found then FirstAt(u, pat, total) else |pat| - 1 <= |rest|
    ensures CopyDone(u, pat, max, TooLarge, total, rest, w, written, d, digested)
  {
  }

  lemma FoundInTime(u: seq<byte>, pat: seq<byte>, max: nat, total: nat, rest: seq<byte>,
                    w: seq<byte>, written: seq<byte>, d: seq<byte>, digested: seq<byte>)
    requires CopiedSoFar(u, pat, total, rest, w, written, d, digested)
    requires FirstAt(u, pat, total) && total <= max
    ensures CopyDone(u, pat, max, Copied, total, rest, w, written, d, digested)
  {
    OutcomeFound(u, pat, max, total);
  }

  class Reader {
    const stdin: Stdin
    const buf: array<byte>
    var len: nat
    var pos: nat

    ghost predicate Valid()
      reads this, stdin, buf
    {
      pos <= len <= buf.Length == CHUNK_SIZE
    }

    /** The input not yet handed to the caller: what is buffered, then what stdin still holds. */
    ghost function Unread(): seq<byte>
      requires Valid()
      reads this, stdin, buf
    {
      buf[pos..len] + stdin.rest
    }

    constructor (input: Stdin)
      ensures Valid() && fresh(buf) && stdin == input && Unread() == input.rest
    {
      stdin := input;
      buf := new byte[CHUNK_SIZE](_ => 0);
      len, pos := 0, 0;
    }

    method Fill() returns (ok: bool)
      requires Valid() && pos >= len
      modifies this, stdin, buf
      ensures Valid() && Unread() == old(Unread())
      ensures ok <==> pos < len
      ensures ok <==> old(Unread()) != []
    {
      pos := 0;
      len := stdin.Fread(buf, 0, buf.Length);
      ok := len != 0;
    }

    method ReadByte() returns (b: Option<byte>)
      requires Valid()
      modifies this, stdin, buf
      ensures Valid()
      ensures old(Unread()) == [] ==> b == None && Unread() == []
      ensures old(Unread()) != [] ==> b == Some(old(Unread())[0]) && Unread() == old(Unread())[1..]
    {
      ghost var u := Unread();
      if pos >= len {
        var ok := Fill();
        if !ok { return None; }
      }
      assert Unread() == u && u[0] == buf[pos];
      b := Some(buf[pos]);
      pos := pos + 1;
    }

    /** Move the buffered bytes to the front of the buffer. */
    method Shift()
      requires Valid()
      modifies this, buf
      ensures Valid() && pos == 0 && len == old(len - pos) && Unread() == old(Unread())
    {
      ghost var window := buf[pos..len];
      forall i | 0 <= i < len - pos { buf[i] := buf[pos + i]; }
      len := len - pos;
      pos := 0;
      assert buf[pos..len] == window;
    }

    /** Get the next n bytes into the buffer. */
    method Peek(n: nat) returns (ok: bool)
      requires Valid() && n <= CHUNK_SIZE
      modifies this, stdin, buf
      ensures Valid() && Unread() == old(Unread())
      ensures ok <==> |old(Unread())| >= n
      ensures ok ==> len - pos >= n
    {
      ghost var u := Unread();
      while len - pos < n
        invariant Valid() && Unread() == u
        decreases |stdin.rest|
      {
        if pos > 0 { Shift(); }
        if len == buf.Length { return false; }
        var more := Append();
        if !more { return false; }
      }
      return true;
    }

    /** Read behind the buffered bytes. */
    method Append() returns (more: bool)
      requires Valid() && len < buf.Length
      modifies this`len, stdin, buf
      ensures Valid() && Unread() == old(Unread())
      ensures more ==> |stdin.rest| < |old(stdin.rest)|
      ensures !more ==> stdin.rest == [] && len == old(len)
    {
      ghost var window, tail := buf[pos..len], stdin.rest;
      var got := stdin.Fread(buf, len, buf.Length - len);
      assert buf[pos..len] == buf[..len][pos..] == window;
      assert buf[pos..len + got] == buf[pos..len] + buf[len..len + got];
      assert window + tail == window + tail[..got] + tail[got..];
      len := len + got;
      more := got != 0;
    }

    method ReadLine(cap: nat) returns (line: Option<seq<byte>>)
      requires Valid()
      modifies this, stdin, buf
      ensures Valid()
      ensures match LineOf(old(Unread()), [], cap)
              case None => line == None
              case Some(p) => line == Some(p.0) && Unread() == p.1
    {
      ghost var u := Unread();
      var out := [];
      while true
        invariant Valid() && LineOf(u, [], cap) == LineOf(Unread(), out, cap)
        decreases |Unread()|
      {
        var b := ReadByte();
        if b == None { return None; }
        if b.value == LF { break; }
        if |out| + 1 >= cap { return None; }
        if b.value != CR { out := out + [b.value]; }
      }
      line := Some(out);
    }

    method ReadHeaders(cap: nat) returns (headers: Option<seq<byte>>)
      requires Valid()
      modifies this, stdin, buf
      ensures Valid()
      ensures match HeadersOf(old(Unread()), [], cap)
              case None => headers == None
              case Some(p) => headers == Some(p.0) && Unread() == p.1
    {
      ghost var u := Unread();
      var out := [];
      while true
        invariant Valid() && HeadersOf(u, [], cap) == HeadersOf(Unread(), out, cap)
        decreases |Unread()|
      {
        var b := ReadByte();
        if b == None { return None; }
        if |out| + 1 >= cap { return None; }
        out := out + [b.value];
        if |out| >= 4 && out[|out| - 4..] == HEADER_END { break; }
      }
      headers := Some(out);
    }

    /** Write the next n buffered bytes. */
    method Commit(n: nat, out: Sink, md5: Digest) returns (ok: bool)
      requires Valid() && n <= len - pos
      modifies this`pos, out, md5
      ensures Valid()
      ensures out.broken <==> old(out.broken) || !ok
      ensures ok ==>
                && Unread() == old(Unread())[n..] && pos == old(pos) + n
                && out.written == old(out.written) + old(Unread())[..n]
                && md5.input == old(md5.input) + old(Unread())[..n]
    {
      ghost var u := Unread();
      var data := buf[pos..pos + n];
      assert data == u[..n];
      var w := out.Write(data);
      if w != n { return false; }
      md5.Update(data);
      pos := pos + n;
      assert Unread() == u[n..];
      return true;
    }

    /** Bytes of the buffer are bytes of the unread input. */
    lemma BufferedOccurrence(pat: seq<byte>, i: nat)
      requires Valid() && pos <= i && i + |pat| <= len
      ensures OccursAt(buf[..len], pat, i) <==> OccursAt(Unread(), pat, i - pos)
    {
      assert buf[..len][i..i + |pat|] == buf[i..i + |pat|];
      assert Unread()[i - pos..i - pos + |pat|] == buf[i..i + |pat|];
    }

    /** What the search of the buffered window says about the unread input. */
    lemma WindowSearched(pat: seq<byte>, n: nat, found: bool)
      requires Valid() && 0 < |pat| && n + |pat| <= len - pos + 1
      requires forall i :: pos <= i < pos + n ==> !OccursAt(buf[..len], pat, i)
      requires found ==> OccursAt(buf[..len], pat, pos + n)
      ensures FreeBefore(Unread(), pat, n)
      ensures found ==> FirstAt(Unread(), pat, n)
    {
      forall i | 0 <= i < n ensures !OccursAt(Unread(), pat, i) {
        BufferedOccurrence(pat, pos + i);
      }
      if found {
        BufferedOccurrence(pat, pos + n);
      }
    }

    /** One round of the copy: search the window and commit what cannot belong to the delimiter. */
    method CopyWindow(out: Sink, pat: seq<byte>, md5: Digest) returns (ok: bool, found: bool, n: nat)
      requires Valid() && 0 < |pat| <= len - pos && !out.broken
      modifies this`pos, out, md5
      ensures Valid() && n <= |old(Unread())|
      ensures FreeBefore(old(Unread()), pat, n)
      ensures found ==> FirstAt(old(Unread()), pat, n)
      ensures !found ==> 0 < n && n + |pat| - 1 <= |old(Unread())|
      ensures out.broken <==> !ok
      ensures ok ==>
                && Unread() == old(Unread())[n..]
                && out.written == old(out.written) + old(Unread())[..n]
                && md5.input == old(md5.input) + old(Unread())[..n]
    {
      hide FreeBefore, FirstAt, OccursAt;
      var keep, avail := |pat| - 1, len - pos;
      var at := FindBytes(buf, len, pos, pat);
      found := at.Some?;
      if found {
        OccursWithin(buf[..len], pat, at.value);
      }
      n := if found then at.value - pos else avail - keep;
      WindowSearched(pat, n, found);
      ok := true;
      if n > 0 {
        ok := Commit(n, out, md5);
      }
    }

    /** Copy the input to the file up to the delimiter, withholding |pat| - 1 bytes of each window. */
    method CopyUntilBoundary(out: Sink, pat: seq<byte>, max: nat, md5: Digest) returns (rc: CopyResult, total: nat)
      requires Valid() && 0 < |pat| <= CHUNK_SIZE && !out.broken
      modifies this, stdin, buf, out, md5
      ensures Valid()
      ensures rc == WriteError <==> out.broken
      ensures CopyDone(old(Unread()), pat, max, rc, total, Unread(),
                      old(out.written), out.written, old(md5.input), md5.input)
    {
      hide *;
      ghost var u, w, d := Unread(), out.written, md5.input;
      NothingCopied(u, pat, w, d);
      total := 0;
      while true
        invariant Valid() && total <= max && !out.broken
        invariant CopiedSoFar(u, pat, total, Unread(), w, out.written, d, md5.input)
        decreases |Unread()|
      {
        var available := Peek(|pat|);
        if !available {
          EndOfInput(u, pat, max, total, Unread(), w, out.written, d, md5.input);
          return Malformed, total;
        }
        ghost var u', w', d' := Unread(), out.written, md5.input;
        var ok, found, n := CopyWindow(out, pat, md5);
        if !ok {
          WriteFailed(u, pat, max, total, Unread(), w, out.written, d, md5.input);
          return WriteError, total;
        }
        CopiedMore(u, pat, total, u', w, w', d, d', n, found);
        total := total + n;
        if n > 0 && total > max {
          PastLimit(u, pat, max, total, Unread(), w, out.written, d, md5.input, found);
          return TooLarge, total;
        }
        if found {
          FoundInTime(u, pat, max, total, Unread(), w, out.written, d, md5.input);
          return Copied, total;
        }
      }
    }
  }
}
