/** dav-bridge/src/dav-bridge.c: what op_upload accepts as the content of an upload. */
module Multipart {
  import opened Bytes
  import opened StreamReader

  const MAX_PART_LINE: nat := 256
  const MAX_HEADER_BYTES: nat := 4096
  const MAX_BOUNDARY: nat := 127
  const DASHES: seq<byte> := [45, 45]
  const CRLF: seq<byte> := [CR, LF]

  /** The ten bytes that must occur in the part headers: `name="file`. The closing quote is not compared. */
  const FILE_PART: seq<byte> := [110, 97, 109, 101, 61, 34, 102, 105, 108, 101]

  const DQUOTE: byte := 34

  /** What the bridge means to look for: `name="file"`, with the closing quote. */
  const NAMED_FILE: seq<byte> := FILE_PART + [DQUOTE]

  ghost predicate Occurs(hay: seq<byte>, pat: seq<byte>) {
    exists i: nat :: OccursAt(hay, pat, i)
  }

  /** What get_boundary can return: not empty, and cut at the first space, tab, CR, LF or quote. */
  predicate IsBoundary(b: seq<byte>) {
    0 < |b| <= MAX_BOUNDARY && CR !in b && LF !in b
  }

  /** The terminator of the file part: section 5.1.1 of RFC 2046. */
  function Delimiter(b: seq<byte>): seq<byte> {
    CRLF + DASHES + b
  }

  datatype Status =
    | Accepted(content: seq<byte>)
    | BadMultipart
    | NoFilePart
    | PayloadTooLarge
    | WriteFailed
    | SizeMismatch
    | ChecksumMismatch

  /** What the caller asked for: a size (0 for none), and whether the MD5 of the content is the announced one. */
  datatype Check = Check(max: nat, size: nat, digestOk: seq<byte> -> bool)

  function Judge(content: seq<byte>, c: Check): Status {
    if c.size != 0 && |content| != c.size then SizeMismatch
    else if !c.digestOk(content) then ChecksumMismatch
    else Accepted(content)
  }

  ghost predicate ContentVerdict(u: seq<byte>, pat: seq<byte>, c: Check, st: Status) {
    exists rc :: CopyOutcome(u, pat, c.max, rc) &&
      match rc
      case Copied => exists d: nat :: FirstAt(u, pat, d) && st == Judge(u[..d], c)
      case TooLarge => st == PayloadTooLarge
      case _ => rc == Malformed && st == BadMultipart
  }

  /** The answer to a request body, as a relation on the whole body. */
  ghost predicate Verdict(u: seq<byte>, b: seq<byte>, c: Check, st: Status) {
    VerdictFor(FILE_PART, u, b, c, st)
  }

  /** The answer if the part headers have to hold this name. */
  ghost predicate VerdictFor(name: seq<byte>, u: seq<byte>, b: seq<byte>, c: Check, st: Status) {
    match LineOf(u, [], MAX_PART_LINE)
    case None => st == BadMultipart
    case Some((line, afterLine)) =>
      if line != DASHES + b then st == BadMultipart
      else
        match HeadersOf(afterLine, [], MAX_HEADER_BYTES)
        case None => st == BadMultipart
        case Some((headers, body)) =>
          if !Occurs(headers, name) then st == NoFilePart
          else ContentVerdict(body, Delimiter(b), c, st)
  }

  /** find_bytes on the part headers. */
  method HasFilePart(headers: seq<byte>) returns (r: bool)
    ensures r <==> Occurs(headers, FILE_PART)
  {
    var a := new byte[|headers|](i requires 0 <= i < |headers| => headers[i]);
    assert a[..|headers|] == headers;
    var at := FindBytes(a, |headers|, 0, FILE_PART);
    r := at.Some?;
  }

  lemma FirstFits(u: seq<byte>, pat: seq<byte>, d: nat)
    requires FirstAt(u, pat, d)
    ensures d + |pat| <= |u|
  {
  }

  /** The parsing, copying and checking of op_upload. The file and the digest start empty. */
  method ReceiveUpload(r: Reader, b: seq<byte>, c: Check, out: Sink, md5: Digest) returns (st: Status)
    requires r.Valid() && IsBoundary(b)
    requires !out.broken && out.written == [] && md5.input == []
    modifies r, r.stdin, r.buf, out, md5
    ensures st == WriteFailed <==> out.broken
    ensures st != WriteFailed ==> Verdict(old(r.Unread()), b, c, st)
    ensures st.Accepted? ==> out.written == md5.input == st.content
    ensures forall headers, content, epilogue :: IsUpload(old(r.Unread()), b, headers, content, epilogue) ==>
              st == WriteFailed || RightAnswer(headers, content, c, st)
  {
    hide CopyOutcome, FirstAt, OccursAt, LineOf, HeadersOf, Reader.Unread, IsUpload, RightAnswer, Verdict;
    ghost var u := r.Unread();
    st := Receive(r, b, c, out, md5);
    if st != WriteFailed {
      forall headers, content, epilogue | IsUpload(u, b, headers, content, epilogue)
        ensures RightAnswer(headers, content, c, st)
      {
        UploadAnswer(u, b, headers, content, epilogue, c, st);
      }
    }
  }

  method Receive(r: Reader, b: seq<byte>, c: Check, out: Sink, md5: Digest) returns (st: Status)
    requires r.Valid() && IsBoundary(b)
    requires !out.broken && out.written == [] && md5.input == []
    modifies r, r.stdin, r.buf, out, md5
    ensures st == WriteFailed <==> out.broken
    ensures st != WriteFailed ==> Verdict(old(r.Unread()), b, c, st)
    ensures st.Accepted? ==> out.written == md5.input == st.content
  {
    hide CopyOutcome, FirstAt, OccursAt, LineOf, HeadersOf, Reader.Unread;
    var line := r.ReadLine(MAX_PART_LINE);
    if line == None || line.value != DASHES + b { return BadMultipart; }
    var headers := r.ReadHeaders(MAX_HEADER_BYTES);
    if headers == None { return BadMultipart; }
    var named := HasFilePart(headers.value);
    if !named { return NoFilePart; }
    ghost var body := r.Unread();
    var rc, total := r.CopyUntilBoundary(out, Delimiter(b), c.max, md5);
    match rc {
      case TooLarge => st := PayloadTooLarge;
      case WriteError => st := WriteFailed;
      case Malformed => st := BadMultipart;
      case Copied =>
        FirstFits(body, Delimiter(b), total);
        assert out.written == body[..total] && md5.input == body[..total];
        if c.size != 0 && total != c.size { st := SizeMismatch; }
        else if !c.digestOk(md5.input) { st := ChecksumMismatch; }
        else { st := Accepted(out.written); }
        assert FirstAt(body, Delimiter(b), total) && st == Judge(body[..total], c);
    }
    assert rc != WriteError ==> ContentVerdict(body, Delimiter(b), c, st);
  }

  /** One body, one answer: it cannot depend on how the body was split into reads. */
  lemma VerdictUnique(u: seq<byte>, b: seq<byte>, c: Check, st: Status, st': Status)
    requires Verdict(u, b, c, st) && Verdict(u, b, c, st')
    ensures st == st'
  {
    AnswerUnique(FILE_PART, u, b, c, st, st');
  }

  lemma AnswerUnique(name: seq<byte>, u: seq<byte>, b: seq<byte>, c: Check, st: Status, st': Status)
    requires VerdictFor(name, u, b, c, st) && VerdictFor(name, u, b, c, st')
    ensures st == st'
  {
    hide LineOf, HeadersOf, OccursAt, Delimiter, Occurs;
  }

  // ---- a well-formed body gives back its content ----

  predicate IsHeaders(h: seq<byte>) {
    && EndsHeaders(h) && |h| < MAX_HEADER_BYTES
    && forall k :: 4 <= k < |h| ==> !EndsHeaders(h[..k])
  }

  function Body(b: seq<byte>, headers: seq<byte>, content: seq<byte>, epilogue: seq<byte>): seq<byte> {
    DASHES + b + CRLF + (headers + (content + (Delimiter(b) + epilogue)))
  }

  lemma {:induction false} LineRoundTrip(rest: seq<byte>, acc: seq<byte>, u: seq<byte>, cap: nat)
    requires CR !in u && LF !in u && |acc| + |u| + 1 < cap
    ensures LineOf(u + (CRLF + rest), acc, cap) == Some((acc + u, rest))
    decreases |u|
  {
    if u == [] {
      assert u + (CRLF + rest) == [CR] + ([LF] + rest);
      assert LineOf([LF] + rest, acc, cap) == Some((acc, rest)) by {
        assert ([LF] + rest)[1..] == rest;
      }
      assert ([CR] + ([LF] + rest))[1..] == [LF] + rest;
      assert acc + u == acc;
    } else {
      assert (u + (CRLF + rest))[1..] == u[1..] + (CRLF + rest);
      LineRoundTrip(rest, acc + [u[0]], u[1..], cap);
      assert acc + [u[0]] + u[1..] == acc + u;
    }
  }

  lemma EndsOnlyOnce(h: seq<byte>, k: nat)
    requires IsHeaders(h) && k < |h|
    ensures !EndsHeaders(h[..k])
  {
  }

  lemma {:induction false} HeadersRoundTrip(h: seq<byte>, i: nat, rest: seq<byte>)
    requires IsHeaders(h) && i < |h|
    ensures HeadersOf(h[i..] + rest, h[..i], MAX_HEADER_BYTES) == Some((h, rest))
    decreases |h| - i
  {
    hide EndsHeaders;
    var u := h[i..] + rest;
    assert h[..i] + [u[0]] == h[..i + 1];
    assert u[1..] == h[i + 1..] + rest;
    if i + 1 == |h| {
      assert h[..i + 1] == h && u[1..] == rest;
    } else {
      EndsOnlyOnce(h, i + 1);
      HeadersRoundTrip(h, i + 1, rest);
    }
  }

  /** The delimiter starts with its only CR, so the content can hold no part of it that the content's end completes. */
  lemma DelimiterHasNoBorder(content: seq<byte>, pat: seq<byte>, rest: seq<byte>)
    requires pat != [] && pat[0] !in pat[1..]
    requires Absent(content, pat)
    ensures FirstAt(content + (pat + rest), pat, |content|)
  {
    var u := content + (pat + rest);
    assert u[|content|..|content| + |pat|] == pat;
    forall i | 0 <= i < |content| ensures !OccursAt(u, pat, i) {
      if i + |pat| <= |content| {
        assert content[i..i + |pat|] == u[i..i + |pat|];
        assert !OccursAt(content, pat, i);
      } else {
        assert u[|content|] == pat[0];
        assert u[i..i + |pat|][|content| - i] == pat[0];
        assert pat[|content| - i] == pat[1..][|content| - i - 1];
      }
    }
  }

  lemma CopyRoundTrip(b: seq<byte>, content: seq<byte>, rest: seq<byte>, max: nat)
    requires IsBoundary(b) && Absent(content, Delimiter(b))
    ensures FirstAt(content + (Delimiter(b) + rest), Delimiter(b), |content|)
    ensures CopyOutcome(content + (Delimiter(b) + rest), Delimiter(b),
            max, if |content| <= max then Copied else TooLarge)
  {
    var pat := Delimiter(b);
    assert pat[1..] == [LF] + DASHES + b;
    DelimiterHasNoBorder(content, pat, rest);
    var u := content + (pat + rest);
    OutcomeFound(u, pat, max, |content|);
  }

  function JudgeSized(content: seq<byte>, c: Check): Status {
    if |content| <= c.max then Judge(content, c) else PayloadTooLarge
  }

  /** Decoding undoes encoding: a well-formed body is answered by judging exactly its content. */
  lemma UploadRoundTrip(b: seq<byte>, headers: seq<byte>, content: seq<byte>, epilogue: seq<byte>, c: Check)
    requires IsBoundary(b) && IsHeaders(headers) && Occurs(headers, FILE_PART)
    requires Absent(content, Delimiter(b))
    ensures Verdict(Body(b, headers, content, epilogue), b, c, JudgeSized(content, c))
  {
    hide VerdictFor, IsHeaders, Occurs, Absent;
    FramedVerdict(FILE_PART, b, headers, content, epilogue, c);
  }

  /** The one answer to a framed body. */
  lemma FramedVerdict(name: seq<byte>, b: seq<byte>, headers: seq<byte>,
                        content: seq<byte>, epilogue: seq<byte>, c: Check)
    requires IsBoundary(b) && IsHeaders(headers) && Absent(content, Delimiter(b))
    ensures VerdictFor(name, Body(b, headers, content, epilogue), b, c,
                       if Occurs(headers, name) then JudgeSized(content, c) else NoFilePart)
  {
    hide LineOf, HeadersOf, OccursAt, FirstAt, CopyOutcome, Occurs;
    var u := content + (Delimiter(b) + epilogue);
    var dashB := DASHES + b;
    assert Body(b, headers, content, epilogue) == dashB + (CRLF + (headers + u));
    LineRoundTrip(headers + u, [], dashB, MAX_PART_LINE);
    assert [] + dashB == dashB;
    HeadersRoundTrip(headers, 0, u);
    assert headers[0..] == headers && headers[..0] == [];
    CopyRoundTrip(b, content, epilogue, c.max);
    assert u[..|content|] == content;
  }

  // ---- what passes for the file part ----

  /** The ten bytes occur, and no occurrence is followed by the closing quote. */
  ghost predicate OpenNameOnly(headers: seq<byte>) {
    && Occurs(headers, FILE_PART)
    && forall i: nat :: OccursAt(headers, FILE_PART, i)
         ==> i + |FILE_PART| >= |headers| || headers[i + |FILE_PART|] != DQUOTE
  }

  /** An occurrence of the eleven bytes is one of the ten with the quote behind it. */
  lemma ClosedName(headers: seq<byte>, i: nat)
    ensures OccursAt(headers, NAMED_FILE, i) <==>
            OccursAt(headers, FILE_PART, i) && i + |FILE_PART| < |headers| && headers[i + |FILE_PART|] == DQUOTE
  {
    if i + |NAMED_FILE| <= |headers| {
      var h := headers[i..i + |NAMED_FILE|];
      assert h[..|FILE_PART|] == headers[i..i + |FILE_PART|];
      assert h == h[..|FILE_PART|] + [h[|FILE_PART|]];
    }
  }

  lemma NamesDiffer(headers: seq<byte>)
    ensures OpenNameOnly(headers) <==> Occurs(headers, FILE_PART) && !Occurs(headers, NAMED_FILE)
    ensures Occurs(headers, NAMED_FILE) ==> Occurs(headers, FILE_PART)
  {
    hide OccursAt;
    forall i: nat ensures OccursAt(headers, NAMED_FILE, i) <==>
            OccursAt(headers, FILE_PART, i) && i + |FILE_PART| < |headers| && headers[i + |FILE_PART|] == DQUOTE
    {
      ClosedName(headers, i);
    }
  }

  /** A framed body is turned away for its name exactly if the ten bytes are absent. */
  lemma TurnedAwayExactly(b: seq<byte>, headers: seq<byte>, content: seq<byte>,
                            epilogue: seq<byte>, c: Check, st: Status)
    requires IsBoundary(b) && IsHeaders(headers) && Absent(content, Delimiter(b))
    requires Verdict(Body(b, headers, content, epilogue), b, c, st)
    ensures st == NoFilePart <==> !Occurs(headers, FILE_PART)
  {
    hide VerdictFor, IsHeaders, Occurs, Absent;
    FramedVerdict(FILE_PART, b, headers, content, epilogue, c);
    AnswerUnique(FILE_PART, Body(b, headers, content, epilogue), b, c, st,
                 if Occurs(headers, FILE_PART) then JudgeSized(content, c) else NoFilePart);
  }

  /** The bridge answers a framed body as the rule "only a part named file" would, except exactly if the headers hold
      the ten bytes but nowhere with the closing quote. */
  lemma KeepsNameRuleExactly(b: seq<byte>, headers: seq<byte>, content: seq<byte>, epilogue: seq<byte>, c: Check,
                             st: Status, ruled: Status)
    requires IsBoundary(b) && IsHeaders(headers) && Absent(content, Delimiter(b))
    requires Verdict(Body(b, headers, content, epilogue), b, c, st)
    requires VerdictFor(NAMED_FILE, Body(b, headers, content, epilogue), b, c, ruled)
    ensures st == ruled <==> !OpenNameOnly(headers)
  {
    hide VerdictFor, IsHeaders, Occurs, Absent, OpenNameOnly;
    var u := Body(b, headers, content, epilogue);
    FramedVerdict(FILE_PART, b, headers, content, epilogue, c);
    FramedVerdict(NAMED_FILE, b, headers, content, epilogue, c);
    AnswerUnique(FILE_PART, u, b, c, st, if Occurs(headers, FILE_PART) then JudgeSized(content, c) else NoFilePart);
    AnswerUnique(NAMED_FILE, u, b, c, ruled,
                 if Occurs(headers, NAMED_FILE) then JudgeSized(content, c) else NoFilePart);
    NamesDiffer(headers);
  }

  /** `name="file2"` and the blank line. */
  const FILE2_HEADERS: seq<byte> := FILE_PART + [50, DQUOTE] + HEADER_END

  /** A part named file2 passes, although the rule would turn it away. */
  lemma File2Passes(b: seq<byte>, content: seq<byte>, epilogue: seq<byte>, c: Check)
    requires IsBoundary(b) && Absent(content, Delimiter(b))
    ensures IsHeaders(FILE2_HEADERS) && OpenNameOnly(FILE2_HEADERS)
    ensures Verdict(Body(b, FILE2_HEADERS, content, epilogue), b, c, JudgeSized(content, c))
    ensures VerdictFor(NAMED_FILE, Body(b, FILE2_HEADERS, content, epilogue), b, c, NoFilePart)
  {
    hide VerdictFor, Absent, Body;
    File2Headers();
    NamesDiffer(FILE2_HEADERS);
    FramedVerdict(FILE_PART, b, FILE2_HEADERS, content, epilogue, c);
    FramedVerdict(NAMED_FILE, b, FILE2_HEADERS, content, epilogue, c);
  }

  lemma File2Headers()
    ensures IsHeaders(FILE2_HEADERS) && OpenNameOnly(FILE2_HEADERS)
  {
    var h := FILE2_HEADERS;
    assert h[0..|FILE_PART|] == FILE_PART;
    assert OccursAt(h, FILE_PART, 0);
    forall i: nat | OccursAt(h, FILE_PART, i) ensures i == 0 {
      assert h[i..i + |FILE_PART|][0] == h[i] && h[i..i + |FILE_PART|][1] == h[i + 1];
    }
    forall k | 4 <= k < |h| ensures !EndsHeaders(h[..k]) {
      assert h[..k][k - 4..][0] == h[k - 4] && h[..k][k - 4..][3] == h[k - 1];
    }
  }

  lemma {:induction false} LineIsPrefix(u: seq<byte>, acc: seq<byte>, cap: nat)
    requires LineOf(u, acc, cap).Some?
    ensures exists k: nat :: k <= |u| && LineOf(u, acc, cap).value.1 == u[k..]
    decreases |u|
  {
    if u[0] == LF {
      assert LineOf(u, acc, cap).value.1 == u[1..];
    } else {
      var acc' := if u[0] != CR then acc + [u[0]] else acc;
      LineIsPrefix(u[1..], acc', cap);
      var k: nat :| k <= |u[1..]| && LineOf(u[1..], acc', cap).value.1 == u[1..][k..];
      assert u[1..][k..] == u[1 + k..];
    }
  }

  lemma {:induction false} HeadersArePrefix(u: seq<byte>, acc: seq<byte>, cap: nat)
    requires HeadersOf(u, acc, cap).Some?
    ensures acc + u == HeadersOf(u, acc, cap).value.0 + HeadersOf(u, acc, cap).value.1
    ensures EndsHeaders(HeadersOf(u, acc, cap).value.0)
    decreases |u|
  {
    assert acc + u == acc + [u[0]] + u[1..];
    if !EndsHeaders(acc + [u[0]]) {
      HeadersArePrefix(u[1..], acc + [u[0]], cap);
    }
  }

  /** From position k on, the input is headers, the content, and the first delimiter. */
  ghost predicate Frames(u: seq<byte>, b: seq<byte>, content: seq<byte>, k: nat, headers: seq<byte>, rest: seq<byte>) {
    && k <= |u| && u[k..] == headers + (content + (Delimiter(b) + rest))
    && EndsHeaders(headers)
    && FirstAt(content + (Delimiter(b) + rest), Delimiter(b), |content|)
  }

  /** Nothing else is accepted: after its first line an accepted body is framed like a well-formed one. */
  lemma AcceptedIsWellFormed(u: seq<byte>, b: seq<byte>, c: Check, content: seq<byte>)
    requires IsBoundary(b) && Verdict(u, b, c, Accepted(content))
    ensures exists k, headers, rest :: Frames(u, b, content, k, headers, rest)
    ensures |content| <= c.max && (c.size == 0 || |content| == c.size) && c.digestOk(content)
    ensures exists line, rest :: u == line + ([10] + rest) && 10 !in line && WithoutCr(line) == [45, 45] + b
  {
    hide *;
    AcceptedFirstLine(u, b, c, content);
    AcceptedFramed(u, b, c, content);
  }

  lemma AcceptedFramed(u: seq<byte>, b: seq<byte>, c: Check, content: seq<byte>)
    requires IsBoundary(b) && Verdict(u, b, c, Accepted(content))
    ensures exists k, headers, rest :: Frames(u, b, content, k, headers, rest)
    ensures |content| <= c.max && (c.size == 0 || |content| == c.size) && c.digestOk(content)
  {
    hide FirstAt, OccursAt, CopyOutcome, LineOf, HeadersOf, EndsHeaders, ContentVerdict;
    var (line, afterLine) := LineOf(u, [], MAX_PART_LINE).value;
    var (headers, body) := HeadersOf(afterLine, [], MAX_HEADER_BYTES).value;
    AcceptedContent(body, Delimiter(b), c, content);
    LineIsPrefix(u, [], MAX_PART_LINE);
    HeadersArePrefix(afterLine, [], MAX_HEADER_BYTES);
    var k: nat :| k <= |u| && afterLine == u[k..];
    assert [] + afterLine == afterLine;
    assert Frames(u, b, content, k, headers, body[|content| + |Delimiter(b)|..]);
  }

  lemma CopiedBound(u: seq<byte>, pat: seq<byte>, max: nat, d: nat)
    requires CopyOutcome(u, pat, max, Copied) && FirstAt(u, pat, d)
    ensures d <= max && d + |pat| <= |u| && u[d..d + |pat|] == pat
  {
    OutcomeFound(u, pat, max, d);
  }

  lemma AcceptedAt(body: seq<byte>, pat: seq<byte>, c: Check, content: seq<byte>) returns (d: nat)
    requires ContentVerdict(body, pat, c, Accepted(content))
    ensures CopyOutcome(body, pat, c.max, Copied) && FirstAt(body, pat, d)
    ensures d <= |body| && Accepted(content) == Judge(body[..d], c)
  {
    hide CopyOutcome, FreeBefore;
    d :| FirstAt(body, pat, d) && Accepted(content) == Judge(body[..d], c);
  }

  lemma AcceptedContent(body: seq<byte>, pat: seq<byte>, c: Check, content: seq<byte>)
    requires pat != [] && ContentVerdict(body, pat, c, Accepted(content))
    ensures FirstAt(body, pat, |content|)
    ensures body == content + (pat + body[|content| + |pat|..])
    ensures |content| <= c.max && (c.size == 0 || |content| == c.size) && c.digestOk(content)
  {
    hide FirstAt, CopyOutcome;
    var d := AcceptedAt(body, pat, c, content);
    CopiedBound(body, pat, c.max, d);
    assert body == body[..d] + (body[d..d + |pat|] + body[d + |pat|..]);
  }

  // ---- the answer to an upload, spelled out ----

  /** A form with one part: the boundary line, part headers that end with the first blank line, a content that does not
      hold the delimiter, the delimiter, and anything behind it. */
  ghost predicate IsUpload(u: seq<byte>, b: seq<byte>, headers: seq<byte>, content: seq<byte>, epilogue: seq<byte>) {
    && 0 < |b| <= 127 && 13 !in b && 10 !in b
    && u == [45, 45] + b + [13, 10] + headers + content + [13, 10, 45, 45] + b + epilogue
    && |headers| < 4096 && (exists before :: headers == before + [13, 10, 13, 10])
    && (forall before, after :: headers == before + [13, 10, 13, 10] + after ==> after == [])
    && (forall before, after :: content != before + ([13, 10, 45, 45] + b) + after)
  }

  /** The headers hold `name="file`. */
  ghost predicate NamesFile(headers: seq<byte>) {
    exists before, after :: headers == before + [110, 97, 109, 101, 61, 34, 102, 105, 108, 101] + after
  }

  /** The answer: each of the five, and when. */
  ghost predicate RightAnswer(headers: seq<byte>, content: seq<byte>, c: Check, st: Status) {
    var named, fits := NamesFile(headers), |content| <= c.max;
    var sized, intact := c.size == 0 || c.size == |content|, c.digestOk(content);
    && (st == NoFilePart <==> !named)
    && (st == PayloadTooLarge <==> named && !fits)
    && (st == SizeMismatch <==> named && fits && !sized)
    && (st == ChecksumMismatch <==> named && fits && sized && !intact)
    && (st == Accepted(content) <==> named && fits && sized && intact)
  }

  lemma UploadAnswer(u: seq<byte>, b: seq<byte>, headers: seq<byte>, content: seq<byte>, epilogue: seq<byte>,
                     c: Check, st: Status)
    requires IsUpload(u, b, headers, content, epilogue) && Verdict(u, b, c, st)
    ensures RightAnswer(headers, content, c, st)
  {
    hide VerdictFor, LineOf, HeadersOf, OccursAt, IsHeaders, Absent;
    UploadIsFramed(u, b, headers, content, epilogue);
    NamesFileIs(headers);
    hide IsUpload, NamesFile;
    FramedVerdict(FILE_PART, b, headers, content, epilogue, c);
    AnswerUnique(FILE_PART, u, b, c, st, if Occurs(headers, FILE_PART) then JudgeSized(content, c) else NoFilePart);
  }

  lemma UploadIsFramed(u: seq<byte>, b: seq<byte>, headers: seq<byte>, content: seq<byte>, epilogue: seq<byte>)
    requires IsUpload(u, b, headers, content, epilogue)
    ensures IsBoundary(b) && IsHeaders(headers) && Absent(content, Delimiter(b))
    ensures u == Body(b, headers, content, epilogue)
  {
    hide FreeBefore, OccursAt;
    assert Delimiter(b) == [13, 10, 45, 45] + b;
    forall k | 4 <= k < |headers| ensures !EndsHeaders(headers[..k]) {
      EndsEarlier(headers, k);
    }
    OccursSplits(content, Delimiter(b));
    NeverOccurs(content, Delimiter(b));
    assert Body(b, headers, content, epilogue) ==
           [45, 45] + b + [13, 10] + headers + content + [13, 10, 45, 45] + b + epilogue;
  }

  lemma NeverOccurs(hay: seq<byte>, pat: seq<byte>)
    requires !Occurs(hay, pat)
    ensures Absent(hay, pat)
  {
  }

  lemma EndsEarlier(h: seq<byte>, k: nat)
    requires 4 <= k < |h|
    ensures EndsHeaders(h[..k]) ==> exists before, after :: h == before + [13, 10, 13, 10] + after && after != []
  {
    if EndsHeaders(h[..k]) {
      var before, after := h[..k - 4], h[k..];
      assert h[..k] == before + h[..k][k - 4..];
      assert h == before + [13, 10, 13, 10] + after;
    }
  }

  lemma OccursSplits(hay: seq<byte>, pat: seq<byte>)
    ensures Occurs(hay, pat) <==> exists before, after :: hay == before + pat + after
  {
    if i: nat :| OccursAt(hay, pat, i) {
      assert hay == hay[..i] + pat + hay[i + |pat|..];
    }
    if before, after :| hay == before + pat + after {
      assert hay[|before|..|before| + |pat|] == pat;
      assert OccursAt(hay, pat, |before|);
    }
  }

  lemma NamesFileIs(headers: seq<byte>)
    ensures NamesFile(headers) <==> Occurs(headers, FILE_PART)
  {
    if i: nat :| OccursAt(headers, FILE_PART, i) {
      assert headers == headers[..i] + [110, 97, 109, 101, 61, 34, 102, 105, 108, 101] + headers[i + 10..];
    }
    if before, after :| headers == before + [110, 97, 109, 101, 61, 34, 102, 105, 108, 101] + after {
      assert headers[|before|..|before| + 10] == FILE_PART;
      assert OccursAt(headers, FILE_PART, |before|);
    }
  }

  // ---- lines in general ----

  /** The bytes other than CR, in order. */
  function WithoutCr(u: seq<byte>): (r: seq<byte>)
    ensures 13 !in r && |r| <= |u|
    ensures 13 !in u ==> r == u
  {
    if u == [] then [] else (if u[0] == 13 then [] else [u[0]]) + WithoutCr(u[1..])
  }

  /** A line is what stands before the first LF, without its CRs. It is too long exactly if the buffer is full before
      its last byte is looked at. */
  lemma {:induction false} LineIs(u: seq<byte>, rest: seq<byte>, acc: seq<byte>, cap: nat)
    requires 10 !in u
    ensures LineOf(u + ([10] + rest), acc, cap) ==
            if u == [] || |acc| + |WithoutCr(u[..|u| - 1])| + 1 < cap then Some((acc + WithoutCr(u), rest)) else None
    decreases |u|
  {
    hide LineOf, WithoutCr;
    LineStep(u, rest, acc, cap);
    if u != [] {
      var acc' := if u[0] != 13 then acc + [u[0]] else acc;
      LineIs(u[1..], rest, acc', cap);
      WithoutCrStep(u);
      assert acc' + WithoutCr(u[1..]) == acc + WithoutCr(u);
      if |u| > 1 {
        assert u[..|u| - 1][1..] == u[1..][..|u| - 2];
        WithoutCrStep(u[..|u| - 1]);
      } else {
        assert u[..0] == [];
      }
    } else {
      assert acc + WithoutCr(u) == acc;
    }
  }

  lemma LineStep(u: seq<byte>, rest: seq<byte>, acc: seq<byte>, cap: nat)
    requires 10 !in u
    ensures LineOf(u + ([10] + rest), acc, cap) ==
            if u == [] then Some((acc, rest))
            else if |acc| + 1 >= cap then None
            else LineOf(u[1..] + ([10] + rest), if u[0] != 13 then acc + [u[0]] else acc, cap)
  {
    var all := u + ([10] + rest);
    if u == [] {
      assert all == [10] + rest && all[1..] == rest;
    } else {
      assert all[1..] == u[1..] + ([10] + rest);
    }
  }

  lemma WithoutCrStep(u: seq<byte>)
    requires u != []
    ensures WithoutCr(u) == (if u[0] == 13 then [] else [u[0]]) + WithoutCr(u[1..]) && WithoutCr([]) == []
  {
  }

  // ---- malformed bodies ----

  /** A body without LF has no line. */
  lemma {:induction false} NoLine(u: seq<byte>, acc: seq<byte>, cap: nat)
    requires 10 !in u
    ensures LineOf(u, acc, cap) == None
    decreases |u|
  {
    if u != [] && |acc| + 1 < cap {
      NoLine(u[1..], if u[0] != CR then acc + [u[0]] else acc, cap);
    }
  }

  /** The first line of a body, if it has one. */
  lemma {:induction false} FirstLine(u: seq<byte>) returns (line: seq<byte>, rest: seq<byte>)
    requires 10 in u
    ensures u == line + ([10] + rest) && 10 !in line
    decreases |u|
  {
    if u[0] == 10 {
      line, rest := [], u[1..];
    } else {
      line, rest := FirstLine(u[1..]);
      line := [u[0]] + line;
    }
  }

  /** A body whose first line is not the boundary line is malformed. */
  lemma WrongFirstLine(line: seq<byte>, rest: seq<byte>, b: seq<byte>, c: Check, st: Status)
    requires Verdict(line + ([10] + rest), b, c, st) && 10 !in line && WithoutCr(line) != [45, 45] + b
    ensures st == BadMultipart
  {
    hide LineOf, HeadersOf, WithoutCr, ContentVerdict, Occurs;
    LineIs(line, rest, [], MAX_PART_LINE);
    assert [] + WithoutCr(line) == WithoutCr(line);
  }

  /** So is one without a line. */
  lemma NoFirstLine(u: seq<byte>, b: seq<byte>, c: Check, st: Status)
    requires Verdict(u, b, c, st) && 10 !in u
    ensures st == BadMultipart
  {
    hide LineOf, HeadersOf;
    NoLine(u, [], MAX_PART_LINE);
  }

  lemma AcceptedFirstLine(u: seq<byte>, b: seq<byte>, c: Check, content: seq<byte>)
    requires Verdict(u, b, c, Accepted(content))
    ensures exists line, rest :: u == line + ([10] + rest) && 10 !in line && WithoutCr(line) == [45, 45] + b
  {
    hide VerdictFor;
    if 10 !in u {
      NoFirstLine(u, b, c, Accepted(content));
    } else {
      var line, rest := FirstLine(u);
      if WithoutCr(line) != [45, 45] + b {
        WrongFirstLine(line, rest, b, c, Accepted(content));
      }
    }
  }

  /** And one whose part headers do not end within 4095 bytes. */
  lemma {:induction false} HeadersNeverEnd(u: seq<byte>, acc: seq<byte>, cap: nat)
    requires forall k :: 0 < k <= |u| && |acc| + k < cap ==> !EndsHeaders(acc + u[..k])
    ensures HeadersOf(u, acc, cap) == None
    decreases |u|
  {
    if u != [] && |acc| + 1 < cap {
      assert u[..1] == [u[0]];
      forall k | 0 < k <= |u[1..]| && |acc + [u[0]]| + k < cap ensures !EndsHeaders(acc + [u[0]] + u[1..][..k]) {
        assert acc + [u[0]] + u[1..][..k] == acc + u[..k + 1];
      }
      HeadersNeverEnd(u[1..], acc + [u[0]], cap);
    }
  }

  lemma NoHeaderEnd(headers: seq<byte>, b: seq<byte>, c: Check, st: Status)
    requires IsBoundary(b) && Verdict([45, 45] + b + [13, 10] + headers, b, c, st)
    requires forall k :: 4 <= k <= |headers| && k < 4096 ==> !EndsHeaders(headers[..k])
    ensures st == BadMultipart
  {
    hide LineOf, HeadersOf, WithoutCr, ContentVerdict, Occurs;
    var line := [45, 45] + b + [13];
    assert [45, 45] + b + [13, 10] + headers == line + ([10] + headers);
    LineIs(line, headers, [], MAX_PART_LINE);
    assert line[..|line| - 1] == [45, 45] + b;
    BoundaryLine(b);
    var none: seq<byte> := [];
    forall k | 0 < k <= |headers| && |none| + k < 4096 ensures !EndsHeaders(none + headers[..k]) {
      assert none + headers[..k] == headers[..k];
    }
    HeadersNeverEnd(headers, none, MAX_HEADER_BYTES);
    assert [] + WithoutCr(line) == WithoutCr(line);
  }

  lemma BoundaryLine(b: seq<byte>)
    requires 13 !in b
    ensures WithoutCr([45, 45] + b + [13]) == [45, 45] + b && WithoutCr([45, 45] + b) == [45, 45] + b
  {
    WithoutLastCr([45, 45] + b);
  }

  lemma {:induction false} WithoutLastCr(u: seq<byte>)
    requires 13 !in u
    ensures WithoutCr(u + [13]) == u
    decreases |u|
  {
    if u != [] {
      assert (u + [13])[1..] == u[1..] + [13];
      WithoutLastCr(u[1..]);
    }
  }
}
