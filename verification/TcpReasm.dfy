/** apptraffic/src/tcp_reasm.c: the per-connection first-record reassembler. */
module TcpReasm {
  import opened Bytes

  const REASM_MAX_LEN: nat := 8192

  /** A run of bytes placed at an offset of the stream: `struct tcp_seg`. */
  datatype Seg = Seg(off: nat, data: seq<byte>) {
    function End(): nat { off + |data| }

    predicate Has(i: int) { off <= i < End() }

    predicate Supplies(i: int, b: byte) { Has(i) && data[i - off] == b }

    /** The order of the pending list: offset ascending, then length descending. */
    predicate Before(other: Seg) {
      off < other.off || (off == other.off && |data| > |other.data|)
    }

    /** Starts at the same place and reaches at least as far. */
    predicate Outdoes(other: Seg) { off == other.off && End() >= other.End() }

    /** The segment carries the bytes that the stream has at its place. */
    predicate SliceOf(stream: seq<byte>) {
      End() <= |stream| && data == stream[off..End()]
    }
  }

  predicate Clipped(s: Seg) { s.data != [] && s.End() <= REASM_MAX_LEN }

  ghost predicate AllClipped(segs: set<Seg>) { forall s :: s in segs ==> Clipped(s) }

  ghost predicate Covered(segs: set<Seg>, i: int) {
    exists s :: s in segs && s.Has(i)
  }

  ghost predicate CoversUpTo(segs: set<Seg>, k: nat) {
    forall i :: 0 <= i < k ==> Covered(segs, i)
  }

  /** k is the length of the longest prefix of the stream that the segments cover. */
  ghost predicate IsCover(segs: set<Seg>, k: nat) {
    CoversUpTo(segs, k) && !Covered(segs, k)
  }

  ghost predicate SlicesOf(segs: set<Seg>, stream: seq<byte>) {
    forall s :: s in segs ==> s.SliceOf(stream)
  }

  ghost predicate Sorted(pending: seq<Seg>) {
    forall i, j :: 0 <= i < j < |pending| ==> pending[i].Before(pending[j])
  }

  /** Every byte of the prefix was supplied by some segment. */
  ghost predicate Sourced(prefix: seq<byte>, fed: set<Seg>) {
    forall i :: 0 <= i < |prefix| ==> exists s :: s in fed && s.Supplies(i, prefix[i])
  }

  /** No segment with something beyond `used` is lost: one that outdoes it is pending. */
  ghost predicate Kept(fed: set<Seg>, used: nat, pending: seq<Seg>) {
    forall s :: s in fed && s.End() > used ==> exists p :: p in pending && p.Outdoes(s)
  }

  ghost predicate Gap(pending: seq<Seg>, used: nat) {
    forall p :: p in pending ==> p.off > used
  }

  /** The invariant of the reassembler, as a relation between its parts. */
  ghost predicate Inv(fed: set<Seg>, prefix: seq<byte>, pending: seq<Seg>) {
    && AllClipped(fed)
    && |prefix| <= REASM_MAX_LEN
    && Sourced(prefix, fed)
    && Sorted(pending)
    && (forall p :: p in pending ==> p in fed)
    && Kept(fed, |prefix|, pending)
  }

  /** The part of a payload the reassembler looks at once it is placed at `off`. */
  function Clip(off: nat, payload: seq<byte>): (segs: set<Seg>)
    ensures forall s :: s in segs ==> s.off == off && s.data <= payload && s.End() <= REASM_MAX_LEN
  {
    if off >= REASM_MAX_LEN || payload == [] then {}
    else {Seg(off, payload[..Min(|payload|, REASM_MAX_LEN - off)])}
  }

  /** Some segment has this byte at this place. */
  ghost predicate Given(segs: set<Seg>, i: int, b: byte) {
    exists s :: s in segs && s.Supplies(i, b)
  }

  /** Clipping keeps every byte of the payload that lies within the first 8192, and nothing else. */
  lemma ClipExactly(off: nat, payload: seq<byte>, i: int, b: byte)
    ensures Given(Clip(off, payload), i, b) <==>
            off <= i < off + |payload| && i < 8192 && payload[i - off] == b
  {
    if off <= i < off + |payload| && i < 8192 && payload[i - off] == b {
      var s := Seg(off, payload[..Min(|payload|, REASM_MAX_LEN - off)]);
      assert s in Clip(off, payload) && s.Supplies(i, b);
    }
  }

  /** The bytes given by a union. */
  lemma GivenByEither(a: set<Seg>, b: set<Seg>, i: int, x: byte)
    ensures Given(a + b, i, x) <==> Given(a, i, x) || Given(b, i, x)
  {
    if Given(a, i, x) {
      var s :| s in a && s.Supplies(i, x);
      assert s in a + b;
    }
    if Given(b, i, x) {
      var s :| s in b && s.Supplies(i, x);
      assert s in a + b;
    }
  }

  /** What feeding a payload adds. */
  lemma FedExactly(fed: set<Seg>, off: nat, payload: seq<byte>)
    ensures forall i, b :: Given(fed + Clip(off, payload), i, b) <==>
              Given(fed, i, b) || (off <= i < off + |payload| && i < 8192 && payload[i - off] == b)
  {
    hide Given, Clip;
    forall i, b ensures Given(fed + Clip(off, payload), i, b) <==>
              Given(fed, i, b) || (off <= i < off + |payload| && i < 8192 && payload[i - off] == b)
    {
      ClipExactly(off, payload, i, b);
      GivenByEither(fed, Clip(off, payload), i, b);
    }
  }

  // ---- the steps of the invariant ----

  lemma SourcedMore(prefix: seq<byte>, fed: set<Seg>, s: Seg)
    requires Sourced(prefix, fed)
    ensures Sourced(prefix, fed + {s})
  {
    forall i | 0 <= i < |prefix| ensures exists t :: t in fed + {s} && t.Supplies(i, prefix[i]) {
      var t :| t in fed && t.Supplies(i, prefix[i]);
      assert t in fed + {s};
    }
  }

  /** What a segment that touches the prefix adds to it. */
  function Beyond(s: Seg, used: nat): seq<byte>
    requires s.off <= used <= s.End()
  {
    s.data[used - s.off..]
  }

  lemma BeyondGrows(s: Seg, used: nat)
    requires s.off <= used < s.End()
    ensures |Beyond(s, used)| > 0
  {
  }

  lemma SourcedAppend(prefix: seq<byte>, fed: set<Seg>, s: Seg)
    requires Sourced(prefix, fed) && s in fed && s.off <= |prefix| <= s.End()
    ensures Sourced(prefix + Beyond(s, |prefix|), fed)
  {
    var longer := prefix + Beyond(s, |prefix|);
    forall i | 0 <= i < |longer| ensures exists t :: t in fed && t.Supplies(i, longer[i]) {
      if i < |prefix| {
        var t :| t in fed && t.Supplies(i, prefix[i]);
        assert t.Supplies(i, longer[i]);
      } else {
        assert s.Supplies(i, longer[i]);
      }
    }
  }

  lemma SortedInsert(pending: seq<Seg>, i: nat, s: Seg)
    requires Sorted(pending) && i <= |pending|
    requires forall j :: 0 <= j < i ==> pending[j].off < s.off
    requires i < |pending| ==> pending[i].off >= s.off
    requires forall j :: 0 <= j < |pending| ==> !pending[j].Outdoes(s)
    ensures Sorted(pending[..i] + [s] + pending[i..])
  {
    var r := pending[..i] + [s] + pending[i..];
    forall a, b | 0 <= a < b < |r| ensures r[a].Before(r[b]) {
      if a == i {
        assert i == b - 1 || pending[i].Before(pending[b - 1]);
        assert !pending[b - 1].Outdoes(s);
      }
    }
  }

  lemma KeptInsert(fed: set<Seg>, used: nat, pending: seq<Seg>, i: nat, s: Seg)
    requires Kept(fed, used, pending) && i <= |pending|
    ensures Kept(fed + {s}, used, pending[..i] + [s] + pending[i..])
  {
    var r := pending[..i] + [s] + pending[i..];
    forall t | t in fed + {s} && t.End() > used ensures exists p :: p in r && p.Outdoes(t) {
      if t == s {
        assert r[i] == s && s.Outdoes(s);
      } else {
        var p :| p in pending && p.Outdoes(t);
        var j :| 0 <= j < |pending| && pending[j] == p;
        assert r[if j < i then j else j + 1] == p;
      }
    }
  }

  lemma InvAdd(fed: set<Seg>, s: Seg, prefix: seq<byte>, pending: seq<Seg>)
    requires Inv(fed, prefix, pending) && Clipped(s)
    requires s.End() <= |prefix| || exists p :: p in pending && p.Outdoes(s)
    ensures Inv(fed + {s}, prefix, pending)
  {
    SourcedMore(prefix, fed, s);
  }

  lemma InvInsert(fed: set<Seg>, s: Seg, prefix: seq<byte>, pending: seq<Seg>, i: nat)
    requires Inv(fed, prefix, pending) && Clipped(s) && i <= |pending|
    requires forall j :: 0 <= j < i ==> pending[j].off < s.off
    requires i < |pending| ==> pending[i].off >= s.off
    requires forall j :: 0 <= j < |pending| ==> !pending[j].Outdoes(s)
    ensures Inv(fed + {s}, prefix, pending[..i] + [s] + pending[i..])
  {
    SourcedMore(prefix, fed, s);
    SortedInsert(pending, i, s);
    KeptInsert(fed, |prefix|, pending, i, s);
  }

  lemma InvAppend(fed: set<Seg>, s: Seg, prefix: seq<byte>, pending: seq<Seg>)
    requires Inv(fed, prefix, pending) && s in fed && s.off <= |prefix| <= s.End()
    ensures Inv(fed, prefix + Beyond(s, |prefix|), pending)
  {
    SourcedAppend(prefix, fed, s);
  }

  lemma InvAbsorb(fed: set<Seg>, s: Seg, prefix: seq<byte>, pending: seq<Seg>)
    requires Inv(fed, prefix, pending) && Clipped(s) && s.off <= |prefix| < s.End()
    ensures Inv(fed + {s}, prefix + Beyond(s, |prefix|), pending)
  {
    SourcedMore(prefix, fed, s);
    SourcedAppend(prefix, fed + {s}, s);
  }

  lemma SortedTail(pending: seq<Seg>)
    requires Sorted(pending) && pending != []
    ensures Sorted(pending[1..])
  {
    var r := pending[1..];
    forall a, b | 0 <= a < b < |r| ensures r[a].Before(r[b]) {
      assert pending[a + 1].Before(pending[b + 1]);
    }
  }

  lemma KeptTail(fed: set<Seg>, used: nat, pending: seq<Seg>)
    requires Kept(fed, used, pending) && pending != [] && pending[0].End() <= used
    ensures Kept(fed, used, pending[1..])
  {
    forall s | s in fed && s.End() > used ensures exists p :: p in pending[1..] && p.Outdoes(s) {
      var p :| p in pending && p.Outdoes(s);
      var j :| 0 <= j < |pending| && pending[j] == p;
      assert pending[1..][j - 1] == p;
    }
  }

  lemma InvDropHead(fed: set<Seg>, prefix: seq<byte>, pending: seq<Seg>)
    requires Inv(fed, prefix, pending) && pending != [] && pending[0].End() <= |prefix|
    ensures Inv(fed, prefix, pending[1..])
  {
    SortedTail(pending);
    KeptTail(fed, |prefix|, pending);
  }

  lemma SortedGap(pending: seq<Seg>, used: nat)
    requires Sorted(pending) && (pending == [] || pending[0].off > used)
    ensures Gap(pending, used)
  {
    forall p | p in pending ensures p.off > used {
      var j :| 0 <= j < |pending| && pending[j] == p;
      assert j == 0 || pending[0].Before(pending[j]);
    }
  }

  lemma MergedGap(fed: set<Seg>, prefix: seq<byte>, pending: seq<Seg>)
    requires Inv(fed, prefix, pending) && (pending == [] || pending[0].off > |prefix|)
    ensures Gap(pending, |prefix|)
  {
    SortedGap(pending, |prefix|);
  }

  lemma PendingIsFed(fed: set<Seg>, prefix: seq<byte>, pending: seq<Seg>)
    requires Inv(fed, prefix, pending) && pending != []
    ensures pending[0] in fed && Clipped(pending[0])
  {
  }

  lemma GapInsert(pending: seq<Seg>, used: nat, i: nat, s: Seg)
    requires Gap(pending, used) && i <= |pending| && s.off > used
    ensures Gap(pending[..i] + [s] + pending[i..], used)
  {
  }

  class Reassembler {
    var baseSeq: uint32
    var haveBase: bool
    var buf: array<byte>        // the allocation; its length is the C field `cap`
    var usedLen: nat
    var pending: seq<Seg>
    var done: bool
    ghost var fed: set<Seg>     // every clipped segment handed over so far

    predicate Allocated()
      reads this, buf
    {
      usedLen <= buf.Length <= REASM_MAX_LEN
    }

    /** The contiguous prefix, `buf[0..used_len)`. */
    function Prefix(): (p: seq<byte>)
      requires Allocated()
      reads this, buf
      ensures |p| == usedLen
    {
      buf[..usedLen]
    }

    ghost predicate Valid()
      reads this, buf
    {
      && Allocated()
      && Inv(fed, Prefix(), pending)
      && Gap(pending, usedLen)
    }

    constructor ()
      ensures Valid() && fresh(buf) && !haveBase && !done && fed == {} && Prefix() == []
    {
      baseSeq, haveBase, usedLen, pending, done, fed := 0, false, 0, [], false, {};
      buf := new byte[0];
    }

    method SetIsn(isn: uint32)
      requires Valid()
      modifies this`baseSeq, this`haveBase
      ensures Valid() && haveBase && Prefix() == old(Prefix())
      ensures baseSeq == if old(haveBase) then old(baseSeq) else (isn + 1) % TWO32
    {
      if !haveBase {
        baseSeq := (isn + 1) % TWO32;
        haveBase := true;
      }
      assert Prefix() == old(Prefix());
    }

    /** Grow the allocation by doubling, never past the cap, keeping the prefix. */
    method EnsureCap(want: nat)
      requires Allocated()
      modifies this`buf
      ensures Allocated() && (buf == old(buf) || fresh(buf))
      ensures buf.Length >= Min(want, REASM_MAX_LEN)
      ensures Prefix() == old(Prefix())
    {
      var need := Min(want, REASM_MAX_LEN);
      if need <= buf.Length { return; }
      var newCap := if buf.Length != 0 then buf.Length else 256;
      while newCap < need && newCap < REASM_MAX_LEN
        invariant newCap > 0 && newCap >= buf.Length
        decreases REASM_MAX_LEN - newCap
      {
        newCap := newCap * 2;
      }
      if newCap > REASM_MAX_LEN { newCap := REASM_MAX_LEN; }
      var nb := new byte[newCap](_ => 0);
      forall i | 0 <= i < usedLen { nb[i] := buf[i]; }
      assert nb[..usedLen] == buf[..usedLen];
      buf := nb;
    }

    /** Extend the prefix with the part of `s` beyond it. */
    method Append(s: Seg)
      requires Allocated() && s.off <= usedLen <= s.End() <= REASM_MAX_LEN
      modifies this`buf, this`usedLen, buf
      ensures Allocated() && (buf == old(buf) || fresh(buf))
      ensures Prefix() == old(Prefix()) + Beyond(s, old(usedLen))
    {
      EnsureCap(s.End());
      ghost var before := Prefix();
      var copyOff := usedLen - s.off;
      forall i | usedLen <= i < s.End() { buf[i] := s.data[copyOff + (i - usedLen)]; }
      assert buf[..usedLen] == before;
      assert buf[usedLen..s.End()] == Beyond(s, usedLen);
      assert buf[..s.End()] == buf[..usedLen] + buf[usedLen..s.End()];
      usedLen := s.End();
    }

    /** Buffer an out-of-order segment, unless one at the same offset is already as long. */
    method AddPending(s: Seg)
      requires Valid() && Clipped(s) && s.off > usedLen
      modifies this`pending, this`fed
      ensures Valid() && fed == old(fed) + {s} && Prefix() == old(Prefix())
    {
      hide Inv, Gap;
      var k := 0;
      while k < |pending|
        invariant 0 <= k <= |pending|
        invariant forall j :: 0 <= j < k ==> !pending[j].Outdoes(s)
      {
        if pending[k].off == s.off && |pending[k].data| >= |s.data| {
          assert pending[k] in pending && pending[k].Outdoes(s);
          InvAdd(fed, s, Prefix(), pending);
          fed := fed + {s};
          assert Prefix() == old(Prefix());
          return;
        }
        k := k + 1;
      }
      var i := 0;
      while i < |pending| && pending[i].off < s.off
        invariant 0 <= i <= |pending|
        invariant forall j :: 0 <= j < i ==> pending[j].off < s.off
      {
        i := i + 1;
      }
      InvInsert(fed, s, Prefix(), pending, i);
      GapInsert(pending, usedLen, i, s);
      fed := fed + {s};
      pending := pending[..i] + [s] + pending[i..];
      assert Prefix() == old(Prefix());
    }

    /** Move every pending segment that now touches the prefix into it. */
    method MergePending()
      requires Allocated() && Inv(fed, Prefix(), pending)
      modifies this`buf, this`usedLen, this`pending, buf
      ensures Valid() && (buf == old(buf) || fresh(buf))
      ensures old(Prefix()) <= Prefix()
    {
      hide Inv;
      while pending != []
        invariant Allocated() && Inv(fed, Prefix(), pending)
        invariant buf == old(buf) || fresh(buf)
        invariant old(Prefix()) <= Prefix()
        decreases |pending|
      {
        var s := pending[0];
        if s.off > usedLen { break; }
        PendingIsFed(fed, Prefix(), pending);
        if s.End() > usedLen {
          InvAppend(fed, s, Prefix(), pending);
          Append(s);
        }
        InvDropHead(fed, Prefix(), pending);
        ghost var same := Prefix();
        pending := pending[1..];
        assert Prefix() == same;
      }
      MergedGap(fed, Prefix(), pending);
    }

    /** One client-to-server segment. The result says whether the prefix grew. */
    method Feed(sq: uint32, payload: seq<byte>) returns (grew: bool)
      requires Valid()
      modifies this, buf
      ensures Valid() && (buf == old(buf) || fresh(buf)) && done == old(done)
      ensures done || payload == [] ==>
                fed == old(fed) && haveBase == old(haveBase) && baseSeq == old(baseSeq) && Prefix() == old(Prefix())
      ensures !done && payload != [] ==>
                && haveBase && baseSeq == (if old(haveBase) then old(baseSeq) else sq)
                && fed == old(fed) + Clip(Sub32(sq, baseSeq), payload)
      ensures !done && payload != [] ==>
                var off := (sq - baseSeq) % 0x1_0000_0000;
                forall i, b :: Given(fed, i, b) <==>
                  Given(old(fed), i, b) || (off <= i < off + |payload| && i < 8192 && payload[i - off] == b)
      ensures old(Prefix()) <= Prefix()
      ensures grew <==> |Prefix()| > |old(Prefix())|
    {
      hide Inv, Gap, Given;
      if done || |payload| == 0 { return false; }
      FedExactly(fed, Sub32(sq, if haveBase then baseSeq else sq), payload);
      ghost var before := Prefix();
      if !haveBase {
        baseSeq, haveBase := sq, true;
      }
      assert Prefix() == before;
      var off := Sub32(sq, baseSeq);
      if off >= REASM_MAX_LEN { return false; }
      var len := |payload|;
      if len > REASM_MAX_LEN - off { len := REASM_MAX_LEN - off; }
      var s := Seg(off, payload[..len]);
      if s.End() <= usedLen {
        InvAdd(fed, s, Prefix(), pending);
        fed := fed + {s};
        assert Prefix() == before;
        return false;
      }
      if off > usedLen {
        AddPending(s);
        return false;
      }
      grew := Absorb(s);
    }

    /** A segment that touches the prefix and reaches past it. */
    method Absorb(s: Seg) returns (grew: bool)
      requires Valid() && Clipped(s) && s.off <= usedLen < s.End()
      modifies this`fed, this`buf, this`usedLen, this`pending, buf
      ensures Valid() && (buf == old(buf) || fresh(buf))
      ensures fed == old(fed) + {s} && grew
      ensures old(Prefix()) <= Prefix() && |Prefix()| > |old(Prefix())|
    {
      hide Inv, Gap, Beyond;
      ghost var before := Prefix();
      BeyondGrows(s, usedLen);
      Append(s);
      InvAbsorb(fed, s, before, pending);
      fed := fed + {s};
      assert Prefix() == before + Beyond(s, |before|);
      MergePending();
      return true;
    }

    /** The first record is handled, or given up: drop everything and ignore what follows. */
    method MarkConsumed()
      requires Valid()
      modifies this`done, this`buf, this`usedLen, this`pending, this`fed
      ensures Valid() && done && fed == {} && Prefix() == [] && fresh(buf)
    {
      done := true;
      buf := new byte[0];
      usedLen, pending := 0, [];
      fed := {};
    }
  }

  // ---- what the invariant means ----

  lemma CoverUnique(segs: set<Seg>, j: nat, k: nat)
    requires IsCover(segs, j) && IsCover(segs, k)
    ensures j == k
  {
  }

  /** The prefix is as long as the segments fed so far allow, whatever the order they came in. */
  lemma PrefixIsMaximal(fed: set<Seg>, prefix: seq<byte>, pending: seq<Seg>)
    requires Inv(fed, prefix, pending) && Gap(pending, |prefix|)
    ensures IsCover(fed, |prefix|)
  {
    forall i | 0 <= i < |prefix| ensures Covered(fed, i) {
      var b := prefix[i];
      var s :| s in fed && s.Supplies(i, b);
      assert s.Has(i);
    }
    forall s | s in fed ensures !s.Has(|prefix|) {
      if s.End() > |prefix| {
        var p :| p in pending && p.Outdoes(s);
      }
    }
  }

  /** When the segments are slices of one stream, the prefix is a prefix of that stream. */
  lemma PrefixOfStream(fed: set<Seg>, prefix: seq<byte>, pending: seq<Seg>, stream: seq<byte>)
    requires Inv(fed, prefix, pending) && SlicesOf(fed, stream)
    ensures prefix <= stream
  {
    hide Sourced, SlicesOf, Sorted, Kept, AllClipped;
    if prefix != [] {
      ByteOfStream(fed, prefix, stream, |prefix| - 1);
    }
    forall i | 0 <= i < |prefix| ensures prefix[i] == stream[i] {
      ByteOfStream(fed, prefix, stream, i);
    }
  }

  lemma ByteOfStream(fed: set<Seg>, prefix: seq<byte>, stream: seq<byte>, i: nat)
    requires Sourced(prefix, fed) && SlicesOf(fed, stream) && i < |prefix|
    ensures i < |stream| && prefix[i] == stream[i]
  {
    var b := prefix[i];
    var s :| s in fed && s.Supplies(i, b);
    assert s.SliceOf(stream);
  }

  /** Two reassemblers that were fed the same segments, in any order and any number of times, hold the same prefix. */
  lemma OrderIrrelevant(a: Reassembler, b: Reassembler, stream: seq<byte>)
    requires a.Valid() && b.Valid() && a.fed == b.fed
    requires SlicesOf(a.fed, stream)
    ensures a.Prefix() == b.Prefix() <= stream
    ensures IsCover(a.fed, a.usedLen)
  {
    PrefixIsMaximal(a.fed, a.Prefix(), a.pending);
    PrefixIsMaximal(b.fed, b.Prefix(), b.pending);
    CoverUnique(a.fed, a.usedLen, b.usedLen);
    PrefixOfStream(a.fed, a.Prefix(), a.pending, stream);
    PrefixOfStream(b.fed, b.Prefix(), b.pending, stream);
  }

  // ---- the pending list is bounded ----

  /** How many (offset, length) pairs with offset + length <= 8192 have an offset in [1, off). */
  function Below(off: nat): nat
    requires 1 <= off <= REASM_MAX_LEN
  {
    if off == 1 then 0 else Below(off - 1) + (REASM_MAX_LEN - (off - 1))
  }

  lemma {:induction false} BelowClosed(off: nat)
    requires 1 <= off <= REASM_MAX_LEN
    ensures 2 * Below(off) == (off - 1) * (2 * REASM_MAX_LEN - off)
  {
    if off > 1 {
      BelowClosed(off - 1);
    }
  }

  lemma {:induction false} BelowMonotone(a: nat, b: nat)
    requires 1 <= a <= b <= REASM_MAX_LEN
    ensures Below(a) <= Below(b)
    decreases b
  {
    if a < b {
      BelowMonotone(a, b - 1);
    }
  }

  /** The position of a segment among all the segments that can be pending, in list order. */
  function Rank(s: Seg): int
    requires 1 <= s.off < s.End() <= REASM_MAX_LEN
  {
    Below(s.off) + (REASM_MAX_LEN - s.End())
  }

  lemma {:induction false} RankAtLeastIndex(pending: seq<Seg>, i: nat)
    requires Sorted(pending) && i < |pending|
    requires forall j :: 0 <= j < |pending| ==> 1 <= pending[j].off < pending[j].End() <= REASM_MAX_LEN
    ensures Rank(pending[i]) >= i
  {
    if i > 0 {
      RankAtLeastIndex(pending, i - 1);
      var a, b := pending[i - 1], pending[i];
      assert a.Before(b);
      if a.off < b.off {
        BelowMonotone(a.off + 1, b.off);
      }
    }
  }

  lemma SortedBounded(pending: seq<Seg>)
    requires Sorted(pending)
    requires forall j :: 0 <= j < |pending| ==> 1 <= pending[j].off < pending[j].End() <= REASM_MAX_LEN
    ensures |pending| <= Below(REASM_MAX_LEN)
  {
    if pending != [] {
      var last := pending[|pending| - 1];
      RankAtLeastIndex(pending, |pending| - 1);
      BelowMonotone(last.off + 1, REASM_MAX_LEN);
    }
  }

  /** However many packets arrive, fewer than 33.6 million segments are buffered. */
  lemma PendingBounded(fed: set<Seg>, prefix: seq<byte>, pending: seq<Seg>)
    requires Inv(fed, prefix, pending) && Gap(pending, |prefix|)
    ensures |pending| <= 8191 * 8192 / 2
  {
    forall j | 0 <= j < |pending| ensures 1 <= pending[j].off < pending[j].End() <= REASM_MAX_LEN {
      assert pending[j] in pending && Clipped(pending[j]);
    }
    SortedBounded(pending);
    BelowClosed(REASM_MAX_LEN);
  }

  // ---- sequence numbers wrap ----

  /** The offset computed for the byte at position `o` of the stream is `o` modulo 2^32. */
  lemma OffsetOfPosition(isn: uint32, o: nat)
    ensures Sub32((isn + 1 + o) % TWO32, (isn + 1) % TWO32) == o % TWO32
  {
    var base := (isn + 1) % TWO32;
    var r := Sub32((isn + 1 + o) % TWO32, base);
    assert (base + r) % TWO32 == (isn + 1 + o) % TWO32;
  }
}
