/** apptraffic/src/capture.c: one TLS connection, from raw TCP segments to the server-name callback. */
module Capture {
  import opened Bytes
  import opened TcpReasm
  import Tls

  /** The fields process_transport reads from a TCP header, and what follows it. */
  datatype Segment = Segment(syn: bool, sq: uint32, payload: seq<byte>)

  function DecodeTcp(tp: seq<byte>): Option<Segment> {
    if |tp| < 20 then None
    else
      var headerLen := tp[12] / 16 * 4;
      if headerLen > |tp| || headerLen < 20 then None
      else Some(Segment(tp[13] / 2 % 2 == 1, Be32(tp[4], tp[5], tp[6], tp[7]), tp[headerLen..]))
  }

  // ---- a TCP segment: section 3.1 of RFC 793 ----

  /** The fields the capture does not look at: ports, acknowledgement, reserved bits, URG to RST, FIN, what follows the
      flags, options. */
  datatype Header = Header(ports: seq<byte>, ack: seq<byte>, reserved: nat, flags: nat, fin: nat, window: seq<byte>,
                           options: seq<byte>)
  {
    predicate WellFormed() {
      && |ports| == 4 && |ack| == 4 && |window| == 6
      && reserved < 16 && flags < 64 && fin < 2
      && |options| % 4 == 0 && |options| <= 40
    }
  }

  function EncodeTcp(h: Header, sq: uint32, syn: bool, payload: seq<byte>): (tp: seq<byte>)
    requires h.WellFormed()
  {
    h.ports + U32(sq) + h.ack
    + [(5 + |h.options| / 4) * 16 + h.reserved, h.flags * 4 + (if syn then 2 else 0) + h.fin]
    + h.window + h.options + payload
  }

  /** Every encoded segment is read back: sequence number, SYN flag and payload. */
  lemma TcpRoundTrip(h: Header, sq: uint32, syn: bool, payload: seq<byte>)
    requires h.WellFormed()
    ensures DecodeTcp(EncodeTcp(h, sq, syn, payload)) == Some(Segment(syn, sq, payload))
  {
    hide EncodeTcp, U32;
    EncodedFields(h, sq, syn, payload);
    var tp, n := EncodeTcp(h, sq, syn, payload), U32(sq);
    assert tp[4] == n[0] && tp[5] == n[1] && tp[6] == n[2] && tp[7] == n[3] by {
      assert tp[4..8][0] == tp[4] && tp[4..8][1] == tp[5] && tp[4..8][2] == tp[6] && tp[4..8][3] == tp[7];
    }
    var words := 5 + |h.options| / 4;
    DivMod(tp[12] as int, 16, words, h.reserved);
    assert 4 * words == 20 + |h.options|;
    FlagRead(h.flags, if syn then 1 else 0, h.fin);
  }

  lemma EncodedFields(h: Header, sq: uint32, syn: bool, payload: seq<byte>)
    requires h.WellFormed()
    ensures var tp := EncodeTcp(h, sq, syn, payload);
            && |tp| == 20 + |h.options| + |payload|
            && tp[4..8] == U32(sq)
            && tp[12] as int == (5 + |h.options| / 4) * 16 + h.reserved
            && tp[13] as int == h.flags * 4 + (if syn then 2 else 0) + h.fin
            && tp[20 + |h.options|..] == payload
  {
    hide U32;
    var tp := EncodeTcp(h, sq, syn, payload);
    var offset, flags := (5 + |h.options| / 4) * 16 + h.reserved, h.flags * 4 + (if syn then 2 else 0) + h.fin;
    var front, back := h.ports + U32(sq) + h.ack, h.window + h.options;
    assert tp == front + [offset, flags] + back + payload;
    assert front[4..8] == U32(sq);
  }

  lemma FlagRead(flags: nat, syn: nat, fin: nat)
    requires syn < 2 && fin < 2
    ensures (flags * 4 + syn * 2 + fin) / 2 % 2 == syn
  {
    DivMod(flags * 4 + syn * 2 + fin, 2, flags * 2 + syn, fin);
    DivMod(flags * 2 + syn, 2, flags, syn);
  }

  // ---- what a connection sent, as a set ----

  /** The stream bytes a segment places within the first 8192, once offset 0 is at `base`. */
  function Placed(base: uint32, tp: seq<byte>): set<Seg> {
    match DecodeTcp(tp)
    case None => {}
    case Some(p) => if p.syn then {} else Clip(Sub32(p.sq, base), p.payload)
  }

  ghost function AllPlaced(base: uint32, packets: seq<seq<byte>>): set<Seg> {
    set tp, s | tp in packets && s in Placed(base, tp) :: s
  }

  /** Everything the packets place is what the stream has there. */
  ghost predicate Honest(base: uint32, packets: seq<seq<byte>>, stream: seq<byte>) {
    forall tp :: tp in packets ==> SlicesOf(Placed(base, tp), stream)
  }

  // ---- when the first record is complete ----

  function Complete(data: seq<byte>): bool {
    |data| >= 5 && data[0] == Tls.HANDSHAKE && |data| >= 5 + Be16(data[3], data[4])
  }

  /** Not the start of a handshake record, and no room for more. */
  function Hopeless(data: seq<byte>): bool {
    !(|data| >= 5 && data[0] == Tls.HANDSHAKE) && |data| >= REASM_MAX_LEN
  }

  /** When a stream is consumed: its first record is a handshake and complete, or it is no handshake and the window is
      full. */
  lemma ConsumedExactly(data: seq<byte>)
    ensures Complete(data) || Hopeless(data) <==>
            if |data| >= 5 && data[0] == 22 then |data| >= 5 + data[3] as int * 256 + data[4] as int
            else |data| >= 8192
  {
  }

  const HOST_BUF: nat := 256

  function Report(data: seq<byte>): seq<seq<byte>> {
    match Tls.SniOf(data, HOST_BUF)
    case None => []
    case Some(host) => [host]
  }

  /** What the stream data of a reassembler looks like after it was fed exactly the segments of `seen`. */
  ghost predicate FirstRecord(data: seq<byte>, seen: set<Seg>) {
    exists pending :: Shape(data, seen, pending)
  }

  ghost predicate Shape(data: seq<byte>, seen: set<Seg>, pending: seq<Seg>) {
    Inv(seen, data, pending) && Gap(pending, |data|)
  }

  /** The sequence number of stream offset 0: after the SYN if there is one, else of the first data. */
  function BaseFrom(tp: seq<byte>): Option<uint32> {
    match DecodeTcp(tp)
    case None => None
    case Some(p) => if p.syn then Some((p.sq + 1) % TWO32) else if p.payload == [] then None else Some(p.sq)
  }

  function BaseOf(packets: seq<seq<byte>>): Option<uint32> {
    if packets == [] then None
    else
      var earlier := BaseOf(packets[..|packets| - 1]);
      if earlier.Some? then earlier else BaseFrom(packets[|packets| - 1])
  }

  class TlsStream {
    const reasm: Reassembler
    var hosts: seq<seq<byte>>   // the calls of the server-name callback, in order
    ghost var seen: set<Seg>    // what the connection has placed so far

    ghost predicate Valid()
      reads this, reasm, reasm.buf
    {
      && reasm.Valid()
      && |hosts| <= 1
      && (reasm.done ==> reasm.haveBase)
      && (!reasm.haveBase ==> seen == {})
      && (!reasm.done ==> hosts == [] && reasm.fed == seen && !Complete(reasm.Prefix()) && !Hopeless(reasm.Prefix()))
    }

    ghost function Base(): Option<uint32>
      reads reasm
    {
      if reasm.haveBase then Some(reasm.baseSeq) else None
    }

    constructor ()
      ensures Valid() && fresh(reasm) && fresh(reasm.buf)
      ensures Base() == None && !reasm.done && hosts == [] && seen == {}
    {
      reasm := new Reassembler();
      hosts, seen := [], {};
    }

    /** A segment that carries data: feed it, and if that completes the first record, report the server name. */
    method OnData(sq: uint32, payload: seq<byte>)
      requires Valid() && payload != []
      modifies this, reasm, reasm.buf
      ensures Valid() && (reasm.buf == old(reasm.buf) || fresh(reasm.buf))
      ensures Base() == if old(Base()).Some? then old(Base()) else Some(sq)
      ensures seen == old(seen) + Clip(Sub32(sq, reasm.baseSeq), payload)
      ensures old(reasm.done) ==> reasm.done && hosts == old(hosts)
      ensures !old(reasm.done) && reasm.done ==>
                exists data :: FirstRecord(data, seen)
                  && (Complete(data) || Hopeless(data)) && hosts == if Complete(data) then Report(data) else []
    {
      hide Inv, Gap, Tls.SniOf, Clip;
      if reasm.done {
        seen := seen + Clip(Sub32(sq, reasm.baseSeq), payload);
        return;
      }
      var grew := reasm.Feed(sq, payload);
      seen := seen + Clip(Sub32(sq, reasm.baseSeq), payload);
      var data := reasm.Prefix();
      if |data| == 0 { return; }
      ghost var pending := reasm.pending;
      assert FirstRecord(data, seen) by { assert Shape(data, seen, pending); }
      if |data| >= 5 && data[0] == Tls.HANDSHAKE {
        var need := 5 + Be16(data[3], data[4]);
        if |data| >= need {
          var host := Tls.ParseSni(data, HOST_BUF);
          if host.Some? {
            hosts := hosts + [host.value];
          }
          reasm.MarkConsumed();
          assert Complete(data) && hosts == Report(data);
        }
      } else if |data| >= REASM_MAX_LEN {
        reasm.MarkConsumed();
      }
    }

    /** process_transport, for a TCP packet of this connection. */
    method OnPacket(tp: seq<byte>)
      requires Valid()
      modifies this, reasm, reasm.buf
      ensures Valid() && (reasm.buf == old(reasm.buf) || fresh(reasm.buf))
      ensures Base() == if old(Base()).Some? then old(Base()) else BaseFrom(tp)
      ensures seen == old(seen) + if Base().Some? then Placed(reasm.baseSeq, tp) else {}
      ensures old(reasm.done) ==> reasm.done && hosts == old(hosts)
      ensures !old(reasm.done) && reasm.done ==>
                exists data :: FirstRecord(data, seen)
                  && (Complete(data) || Hopeless(data)) && hosts == if Complete(data) then Report(data) else []
    {
      if |tp| < 20 { return; }
      var headerLen := tp[12] / 16 * 4;
      if headerLen > |tp| { return; }
      if headerLen < 20 { return; }
      var syn := tp[13] / 2 % 2 == 1;
      var sq := Be32(tp[4], tp[5], tp[6], tp[7]);
      if syn {
        reasm.SetIsn(sq);
        return;
      }
      var payload := tp[headerLen..];
      if |payload| <= 0 { return; }
      OnData(sq, payload);
    }
  }

  // ---- the capture of one ClientHello ----

  ghost function Expected(ch: Tls.ClientHello): seq<seq<byte>> {
    match Tls.Announced(ch.extensions, HOST_BUF)
    case None => []
    case Some(host) => [host]
  }

  /** A reassembler that holds part of a stream starting with a ClientHello record. */
  lemma FirstRecordOfHello(data: seq<byte>, seen: set<Seg>, ch: Tls.ClientHello, stream: seq<byte>)
    requires FirstRecord(data, seen) && SlicesOf(seen, stream)
    requires ch.WellFormed() && |ch.Record()| <= REASM_MAX_LEN && ch.Record() <= stream
    ensures Complete(data) <==> |data| >= |ch.Record()|
    ensures !Hopeless(data)
    ensures CoversUpTo(seen, |ch.Record()|) <==> Complete(data)
    ensures Complete(data) ==> Report(data) == Expected(ch)
  {
    hide Inv, Gap;
    var pending :| Shape(data, seen, pending);
    var r := ch.Record();
    PrefixIsMaximal(seen, data, pending);
    PrefixOfStream(seen, data, pending, stream);
    assert r == [Tls.HANDSHAKE] + U16(ch.recordVersion) + U16(|ch.Message()|) + ch.Message();
    assert forall i :: 0 <= i < |data| && i < |r| ==> data[i] == r[i];
    if |data| >= |r| {
      assert data == r + data[|r|..];
      Tls.RecordRoundTrip(ch, data[|r|..], HOST_BUF);
    }
  }

  lemma CoverageGrows(seen: set<Seg>, more: set<Seg>, k: nat)
    requires CoversUpTo(seen, k) && seen <= more
    ensures CoversUpTo(more, k)
  {
    forall i | 0 <= i < k ensures Covered(more, i) {
      assert Covered(seen, i);
    }
  }

  lemma BaseStep(packets: seq<seq<byte>>, i: nat)
    requires i < |packets|
    ensures BaseOf(packets[..i + 1]) ==
            if BaseOf(packets[..i]).Some? then BaseOf(packets[..i]) else BaseFrom(packets[i])
  {
    assert packets[..i + 1][..i] == packets[..i];
  }

  lemma {:induction false} BasePersists(packets: seq<seq<byte>>, i: nat)
    requires i <= |packets| && BaseOf(packets[..i]).Some?
    ensures BaseOf(packets) == BaseOf(packets[..i])
    decreases |packets| - i
  {
    if i == |packets| {
      assert packets[..i] == packets;
    } else {
      BaseStep(packets, i);
      BasePersists(packets, i + 1);
    }
  }

  lemma PlacedStep(base: uint32, packets: seq<seq<byte>>, i: nat)
    requires i < |packets|
    ensures AllPlaced(base, packets[..i + 1]) == AllPlaced(base, packets[..i]) + Placed(base, packets[i])
  {
    assert packets[..i + 1] == packets[..i] + [packets[i]];
  }

  /** Nothing captured before the base is known carries data. */
  lemma {:induction false} NothingBeforeBase(base: uint32, packets: seq<seq<byte>>, i: nat)
    requires i <= |packets| && BaseOf(packets[..i]) == None
    ensures AllPlaced(base, packets[..i]) == {}
  {
    if i > 0 {
      BaseStep(packets, i - 1);
      NothingBeforeBase(base, packets, i - 1);
      PlacedStep(base, packets, i - 1);
    }
  }

  lemma HonestSlices(base: uint32, packets: seq<seq<byte>>, i: nat, stream: seq<byte>)
    requires i <= |packets| && Honest(base, packets, stream)
    ensures SlicesOf(AllPlaced(base, packets[..i]), stream)
  {
    forall s | s in AllPlaced(base, packets[..i]) ensures s.SliceOf(stream) {
      var tp :| tp in packets[..i] && s in Placed(base, tp);
      assert tp in packets;
    }
  }

  // ---- what a stream knows after some packets ----

  /** What the packets of a connection report: the announced host once they cover the record. */
  ghost function Reported(packets: seq<seq<byte>>, ch: Tls.ClientHello): seq<seq<byte>>
    requires ch.WellFormed()
  {
    if Covering(packets, ch) then Expected(ch) else []
  }

  ghost predicate Covering(packets: seq<seq<byte>>, ch: Tls.ClientHello)
    requires ch.WellFormed()
  {
    BaseOf(packets).Some? && CoversUpTo(AllPlaced(BaseOf(packets).value, packets), |ch.Record()|)
  }

  /** The packets carry parts of a stream that starts with the record of this ClientHello. */
  ghost predicate HelloStream(packets: seq<seq<byte>>, ch: Tls.ClientHello, stream: seq<byte>) {
    && ch.WellFormed() && |ch.Record()| <= REASM_MAX_LEN && ch.Record() <= stream
    && (BaseOf(packets).Some? ==> Honest(BaseOf(packets).value, packets, stream))
  }

  /** The calls of the server-name callback so far are the right ones, whatever ClientHello the stream starts with. */
  ghost predicate Tells(packets: seq<seq<byte>>, hosts: seq<seq<byte>>, done: bool) {
    forall ch, stream :: HelloStream(packets, ch, stream) ==>
      hosts == Reported(packets, ch) && (done ==> Covering(packets, ch))
  }

  /** The stream is where its packets lead. */
  ghost predicate Follows(s: TlsStream, packets: seq<seq<byte>>)
    reads s, s.reasm, s.reasm.buf
  {
    && s.Valid()
    && s.Base() == BaseOf(packets)
    && (s.Base().Some? ==> s.seen == AllPlaced(s.reasm.baseSeq, packets))
    && Tells(packets, s.hosts, s.reasm.done)
  }

  lemma KnowsStep(packets: seq<seq<byte>>, tp: seq<byte>, before: set<Seg>, after: set<Seg>)
    requires BaseOf(packets) == None ==> before == {}
    requires BaseOf(packets).Some? ==> before == AllPlaced(BaseOf(packets).value, packets)
    requires after == before + if BaseOf(packets + [tp]).Some? then Placed(BaseOf(packets + [tp]).value, tp) else {}
    ensures BaseOf(packets + [tp]) == if BaseOf(packets).Some? then BaseOf(packets) else BaseFrom(tp)
    ensures BaseOf(packets + [tp]).Some? ==> after == AllPlaced(BaseOf(packets + [tp]).value, packets + [tp])
  {
    hide Placed, BaseFrom;
    var more, n := packets + [tp], |packets|;
    assert more[..n] == packets && more[..n + 1] == more;
    BaseStep(more, n);
    var b := BaseOf(more);
    if b.Some? {
      if BaseOf(packets) == None {
        NothingBeforeBase(b.value, more, n);
      }
      PlacedStep(b.value, more, n);
    }
  }

  /** Nothing captured, nothing told. */
  lemma NothingTold()
    ensures BaseOf([]) == None && Tells([], [], false)
  {
    hide CoversUpTo, AllPlaced, Expected, Honest;
  }

  lemma StillWaiting(s: TlsStream)
    requires s.Valid() && !s.reasm.done
    ensures FirstRecord(s.reasm.Prefix(), s.seen) && !Complete(s.reasm.Prefix()) && s.hosts == []
  {
    assert Shape(s.reasm.Prefix(), s.seen, s.reasm.pending);
  }

  /** One packet less of a stream that starts with a ClientHello. */
  lemma EarlierHello(packets: seq<seq<byte>>, tp: seq<byte>, ch: Tls.ClientHello, stream: seq<byte>)
    requires HelloStream(packets + [tp], ch, stream)
    requires BaseOf(packets).Some? ==> BaseOf(packets + [tp]) == BaseOf(packets)
    ensures HelloStream(packets, ch, stream)
  {
    hide BaseOf, Placed, SlicesOf;
    assert forall p :: p in packets ==> p in packets + [tp];
  }

  lemma AllHonest(base: uint32, packets: seq<seq<byte>>, stream: seq<byte>)
    requires Honest(base, packets, stream)
    ensures SlicesOf(AllPlaced(base, packets), stream)
  {
    assert packets[..|packets|] == packets;
    HonestSlices(base, packets, |packets|, stream);
  }

  /** A stream that was done stays right. */
  lemma DoneStaysRight(packets: seq<seq<byte>>, tp: seq<byte>, hosts: seq<seq<byte>>)
    requires Tells(packets, hosts, true)
    requires BaseOf(packets).Some? ==>
               && BaseOf(packets + [tp]) == BaseOf(packets)
               && AllPlaced(BaseOf(packets).value, packets) <= AllPlaced(BaseOf(packets).value, packets + [tp])
    ensures Tells(packets + [tp], hosts, true)
  {
    hide BaseOf, AllPlaced, CoversUpTo, Expected, Honest;
    forall ch, stream | HelloStream(packets + [tp], ch, stream)
      ensures hosts == Reported(packets + [tp], ch) && Covering(packets + [tp], ch)
    {
      HelloIs(packets + [tp], ch, stream);
      EarlierHello(packets, tp, ch, stream);
      var base := BaseOf(packets).value;
      CoverageGrows(AllPlaced(base, packets), AllPlaced(base, packets + [tp]), |ch.Record()|);
    }
  }

  lemma HelloIs(packets: seq<seq<byte>>, ch: Tls.ClientHello, stream: seq<byte>)
    requires HelloStream(packets, ch, stream)
    ensures ch.WellFormed() && |ch.Record()| <= REASM_MAX_LEN && ch.Record() <= stream
    ensures BaseOf(packets).Some? ==> SlicesOf(AllPlaced(BaseOf(packets).value, packets), stream)
  {
    hide BaseOf, SlicesOf, AllPlaced, Placed;
    if BaseOf(packets).Some? {
      AllHonest(BaseOf(packets).value, packets, stream);
    }
  }

  /** What the reassembled data tells, when it is consumed and before. */
  lemma DataTells(packets: seq<seq<byte>>, data: seq<byte>, hosts: seq<seq<byte>>, done: bool)
    requires BaseOf(packets).Some? && FirstRecord(data, AllPlaced(BaseOf(packets).value, packets))
    requires if done then (Complete(data) || Hopeless(data)) && hosts == (if Complete(data) then Report(data) else [])
             else !Complete(data) && hosts == []
    ensures Tells(packets, hosts, done)
  {
    hide BaseOf, AllPlaced, CoversUpTo, Expected, Honest, FirstRecord, Complete, Hopeless, Report, SlicesOf;
    forall ch, stream | HelloStream(packets, ch, stream)
      ensures hosts == Reported(packets, ch) && (done ==> Covering(packets, ch))
    {
      HelloIs(packets, ch, stream);
      FirstRecordOfHello(data, AllPlaced(BaseOf(packets).value, packets), ch, stream);
    }
  }

  lemma BaselessTells(packets: seq<seq<byte>>)
    requires BaseOf(packets) == None
    ensures Tells(packets, [], false)
  {
    hide BaseOf, Honest, CoversUpTo, AllPlaced, Expected;
    forall ch, stream | HelloStream(packets, ch, stream) ensures [] == Reported(packets, ch) {
      HelloIs(packets, ch, stream);
    }
  }

  /** One more packet of a connection, whatever came before. */
  method Follow(s: TlsStream, tp: seq<byte>, ghost packets: seq<seq<byte>>)
    requires Follows(s, packets)
    modifies s, s.reasm, s.reasm.buf
    ensures Follows(s, packets + [tp]) && (s.reasm.buf == old(s.reasm.buf) || fresh(s.reasm.buf))
    ensures old(s.reasm.done) ==> s.reasm.done
  {
    hide Tells, BaseOf, BaseFrom, AllPlaced, Placed, FirstRecord, Complete, Hopeless, Report, Inv, Gap;
    ghost var before, wasDone := s.seen, s.reasm.done;
    BaseAppend(packets, tp);
    s.OnPacket(tp);
    KnowsStep(packets, tp, before, s.seen);
    if wasDone {
      DoneStaysRight(packets, tp, s.hosts);
    } else if s.reasm.done {
      ghost var data :| FirstRecord(data, s.seen) && (Complete(data) || Hopeless(data))
                        && s.hosts == if Complete(data) then Report(data) else [];
      DataTells(packets + [tp], data, s.hosts, true);
    } else if s.Base().Some? {
      StillWaiting(s);
      DataTells(packets + [tp], s.reasm.Prefix(), s.hosts, false);
    } else {
      BaselessTells(packets + [tp]);
    }
  }

  lemma BaseAppend(packets: seq<seq<byte>>, tp: seq<byte>)
    ensures BaseOf(packets + [tp]) == if BaseOf(packets).Some? then BaseOf(packets) else BaseFrom(tp)
  {
    assert (packets + [tp])[..|packets|] == packets;
  }

  /** The packets of one connection, in the order they are captured. The server name is reported once, exactly when
      the segments seen so far cover the record, however the stream was cut, reordered and repeated. */
  method CaptureConnection(packets: seq<seq<byte>>, ghost ch: Tls.ClientHello, ghost stream: seq<byte>)
    returns (hosts: seq<seq<byte>>)
    requires ch.WellFormed() && |ch.Record()| <= REASM_MAX_LEN && ch.Record() <= stream
    requires BaseOf(packets).Some? ==> Honest(BaseOf(packets).value, packets, stream)
    ensures hosts == Reported(packets, ch)
  {
    hide Tells, BaseOf, AllPlaced, Honest, Reported, TlsStream.Valid;
    NothingTold();
    var s := new TlsStream();
    assert packets[..|packets|] == packets;
    for i := 0 to |packets|
      invariant fresh(s) && fresh(s.reasm) && fresh(s.reasm.buf) && Follows(s, packets[..i])
    {
      assert packets[..i + 1] == packets[..i] + [packets[i]];
      Follow(s, packets[i], packets[..i]);
    }
    hosts := s.hosts;
    TellsOne(packets, hosts, s.reasm.done, ch, stream);
  }

  lemma TellsOne(packets: seq<seq<byte>>, hosts: seq<seq<byte>>, done: bool, ch: Tls.ClientHello, stream: seq<byte>)
    requires Tells(packets, hosts, done) && HelloStream(packets, ch, stream)
    ensures hosts == Reported(packets, ch)
  {
  }

  /** What is placed depends only on which packets came, not on their order or number. */
  lemma PlacedIgnoresOrder(base: uint32, a: seq<seq<byte>>, b: seq<seq<byte>>)
    requires forall tp :: tp in a <==> tp in b
    ensures AllPlaced(base, a) == AllPlaced(base, b)
  {
  }

  /** Two captures that start with the same SYN and hold the same packets, in any order and any number of times, report
      the same; and one is honest if the other is. */
  lemma ReorderedCapture(syn: seq<byte>, a: seq<seq<byte>>, b: seq<seq<byte>>, ch: Tls.ClientHello, stream: seq<byte>)
    requires DecodeTcp(syn).Some? && DecodeTcp(syn).value.syn && ch.WellFormed()
    requires forall tp :: tp in a <==> tp in b
    ensures Reported([syn] + a, ch) == Reported([syn] + b, ch)
    ensures var base := (DecodeTcp(syn).value.sq + 1) % TWO32;
            && BaseOf([syn] + a) == BaseOf([syn] + b) == Some(base)
            && (Honest(base, [syn] + a, stream) <==> Honest(base, [syn] + b, stream))
  {
    hide BaseOf, AllPlaced, Placed, CoversUpTo, Expected, SlicesOf;
    SynFirst(syn, a);
    SynFirst(syn, b);
    PlacedIgnoresOrder((DecodeTcp(syn).value.sq + 1) % TWO32, a, b);
    assert forall tp :: tp in [syn] + a <==> tp in [syn] + b;
  }

  lemma SynFirst(syn: seq<byte>, packets: seq<seq<byte>>)
    requires DecodeTcp(syn).Some? && DecodeTcp(syn).value.syn
    ensures BaseOf([syn] + packets) == Some((DecodeTcp(syn).value.sq + 1) % TWO32)
    ensures AllPlaced((DecodeTcp(syn).value.sq + 1) % TWO32, [syn] + packets) ==
            AllPlaced((DecodeTcp(syn).value.sq + 1) % TWO32, packets)
  {
    var all := [syn] + packets;
    assert all[..1] == [syn];
    assert BaseOf(all[..1]) == BaseFrom(syn) by {
      assert [syn][..0] == [];
    }
    BasePersists(all, 1);
    assert Placed((DecodeTcp(syn).value.sq + 1) % TWO32, syn) == {};
  }

  /** Bytes at position `o` of the stream are placed at `o`, or not at all, exactly when the 32-bit offset has not
      come round to the first 8192 again. */
  lemma PlacedWhereTheyBelong(isn: uint32, o: nat, payload: seq<byte>)
    requires payload != []
    ensures (forall s :: s in Clip(Sub32((isn + 1 + o) % TWO32, (isn + 1) % TWO32), payload) ==> s.off == o)
            <==> (o < TWO32 || o % TWO32 >= REASM_MAX_LEN)
  {
    OffsetOfPosition(isn, o);
    var r := o % TWO32;
    if r < REASM_MAX_LEN {
      assert Seg(r, payload[..Min(|payload|, REASM_MAX_LEN - r)]) in Clip(r, payload);
    }
  }

  /** The byte 4 GiB into a stream is taken for its first one. */
  lemma WrappedByteMisplaced()
    ensures Clip(Sub32((0 + 1 + TWO32) % TWO32, 1), [7]) == {Seg(0, [7])}
  {
    assert [7][..1] == [7];
  }

  /** Slices of the stream, at positions that do not wrap into the window, are honest. */
  lemma SliceIsHonest(isn: uint32, o: nat, payload: seq<byte>, stream: seq<byte>)
    requires o + |payload| <= |stream| && payload == stream[o..o + |payload|]
    requires o < TWO32 || o % TWO32 >= REASM_MAX_LEN
    ensures SlicesOf(Clip(Sub32((isn + 1 + o) % TWO32, (isn + 1) % TWO32), payload), stream)
  {
    OffsetOfPosition(isn, o);
  }

  /** A packet after the SYN carries a piece of the stream, at a position that has not wrapped into the window. */
  ghost predicate CarriesSlice(isn: uint32, tp: seq<byte>, stream: seq<byte>) {
    match DecodeTcp(tp)
    case None => true
    case Some(p) =>
      p.syn || p.payload == [] ||
      exists o: nat :: SliceAt(isn, p, o, stream)
  }

  ghost predicate SliceAt(isn: uint32, p: Segment, o: nat, stream: seq<byte>) {
    && o + |p.payload| <= |stream| && p.payload == stream[o..o + |p.payload|]
    && p.sq == (isn + 1 + o) % TWO32
    && (o < TWO32 || o % TWO32 >= REASM_MAX_LEN)
  }

  /** Packets that carry pieces of one stream are honest. */
  lemma SlicesAreHonest(isn: uint32, packets: seq<seq<byte>>, stream: seq<byte>)
    requires forall tp :: tp in packets ==> CarriesSlice(isn, tp, stream)
    ensures Honest((isn + 1) % TWO32, packets, stream)
  {
    hide SlicesOf, Clip;
    forall tp | tp in packets ensures SlicesOf(Placed((isn + 1) % TWO32, tp), stream) {
      assert CarriesSlice(isn, tp, stream);
      NoSlices(stream);
      match DecodeTcp(tp) {
        case None =>
        case Some(p) =>
          if !p.syn && p.payload != [] {
            var o: nat :| SliceAt(isn, p, o, stream);
            SliceIsHonest(isn, o, p.payload, stream);
          } else if !p.syn {
            NothingClipped(Sub32(p.sq, (isn + 1) % TWO32));
          }
      }
    }
  }

  lemma NoSlices(stream: seq<byte>)
    ensures SlicesOf({}, stream)
  {
  }

  lemma NothingClipped(off: nat)
    ensures Clip(off, []) == {}
  {
  }

  /** Position k of the stream lies inside the payload of one of the packets. */
  ghost predicate Captured(isn: uint32, packets: seq<seq<byte>>, stream: seq<byte>, k: nat) {
    exists tp, o: nat :: tp in packets && CarriesAt(isn, tp, stream, o, k)
  }

  /** The packet carries a slice of the stream from o on, and position k is in it. */
  ghost predicate CarriesAt(isn: uint32, tp: seq<byte>, stream: seq<byte>, o: nat, k: nat) {
    match DecodeTcp(tp)
    case None => false
    case Some(p) => !p.syn && SliceAt(isn, p, o, stream) && o <= k < o + |p.payload|
  }

  /** What is placed of one packet with a slice covers a position of the window exactly if the slice has it. */
  lemma PlacedHas(isn: uint32, tp: seq<byte>, stream: seq<byte>, o: nat, k: nat)
    requires DecodeTcp(tp).Some? && !DecodeTcp(tp).value.syn && SliceAt(isn, DecodeTcp(tp).value, o, stream) && k < 8192
    ensures Covered(Placed((isn + 1) % TWO32, tp), k) <==> o <= k < o + |DecodeTcp(tp).value.payload|
  {
    hide DecodeTcp, Covered, Clip;
    var p := DecodeTcp(tp).value;
    OffsetOfPosition(isn, o);
    ClipHas(Sub32(p.sq, (isn + 1) % TWO32), p.payload, o, k);
  }

  lemma ClipHas(off: nat, payload: seq<byte>, o: nat, k: nat)
    requires k < 8192 && (off == o || (off >= 8192 && o >= 8192))
    ensures Covered(Clip(off, payload), k) <==> o <= k < o + |payload|
  {
    hide Clip;
    var segs := Clip(off, payload);
    if Covered(segs, k) {
      var s :| s in segs && s.Has(k);
      ClipExactly(off, payload, k, s.data[k - s.off]);
      assert s.Supplies(k, s.data[k - s.off]);
    }
    if o <= k < o + |payload| {
      ClipExactly(off, payload, k, payload[k - o]);
      var s :| s in segs && s.Supplies(k, payload[k - o]);
    }
  }

  /** The placed segments cover a position of the window exactly if it was captured. */
  lemma CoveredIfCaptured(isn: uint32, packets: seq<seq<byte>>, stream: seq<byte>, k: nat)
    requires forall tp :: tp in packets ==> CarriesSlice(isn, tp, stream)
    requires k < 8192
    ensures Covered(AllPlaced((isn + 1) % TWO32, packets), k) <==> Captured(isn, packets, stream, k)
  {
    hide DecodeTcp, Clip, SliceAt, Seg.Has;
    var base := (isn + 1) % TWO32;
    if Covered(AllPlaced(base, packets), k) {
      var s :| s in AllPlaced(base, packets) && s.Has(k);
      var tp :| tp in packets && s in Placed(base, tp);
      assert CarriesSlice(isn, tp, stream);
      var p := DecodeTcp(tp).value;
      if p.payload == [] { NothingClipped(Sub32(p.sq, base)); }
      var o: nat :| SliceAt(isn, p, o, stream);
      PlacedHas(isn, tp, stream, o, k);
      assert CarriesAt(isn, tp, stream, o, k);
    }
    if Captured(isn, packets, stream, k) {
      var tp, o: nat :| tp in packets && CarriesAt(isn, tp, stream, o, k);
      PlacedHas(isn, tp, stream, o, k);
      var s :| s in Placed(base, tp) && s.Has(k);
      assert s in AllPlaced(base, packets);
    }
  }

  /** Every position of the record was captured. */
  ghost predicate RecordCaptured(isn: uint32, packets: seq<seq<byte>>, stream: seq<byte>, ch: Tls.ClientHello)
    requires ch.WellFormed()
  {
    forall k: nat :: k < |ch.Record()| ==> Captured(isn, packets, stream, k)
  }

  lemma CoversIfCaptured(isn: uint32, packets: seq<seq<byte>>, stream: seq<byte>, ch: Tls.ClientHello)
    requires ch.WellFormed() && |ch.Record()| <= 8192
    requires forall tp :: tp in packets ==> CarriesSlice(isn, tp, stream)
    ensures CoversUpTo(AllPlaced((isn + 1) % TWO32, packets), |ch.Record()|) <==>
            RecordCaptured(isn, packets, stream, ch)
  {
    hide Covered, AllPlaced, Captured, CarriesSlice;
    var seen := AllPlaced((isn + 1) % TWO32, packets);
    forall k: nat | k < |ch.Record()| ensures Covered(seen, k) <==> Captured(isn, packets, stream, k) {
      CoveredIfCaptured(isn, packets, stream, k);
    }
  }

  /** The calls the callback should get: the first server name, as a buffer of 256 bytes shows it, if it is a host name
      with a dot. */
  ghost predicate RightHosts(ch: Tls.ClientHello, hosts: seq<seq<byte>>) {
    && (forall i: nat, g :: Tls.FirstName(ch.extensions, i) && Tls.ShownBytes(ch.extensions[i].host, 256, g) ==>
          hosts == if ch.extensions[i].kind == 0 && 46 in g then [g] else [])
    && ((forall j :: 0 <= j < |ch.extensions| ==> !ch.extensions[j].ServerName?) ==> hosts == [])
  }

  lemma ExpectedIsRight(ch: Tls.ClientHello)
    requires ch.WellFormed()
    ensures RightHosts(ch, Expected(ch))
  {
    hide Expected, Tls.ShownBytes;
    forall i: nat, g | Tls.FirstName(ch.extensions, i) && Tls.ShownBytes(ch.extensions[i].host, 256, g)
      ensures Expected(ch) == if ch.extensions[i].kind == 0 && 46 in g then [g] else []
    {
      ExpectedFirst(ch, i, g);
    }
    if forall j :: 0 <= j < |ch.extensions| ==> !ch.extensions[j].ServerName? {
      ExpectedNone(ch);
    }
  }

  lemma ExpectedFirst(ch: Tls.ClientHello, i: nat, g: seq<byte>)
    requires Tls.FirstName(ch.extensions, i) && Tls.ShownBytes(ch.extensions[i].host, 256, g)
    ensures Expected(ch) == if ch.extensions[i].kind == 0 && 46 in g then [g] else []
  {
    hide Tls.Announced, Tls.Shown, Tls.ShownBytes;
    Tls.AnnouncedFirst(ch.extensions, HOST_BUF, i);
    Tls.ShownIs(ch.extensions[i].host, HOST_BUF, g);
  }

  lemma ExpectedNone(ch: Tls.ClientHello)
    requires forall j :: 0 <= j < |ch.extensions| ==> !ch.extensions[j].ServerName?
    ensures Expected(ch) == []
  {
    hide Tls.Announced;
    Tls.AnnouncedNone(ch.extensions, HOST_BUF);
  }

  /** A connection after its SYN: whatever the segmentation, order and duplication of a stream that starts with a
      ClientHello record, its host is reported once, exactly if the packets hold every byte of the record. */
  method CaptureStream(syn: seq<byte>, packets: seq<seq<byte>>, ghost ch: Tls.ClientHello, ghost stream: seq<byte>)
    returns (hosts: seq<seq<byte>>)
    requires ch.WellFormed() && |ch.Record()| <= 8192 && ch.Record() <= stream
    requires DecodeTcp(syn).Some? && DecodeTcp(syn).value.syn
    requires forall tp :: tp in packets ==> CarriesSlice(DecodeTcp(syn).value.sq, tp, stream)
    ensures if RecordCaptured(DecodeTcp(syn).value.sq, packets, stream, ch) then RightHosts(ch, hosts) else hosts == []
  {
    hide CarriesSlice, BaseOf, Honest, RecordCaptured, RightHosts, Reported;
    AfterSyn(syn, packets, ch, stream);
    hosts := CaptureConnection([syn] + packets, ch, stream);
  }

  /** What is reported of a SYN and packets that carry slices. */
  lemma AfterSyn(syn: seq<byte>, packets: seq<seq<byte>>, ch: Tls.ClientHello, stream: seq<byte>)
    requires ch.WellFormed() && |ch.Record()| <= 8192 && ch.Record() <= stream
    requires DecodeTcp(syn).Some? && DecodeTcp(syn).value.syn
    requires forall tp :: tp in packets ==> CarriesSlice(DecodeTcp(syn).value.sq, tp, stream)
    ensures HelloStream([syn] + packets, ch, stream)
    ensures if RecordCaptured(DecodeTcp(syn).value.sq, packets, stream, ch)
            then RightHosts(ch, Reported([syn] + packets, ch))
            else Reported([syn] + packets, ch) == []
  {
    hide CarriesSlice, CoversUpTo, AllPlaced, BaseOf, Expected, Honest, RecordCaptured, RightHosts;
    var isn := DecodeTcp(syn).value.sq;
    SynFirst(syn, packets);
    SynCarriesNothing(isn, syn, stream);
    SlicesAreHonest(isn, [syn] + packets, stream);
    CoversIfCaptured(isn, packets, stream, ch);
    ExpectedIsRight(ch);
  }

  // ---- the same, from what was sent ----

  /** A segment with the bytes o to o + n of the stream. */
  datatype Sent = Sent(header: Header, o: nat, n: nat)

  function PacketOf(isn: uint32, s: Sent, stream: seq<byte>): seq<byte>
    requires s.header.WellFormed() && s.o + s.n <= |stream|
  {
    EncodeTcp(s.header, (isn + 1 + s.o) % 0x1_0000_0000, false, stream[s.o..s.o + s.n])
  }

  /** Can be sent: within the stream, and not where the sequence number has come round to the window again. */
  predicate Sendable(s: Sent, stream: seq<byte>) {
    s.header.WellFormed() && s.o + s.n <= |stream| && (s.o < 0x1_0000_0000 || s.o % 0x1_0000_0000 >= 8192)
  }

  ghost predicate ArePackets(isn: uint32, sent: seq<Sent>, packets: seq<seq<byte>>, stream: seq<byte>) {
    && |packets| == |sent|
    && forall i :: 0 <= i < |sent| ==> Sendable(sent[i], stream) && packets[i] == PacketOf(isn, sent[i], stream)
  }

  /** One of the segments has position k. */
  predicate SentAt(sent: seq<Sent>, k: nat) {
    exists i :: 0 <= i < |sent| && sent[i].o <= k < sent[i].o + sent[i].n
  }

  lemma SentIsCaptured(isn: uint32, sent: seq<Sent>, packets: seq<seq<byte>>, stream: seq<byte>, k: nat)
    requires ArePackets(isn, sent, packets, stream)
    requires k < 8192
    ensures SentAt(sent, k) <==> Captured(isn, packets, stream, k)
  {
    hide CarriesAt, Sendable, PacketOf;
    if SentAt(sent, k) {
      var i :| 0 <= i < |sent| && sent[i].o <= k < sent[i].o + sent[i].n;
      OneIsCaptured(isn, sent[i], stream, sent[i].o, k);
      assert packets[i] in packets;
    }
    if Captured(isn, packets, stream, k) {
      var tp, o: nat :| tp in packets && CarriesAt(isn, tp, stream, o, k);
      var i :| 0 <= i < |packets| && packets[i] == tp;
      OneIsCaptured(isn, sent[i], stream, o, k);
    }
  }

  lemma OneIsCaptured(isn: uint32, s: Sent, stream: seq<byte>, o: nat, k: nat)
    requires Sendable(s, stream) && k < 8192
    ensures s.o <= k < s.o + s.n ==> CarriesAt(isn, PacketOf(isn, s, stream), stream, s.o, k)
    ensures CarriesAt(isn, PacketOf(isn, s, stream), stream, o, k) ==> s.o <= k < s.o + s.n
  {
    hide DecodeTcp, EncodeTcp;
    TcpRoundTrip(s.header, (isn + 1 + s.o) % TWO32, false, stream[s.o..s.o + s.n]);
    if o < 8192 && (isn + 1 + s.o) % TWO32 == (isn + 1 + o) % TWO32 {
      OnePlace(isn, s.o, o);
    }
  }

  /** The same sequence number outside the wrapped window, or both beyond it. */
  lemma OnePlace(isn: uint32, o: nat, o': nat)
    requires (isn + 1 + o) % TWO32 == (isn + 1 + o') % TWO32
    requires o < TWO32 || o % TWO32 >= 8192
    requires o' < 8192
    ensures o == o'
  {
    OffsetOfPosition(isn, o);
    OffsetOfPosition(isn, o');
  }

  /** Segments of a stream that starts with a ClientHello record, cut, reordered and repeated in any way, after the SYN:
      the host of at most 255 bytes is reported once, exactly if every byte of the record was sent. */
  method CaptureSent(syn: Header, isn: uint32, sent: seq<Sent>, ghost ch: Tls.ClientHello, stream: seq<byte>)
    returns (hosts: seq<seq<byte>>)
    requires ch.WellFormed() && |ch.Record()| <= 8192 && ch.Record() <= stream
    requires syn.WellFormed() && forall i :: 0 <= i < |sent| ==> Sendable(sent[i], stream)
    ensures if forall k :: 0 <= k < |ch.Record()| ==> SentAt(sent, k) then RightHosts(ch, hosts) else hosts == []
    ensures forall i: nat :: Tls.FirstName(ch.extensions, i) ==>
              var h := ch.extensions[i].host;
              ch.extensions[i].kind == 0 && |h| <= 255 && 0 !in h && 46 in h ==>
                hosts == if forall k :: 0 <= k < |ch.Record()| ==> SentAt(sent, k) then [h] else []
  {
    hide DecodeTcp, EncodeTcp, RecordCaptured, Captured, SentAt, RightHosts, Tls.FirstName;
    TcpRoundTrip(syn, isn, true, []);
    var packets := seq(|sent|, i requires 0 <= i < |sent| => PacketOf(isn, sent[i], stream));
    SentAreSlices(isn, sent, packets, stream);
    hosts := CaptureStream(EncodeTcp(syn, isn, true, []), packets, ch, stream);
    forall k: nat | k < |ch.Record()| ensures SentAt(sent, k) <==> Captured(isn, packets, stream, k) {
      SentIsCaptured(isn, sent, packets, stream, k);
    }
    RecordCapturedIs(isn, packets, stream, ch);
    if RightHosts(ch, hosts) {
      RightHostIs(ch, hosts);
    }
  }

  lemma RecordCapturedIs(isn: uint32, packets: seq<seq<byte>>, stream: seq<byte>, ch: Tls.ClientHello)
    requires ch.WellFormed()
    ensures RecordCaptured(isn, packets, stream, ch) <==>
            forall k: nat :: k < |ch.Record()| ==> Captured(isn, packets, stream, k)
  {
  }

  lemma RightHostIs(ch: Tls.ClientHello, hosts: seq<seq<byte>>)
    requires RightHosts(ch, hosts)
    ensures forall i: nat :: Tls.FirstName(ch.extensions, i) ==>
              var h := ch.extensions[i].host;
              ch.extensions[i].kind == 0 && |h| <= 255 && 0 !in h && 46 in h ==> hosts == [h]
  {
    forall i: nat | Tls.FirstName(ch.extensions, i)
      ensures var h := ch.extensions[i].host;
              ch.extensions[i].kind == 0 && |h| <= 255 && 0 !in h && 46 in h ==> hosts == [h]
    {
      var h := ch.extensions[i].host;
      if |h| <= 255 && 0 !in h {
        assert Tls.ShownBytes(h, 256, h);
      }
    }
  }

  lemma SentAreSlices(isn: uint32, sent: seq<Sent>, packets: seq<seq<byte>>, stream: seq<byte>)
    requires ArePackets(isn, sent, packets, stream)
    ensures forall tp :: tp in packets ==> CarriesSlice(isn, tp, stream)
  {
    hide DecodeTcp, EncodeTcp;
    forall tp | tp in packets ensures CarriesSlice(isn, tp, stream) {
      var i :| 0 <= i < |packets| && packets[i] == tp;
      var s := sent[i];
      TcpRoundTrip(s.header, (isn + 1 + s.o) % TWO32, false, stream[s.o..s.o + s.n]);
      assert SliceAt(isn, DecodeTcp(tp).value, s.o, stream);
    }
  }

  lemma SynCarriesNothing(isn: uint32, syn: seq<byte>, stream: seq<byte>)
    requires DecodeTcp(syn).Some? && DecodeTcp(syn).value.syn
    ensures CarriesSlice(isn, syn, stream)
  {
  }
}
