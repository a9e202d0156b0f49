/** apptraffic/src/proto.c: domain names with compression, and the addresses in a DNS response. */
module Dns {
  import opened Bytes

  const NAME_BUF: nat := 256
  const MAX_STEPS: nat := 10
  const DOT: byte := 46
  const HEADER_LEN: nat := 12
  const TYPE_A: nat := 1
  const MESSAGE_LIMIT: nat := 0x10000     // section 4.2.2 of RFC 1035: the length of a message is a 16-bit number
  const TYPE_AAAA: nat := 28

  type Label = seq<byte>

  // ---- names by section 4.1.4 of RFC 1035 ----

  function Pointer(data: seq<byte>, pos: nat): nat
    requires pos + 1 < |data| && data[pos] >= 0xC0
  {
    (data[pos] - 0xC0) as int * 256 + data[pos + 1]
  }

  predicate LabelAt(data: seq<byte>, pos: nat) {
    pos < |data| && 0 < data[pos] < 64 && pos + 1 + data[pos] <= |data|
  }

  predicate PointerAt(data: seq<byte>, pos: nat) {
    pos + 1 < |data| && data[pos] >= 0xC0 && Pointer(data, pos) < |data|
  }

  function LabelOf(data: seq<byte>, pos: nat): Label
    requires LabelAt(data, pos)
  {
    data[pos + 1..pos + 1 + data[pos]]
  }

  /** The labels of the name at pos, if it is well formed and its labels and pointers number at most `steps`. */
  function NameAt(data: seq<byte>, pos: nat, steps: nat): Option<seq<Label>>
    decreases steps
  {
    if pos >= |data| then None
    else if data[pos] == 0 then Some([])
    else if steps == 0 then None
    else if PointerAt(data, pos) then NameAt(data, Pointer(data, pos), steps - 1)
    else if LabelAt(data, pos) then
      match NameAt(data, pos + 1 + data[pos], steps - 1)
      case None => None
      case Some(labels) => Some([LabelOf(data, pos)] + labels)
    else None
  }

  /** The position just after the encoding of the name at pos itself: after its zero byte or its first pointer. */
  function EndOf(data: seq<byte>, pos: nat): nat
    decreases |data| - pos
  {
    if pos >= |data| then pos
    else if data[pos] == 0 then pos + 1
    else if LabelAt(data, pos) then EndOf(data, pos + 1 + data[pos])
    else pos + 2
  }

  function Dotted(labels: seq<Label>): seq<byte> {
    if labels == [] then []
    else if |labels| == 1 then labels[0]
    else labels[0] + [DOT] + Dotted(labels[1..])
  }

  /** How many labels and pointers a well-formed name takes, up to a limit. */
  function StepsOf(data: seq<byte>, pos: nat, limit: nat): (n: nat)
    ensures n <= limit
    decreases limit
  {
    if limit == 0 || pos >= |data| || data[pos] == 0 then 0
    else if PointerAt(data, pos) then 1 + StepsOf(data, Pointer(data, pos), limit - 1)
    else if LabelAt(data, pos) then 1 + StepsOf(data, pos + 1 + data[pos], limit - 1)
    else 0
  }

  /** How many of the first n steps are labels. */
  function LabelsWithin(data: seq<byte>, pos: nat, n: nat): (k: nat)
    ensures k <= n
    decreases n
  {
    if n == 0 then 0
    else if PointerAt(data, pos) then LabelsWithin(data, Pointer(data, pos), n - 1)
    else if LabelAt(data, pos) then 1 + LabelsWithin(data, pos + 1 + data[pos], n - 1)
    else 0
  }

  /** Whether one of the first n steps is a pointer. */
  predicate PointerWithin(data: seq<byte>, pos: nat, n: nat)
    decreases n
  {
    n > 0 && (PointerAt(data, pos) || (LabelAt(data, pos) && PointerWithin(data, pos + 1 + data[pos], n - 1)))
  }

  // ---- what dns_read_name computes ----

  /** The state of the loop: position, bytes in the buffer, whether a pointer was followed, where to go on. */
  datatype Cursor = Cursor(pos: nat, name: seq<byte>, jumped: bool, ret: nat)

  datatype Outcome = Malformed | Ended(c: Cursor) | Going(c: Cursor)

  /** Add bytes to a buffer of bufLen, keeping one for the NUL. */
  function Fill(name: seq<byte>, more: seq<byte>, bufLen: nat): seq<byte>
    requires bufLen > 0
  {
    (name + more)[..Min(|name + more|, bufLen - 1)]
  }

  function Extend(name: seq<byte>, lab: Label, bufLen: nat): seq<byte>
    requires bufLen > 0
  {
    Fill(if name == [] then [] else Fill(name, [DOT], bufLen), lab, bufLen)
  }

  /** The pointer is compared with the low 16 bits of the length, which is the length of a message. */
  predicate PointerTaken(data: seq<byte>, pos: nat) {
    pos + 1 < |data| && data[pos] >= 0xC0 && Pointer(data, pos) < |data| % MESSAGE_LIMIT
  }

  /** One round of the loop. */
  function Round(data: seq<byte>, c: Cursor, bufLen: nat): Outcome
    requires bufLen > 0
  {
    if c.pos >= |data| then Malformed
    else if data[c.pos] == 0 then Ended(if c.jumped then c else c.(ret := c.pos + 1))
    else if data[c.pos] >= 0xC0 then
      if !PointerTaken(data, c.pos) then Malformed
      else Going(Cursor(Pointer(data, c.pos), c.name, true, if c.jumped then c.ret else c.pos + 2))
    else if !LabelAt(data, c.pos) then Malformed
    else Going(c.(pos := c.pos + 1 + data[c.pos], name := Extend(c.name, LabelOf(data, c.pos), bufLen)))
  }

  function Rounds(data: seq<byte>, c: Cursor, n: nat, bufLen: nat): Outcome
    requires bufLen > 0
    decreases n
  {
    if n == 0 then Going(c)
    else
      match Round(data, c, bufLen)
      case Going(c') => Rounds(data, c', n - 1, bufLen)
      case end => end
  }

  /** The position to go on from, or -1; and the name. */
  function ReadName(data: seq<byte>, offset: nat, bufLen: nat): (int, seq<byte>)
    requires bufLen > 0
  {
    match Rounds(data, Cursor(offset, [], false, 0), MAX_STEPS, bufLen)
    case Malformed => (-1, [])
    case Ended(c) => (if c.jumped || c.name != [] then c.ret else -1, c.name)
    case Going(c) => (if c.jumped || c.name != [] then c.ret else -1, c.name)
  }

  lemma RoundsStep(data: seq<byte>, c: Cursor, n: nat, bufLen: nat)
    requires bufLen > 0
    ensures Rounds(data, c, 0, bufLen) == Going(c)
    ensures Rounds(data, c, n + 1, bufLen) ==
            if Round(data, c, bufLen).Going? then Rounds(data, Round(data, c, bufLen).c, n, bufLen)
            else Round(data, c, bufLen)
  {
  }

  /** dns_read_name. The name of a failed call is not looked at by any caller. */
  method DnsReadName(data: seq<byte>, offset: nat, bufLen: nat) returns (r: int, name: seq<byte>)
    requires bufLen > 0
    ensures r == ReadName(data, offset, bufLen).0 >= -1
    ensures r >= 0 ==> name == ReadName(data, offset, bufLen).1
  {
    hide Rounds, Extend;
    var pos: nat, jumped, returnPos: nat := offset, false, 0;
    name := [];
    var maxJumps: nat := MAX_STEPS;
    ghost var all := Rounds(data, Cursor(offset, [], false, 0), MAX_STEPS, bufLen);
    while maxJumps > 0
      invariant 0 <= maxJumps <= MAX_STEPS && |name| <= bufLen - 1
      invariant all == Rounds(data, Cursor(pos, name, jumped, returnPos), maxJumps, bufLen)
      decreases maxJumps
    {
      maxJumps := maxJumps - 1;
      RoundsStep(data, Cursor(pos, name, jumped, returnPos), maxJumps, bufLen);
      if pos >= |data| { return -1, name; }
      var labelLen := data[pos];
      if labelLen == 0 {
        if !jumped { returnPos := pos + 1; }
        r := if jumped || name != [] then returnPos else -1;
        return;
      }
      if labelLen >= 0xC0 {
        if pos + 2 > |data| { return -1, name; }
        var ptr := Pointer(data, pos);
        if ptr >= |data| % MESSAGE_LIMIT { return -1, name; }
        if !jumped { returnPos, jumped := pos + 2, true; }
        pos := ptr;
        continue;
      }
      if labelLen > 63 || pos + 1 + labelLen > |data| { return -1, name; }
      name := AppendLabel(name, data[pos + 1..pos + 1 + labelLen], bufLen);
      pos := pos + 1 + labelLen;
    }
    RoundsStep(data, Cursor(pos, name, jumped, returnPos), 0, bufLen);
    r := if jumped || name != [] then returnPos else -1;
  }

  /** A dot, unless the name is empty, and the label; what does not fit is dropped. */
  method AppendLabel(name: seq<byte>, lab: Label, bufLen: nat) returns (r: seq<byte>)
    requires bufLen > 0 && |name| <= bufLen - 1
    ensures r == Extend(name, lab, bufLen) && |r| <= bufLen - 1
  {
    r := name;
    if |r| > 0 && |r| < bufLen - 1 { r := r + [DOT]; }
    ghost var base := r;
    assert base == if name == [] then [] else Fill(name, [DOT], bufLen);
    for i := 0 to |lab|
      invariant r == Fill(base, lab[..i], bufLen) && |base| <= bufLen - 1
    {
      assert lab[..i + 1] == lab[..i] + [lab[i]];
      if |r| < bufLen - 1 {
        r := r + [lab[i]];
      }
    }
    assert lab[..|lab|] == lab;
  }

  // ---- names read back ----

  function Take(s: seq<byte>, bufLen: nat): seq<byte>
    requires bufLen > 0
  {
    s[..Min(|s|, bufLen - 1)]
  }

  function Joined(name: seq<byte>, labels: seq<Label>, bufLen: nat): seq<byte>
    requires bufLen > 0
    decreases |labels|
  {
    if labels == [] then name else Joined(Extend(name, labels[0], bufLen), labels[1..], bufLen)
  }

  lemma FillTake(full: seq<byte>, more: seq<byte>, bufLen: nat)
    requires bufLen > 0
    ensures Fill(Take(full, bufLen), more, bufLen) == Take(full + more, bufLen)
  {
  }

  ghost predicate NonEmpty(labels: seq<Label>) {
    forall i :: 0 <= i < |labels| ==> labels[i] != []
  }

  function After(full: seq<byte>, labels: seq<Label>): seq<byte> {
    if full == [] then Dotted(labels) else if labels == [] then full else full + [DOT] + Dotted(labels)
  }

  /** Joining the labels one by one in a bounded buffer gives the start of the dotted name. */
  lemma {:induction false} JoinedIsDotted(full: seq<byte>, labels: seq<Label>, bufLen: nat)
    requires bufLen > 1 && NonEmpty(labels)
    ensures Joined(Take(full, bufLen), labels, bufLen) == Take(After(full, labels), bufLen)
    decreases |labels|
  {
    hide Extend, Take, After;
    if labels == [] {
      AfterNone(full);
    } else {
      ExtendTake(full, labels[0], bufLen);
      JoinedIsDotted(Onto(full) + labels[0], labels[1..], bufLen);
      AfterOne(full, labels);
    }
  }

  /** What a label is put behind. */
  function Onto(full: seq<byte>): seq<byte> {
    if full == [] then [] else full + [DOT]
  }

  lemma ExtendTake(full: seq<byte>, lab: Label, bufLen: nat)
    requires bufLen > 1
    ensures Extend(Take(full, bufLen), lab, bufLen) == Take(Onto(full) + lab, bufLen)
  {
    FillTake(full, [DOT], bufLen);
    FillTake(Onto(full), lab, bufLen);
    hide Fill;
    assert full == [] <==> Take(full, bufLen) == [];
  }

  lemma AfterNone(full: seq<byte>)
    ensures After(full, []) == full
  {
  }

  lemma AfterOne(full: seq<byte>, labels: seq<Label>)
    requires labels != [] && labels[0] != []
    ensures After(Onto(full) + labels[0], labels[1..]) == After(full, labels)
  {
    var rest := Dotted(labels[1..]);
    if full != [] && |labels| > 1 {
      assert (full + [DOT] + labels[0]) + [DOT] + rest == full + [DOT] + (labels[0] + [DOT] + rest);
    }
  }

  lemma {:induction false} LabelsNonEmpty(data: seq<byte>, pos: nat, steps: nat)
    requires NameAt(data, pos, steps).Some?
    ensures NonEmpty(NameAt(data, pos, steps).value)
    decreases steps
  {
    if data[pos] == 0 {
    } else if PointerAt(data, pos) {
      LabelsNonEmpty(data, Pointer(data, pos), steps - 1);
    } else {
      LabelsNonEmpty(data, pos + 1 + data[pos], steps - 1);
    }
  }

  /** With a round to spare for the zero byte, the loop ends with the whole name. */
  lemma {:induction false} RoundsOfName(data: seq<byte>, c: Cursor, steps: nat, bufLen: nat)
    requires |data| < MESSAGE_LIMIT
    requires bufLen > 1 && NameAt(data, c.pos, steps).Some?
    ensures Rounds(data, c, steps + 1, bufLen).Ended?
    ensures var e := Rounds(data, c, steps + 1, bufLen).c;
            && e.name == Joined(c.name, NameAt(data, c.pos, steps).value, bufLen)
            && e.ret == (if c.jumped then c.ret else EndOf(data, c.pos))
            && (c.jumped ==> e.jumped)
    decreases steps
  {
    hide Extend, LabelOf, Rounds;
    RoundsStep(data, c, steps, bufLen);
    if data[c.pos] != 0 {
      var c' := Round(data, c, bufLen).c;
      RoundsOfName(data, c', steps - 1, bufLen);
    }
  }

  /** Out of rounds: the loop is left with the labels it has seen, and with no position unless it followed a pointer. */
  lemma {:induction false} RoundsCutShort(data: seq<byte>, c: Cursor, n: nat, steps: nat, bufLen: nat)
    requires |data| < MESSAGE_LIMIT
    requires bufLen > 1 && NameAt(data, c.pos, steps).Some? && n <= StepsOf(data, c.pos, steps)
    ensures LabelsWithin(data, c.pos, n) <= |NameAt(data, c.pos, steps).value|
    ensures Rounds(data, c, n, bufLen).Going?
    ensures var e := Rounds(data, c, n, bufLen).c;
            && e.name == Joined(c.name, NameAt(data, c.pos, steps).value[..LabelsWithin(data, c.pos, n)], bufLen)
            && e.jumped == (c.jumped || PointerWithin(data, c.pos, n))
            && e.ret == (if c.jumped || !PointerWithin(data, c.pos, n) then c.ret else EndOf(data, c.pos))
    decreases n
  {
    hide Extend, LabelOf, Rounds;
    if n == 0 {
      RoundsStep(data, c, 0, bufLen);
    } else {
      var c' := Round(data, c, bufLen).c;
      RoundsStep(data, c, n - 1, bufLen);
      RoundsCutShort(data, c', n - 1, steps - 1, bufLen);
      if !PointerAt(data, c.pos) {
        var labels, k := NameAt(data, c.pos, steps).value, LabelsWithin(data, c.pos, n);
        assert labels[..k][1..] == labels[1..][..k - 1];
        assert Joined(c.name, labels[..k], bufLen) == Joined(c'.name, labels[1..][..k - 1], bufLen);
      }
    }
  }

  lemma {:induction false} EndOfPositive(data: seq<byte>, pos: nat)
    requires pos < |data|
    ensures EndOf(data, pos) > 0
    decreases |data| - pos
  {
    if LabelAt(data, pos) && pos + 1 + data[pos] < |data| {
      EndOfPositive(data, pos + 1 + data[pos]);
    }
  }

  lemma NameReadsBack(data: seq<byte>, pos: nat)
    requires |data| < MESSAGE_LIMIT
    requires NameAt(data, pos, MAX_STEPS - 1).Some? && NameAt(data, pos, MAX_STEPS - 1).value != []
    ensures ReadName(data, pos, NAME_BUF) ==
            (EndOf(data, pos), Take(Dotted(NameAt(data, pos, MAX_STEPS - 1).value), NAME_BUF))
  {
    var labels := NameAt(data, pos, MAX_STEPS - 1).value;
    RoundsOfName(data, Cursor(pos, [], false, 0), MAX_STEPS - 1, NAME_BUF);
    JoinedFromNothing(data, pos, MAX_STEPS - 1, |labels|);
    DottedGrows(labels, 0);
  }

  lemma JoinedFromNothing(data: seq<byte>, pos: nat, steps: nat, k: nat)
    requires NameAt(data, pos, steps).Some? && k <= |NameAt(data, pos, steps).value|
    ensures var labels := NameAt(data, pos, steps).value;
            && NonEmpty(labels)
            && Joined([], labels[..k], NAME_BUF) == Take(Dotted(labels[..k]), NAME_BUF)
            && Joined([], labels, NAME_BUF) == Take(Dotted(labels), NAME_BUF)
  {
    var labels := NameAt(data, pos, steps).value;
    LabelsNonEmpty(data, pos, steps);
    var none: seq<byte> := [];
    assert Take(none, NAME_BUF) == none;
    JoinedIsDotted(none, labels[..k], NAME_BUF);
    JoinedIsDotted(none, labels, NAME_BUF);
  }

  lemma {:induction false} DottedGrows(labels: seq<Label>, k: nat)
    requires NonEmpty(labels) && k <= |labels|
    ensures |Dotted(labels[..k])| <= |Dotted(labels)|
    ensures k < |labels| ==> |Dotted(labels[..k])| < |Dotted(labels)|
    decreases |labels|
  {
    if k == |labels| {
      assert labels[..k] == labels;
    } else if k > 0 {
      assert labels[..k][1..] == labels[1..][..k - 1];
      DottedGrows(labels[1..], k - 1);
    }
  }

  lemma {:induction false} FewSteps(data: seq<byte>, pos: nat, steps: nat, limit: nat)
    requires NameAt(data, pos, steps).Some?
    ensures StepsOf(data, pos, steps) <= limit ==> NameAt(data, pos, limit) == NameAt(data, pos, steps)
    ensures StepsOf(data, pos, steps) > limit ==> NameAt(data, pos, limit) == None
    decreases steps
  {
    if data[pos] != 0 && limit > 0 {
      FewSteps(data, if PointerAt(data, pos) then Pointer(data, pos) else pos + 1 + data[pos], steps - 1, limit - 1);
    }
  }

  lemma {:induction false} OneStepMore(data: seq<byte>, pos: nat, steps: nat)
    requires NameAt(data, pos, steps).Some?
    ensures NameAt(data, pos, steps + 1) == NameAt(data, pos, steps)
    ensures StepsOf(data, pos, steps + 1) == StepsOf(data, pos, steps)
    decreases steps
  {
    if data[pos] != 0 {
      OneStepMore(data, if PointerAt(data, pos) then Pointer(data, pos) else pos + 1 + data[pos], steps - 1);
    }
  }

  /** The positions a name passes are all different: from each it is a different number of steps to the end. */
  lemma {:induction false} Visited(data: seq<byte>, pos: nat, steps: nat) returns (at: set<nat>)
    requires NameAt(data, pos, steps).Some?
    ensures |at| == StepsOf(data, pos, steps) + 1
    ensures forall p :: p in at ==>
              p < |data| && NameAt(data, p, steps).Some? && StepsOf(data, p, steps) <= StepsOf(data, pos, steps)
    decreases steps
  {
    if data[pos] == 0 {
      at := {pos};
    } else {
      var next := if PointerAt(data, pos) then Pointer(data, pos) else pos + 1 + data[pos];
      var rest := Visited(data, next, steps - 1);
      hide NameAt;
      forall p | p in rest
        ensures NameAt(data, p, steps).Some? && StepsOf(data, p, steps) == StepsOf(data, p, steps - 1)
      {
        OneStepMore(data, p, steps - 1);
      }
      assert pos !in rest;
      at := rest + {pos};
    }
  }

  lemma Below(at: set<nat>, n: nat)
    requires forall p :: p in at ==> p < n
    ensures |at| <= n
  {
    if n > 0 {
      Below(at - {n - 1}, n - 1);
    } else {
      assert at == {};
    }
  }

  /** No name takes as many steps as there are bytes. */
  lemma EveryNameFits(data: seq<byte>, pos: nat, steps: nat)
    requires NameAt(data, pos, steps).Some?
    ensures NameAt(data, pos, |data|) == NameAt(data, pos, steps)
  {
    var at := Visited(data, pos, steps);
    Below(at, |data|);
    FewSteps(data, pos, steps, |data|);
  }

  /** What a name of ten steps or more comes to: the labels among the first ten steps, and a position only if there
      was a pointer among them. */
  lemma LongName(data: seq<byte>, pos: nat, steps: nat)
    requires |data| < MESSAGE_LIMIT
    requires NameAt(data, pos, steps).Some? && StepsOf(data, pos, steps) >= MAX_STEPS
    requires |Dotted(NameAt(data, pos, steps).value)| < NAME_BUF
    ensures LabelsWithin(data, pos, MAX_STEPS) <= |NameAt(data, pos, steps).value|
    ensures var (r, name) := ReadName(data, pos, NAME_BUF);
            && name == Dotted(NameAt(data, pos, steps).value[..LabelsWithin(data, pos, MAX_STEPS)])
            && (if PointerWithin(data, pos, MAX_STEPS) then r == EndOf(data, pos) else r <= 0)
  {
    hide Rounds, NameAt, Dotted, Joined, EndOf, PointerWithin, LabelsWithin, StepsOf;
    var labels, k := NameAt(data, pos, steps).value, LabelsWithin(data, pos, MAX_STEPS);
    RoundsCutShort(data, Cursor(pos, [], false, 0), MAX_STEPS, steps, NAME_BUF);
    JoinedFromNothing(data, pos, steps, k);
    DottedGrows(labels, k);
    assert Take(Dotted(labels[..k]), NAME_BUF) == Dotted(labels[..k]);
  }

  /** The ten rounds of the loop are enough: nine steps and the zero byte, or a pointer and all labels. */
  predicate TenRoundsDo(data: seq<byte>, pos: nat, steps: nat)
    requires NameAt(data, pos, steps).Some?
  {
    StepsOf(data, pos, steps) < MAX_STEPS ||
    (PointerWithin(data, pos, MAX_STEPS) && LabelsWithin(data, pos, MAX_STEPS) == |NameAt(data, pos, steps).value|)
  }

  /** A name of ten steps or more comes out right only if a pointer among the first ten steps gave the position and the
      labels among them are all there are. */
  lemma ReadsBackExactly(data: seq<byte>, pos: nat, steps: nat)
    requires |data| < MESSAGE_LIMIT
    requires NameAt(data, pos, steps).Some? && NameAt(data, pos, steps).value != []
    requires |Dotted(NameAt(data, pos, steps).value)| < NAME_BUF
    ensures var labels := NameAt(data, pos, steps).value;
            ReadName(data, pos, NAME_BUF) == (EndOf(data, pos), Dotted(labels)) <==>
              TenRoundsDo(data, pos, steps)
  {
    hide ReadName, NameAt, Dotted, EndOf, PointerWithin, LabelsWithin, StepsOf;
    var labels, k := NameAt(data, pos, steps).value, LabelsWithin(data, pos, MAX_STEPS);
    WithinBuffer(data, pos, steps);
    EndOfPositive(data, pos);
    LabelsNonEmpty(data, pos, steps);
    if StepsOf(data, pos, steps) < MAX_STEPS {
      FewSteps(data, pos, steps, MAX_STEPS - 1);
      NameReadsBack(data, pos);
      assert Take(Dotted(labels), NAME_BUF) == Dotted(labels);
    } else {
      LongName(data, pos, steps);
      DottedGrows(labels, k);
      assert k == |labels| ==> labels[..k] == labels;
    }
  }

  lemma WithinBuffer(data: seq<byte>, pos: nat, steps: nat)
    requires NameAt(data, pos, steps).Some?
    ensures pos < |data|
  {
  }

  lemma {:induction false} Letters(data: seq<byte>, n: nat)
    requires |data| == 21 && data[20] == 0 && n <= 10
    requires forall i :: 0 <= i < 10 ==> data[2 * i] == 1
    ensures var pos := 20 - 2 * n;
            && NameAt(data, pos, n).Some? && |NameAt(data, pos, n).value| == n && StepsOf(data, pos, n) == n
            && EndOf(data, pos) == 21 && !PointerWithin(data, pos, n) && LabelsWithin(data, pos, n) == n
  {
    if n > 0 {
      Letters(data, n - 1);
      assert data[2 * (10 - n)] == 1;
    }
  }

  lemma TenSteps(data: seq<byte>)
    requires |data| < MESSAGE_LIMIT
    requires NameAt(data, 0, 10).Some? && |NameAt(data, 0, 10).value| == 10 && StepsOf(data, 0, 10) == 10
    requires !PointerWithin(data, 0, 10) && LabelsWithin(data, 0, 10) == 10
    ensures ReadName(data, 0, NAME_BUF).0 == 0
  {
    hide NameAt, StepsOf, PointerWithin, Rounds, LabelsWithin, Joined, Dotted;
    RoundsCutShort(data, Cursor(0, [], false, 0), 10, 10, NAME_BUF);
    JoinedFromNothing(data, 0, 10, 10);
    var labels := NameAt(data, 0, 10).value;
    assert labels[..10] == labels;
    DottedGrows(labels, 0);
  }

  /** Ten labels of one letter and no pointer: a well-formed name of 20 bytes after which the caller is sent back to
      position 0. */
  lemma TenLabels()
    ensures exists data: seq<byte> ::
              NameAt(data, 0, 10).Some? && EndOf(data, 0) == 21 && ReadName(data, 0, NAME_BUF).0 == 0
  {
    var data: seq<byte> := seq(21, i => if i == 20 then 0 else if i % 2 == 0 then 1 else 97);
    Letters(data, 10);
    hide NameAt, StepsOf, EndOf, PointerWithin, LabelsWithin, ReadName;
    TenSteps(data);
  }

  // ---- responses: section 4.1 of RFC 1035 ----

  /** One address: the owner name, and 4 or 16 bytes. */
  datatype Rec = Rec(name: seq<byte>, v6: bool, addr: seq<byte>)

  function Word(data: seq<byte>, pos: nat): nat
    requires pos + 1 < |data|
  {
    Be16(data[pos], data[pos + 1])
  }

  /** A name other than the root, without NUL, of at most 255 characters, for which ten rounds are enough. No name takes
      more steps than there are bytes (EveryNameFits). */
  predicate PlainName(data: seq<byte>, pos: nat) {
    && NameAt(data, pos, |data|).Some? && NameAt(data, pos, |data|).value != []
    && |NameText(data, pos)| < NAME_BUF && 0 !in NameText(data, pos)
    && TenRoundsDo(data, pos, |data|)
  }

  function NameText(data: seq<byte>, pos: nat): seq<byte>
    requires NameAt(data, pos, |data|).Some?
  {
    Dotted(NameAt(data, pos, |data|).value)
  }

  /** The root name, spelled out. The parser takes it for an error. */
  predicate RootAt(data: seq<byte>, pos: nat) { pos < |data| && data[pos] == 0 }

  /** Where n questions that start at pos end, or the first of them for the root. */
  function QuestionsEnd(data: seq<byte>, pos: nat, n: nat): Option<nat>
    decreases n
  {
    if n == 0 || RootAt(data, pos) then Some(pos)
    else if PlainName(data, pos) && EndOf(data, pos) + 4 <= |data| then QuestionsEnd(data, EndOf(data, pos) + 4, n - 1)
    else None
  }

  function AddressOf(name: seq<byte>, typ: nat, rdata: seq<byte>): seq<Rec> {
    if typ == TYPE_A && |rdata| == 4 then [Rec(name, false, rdata)]
    else if typ == TYPE_AAAA && |rdata| == 16 then [Rec(name, true, rdata)]
    else []
  }

  predicate RecordAt(data: seq<byte>, pos: nat) {
    && PlainName(data, pos) && EndOf(data, pos) + 10 <= |data|
    && EndOf(data, pos) + 10 + Word(data, EndOf(data, pos) + 8) <= |data|
  }

  function NextRecord(data: seq<byte>, pos: nat): (p: nat)
    requires RecordAt(data, pos)
    ensures p <= |data|
  {
    EndOf(data, pos) + 10 + Word(data, EndOf(data, pos) + 8)
  }

  function RecordAddress(data: seq<byte>, pos: nat): seq<Rec>
    requires RecordAt(data, pos)
  {
    AddressOf(NameText(data, pos), Word(data, EndOf(data, pos)), data[EndOf(data, pos) + 10..NextRecord(data, pos)])
  }

  /** The addresses of the n resource records that start at pos, in order, up to the first one of the root. */
  function Answers(data: seq<byte>, pos: nat, n: nat): Option<seq<Rec>>
    decreases n
  {
    if n == 0 || RootAt(data, pos) then Some([])
    else if !RecordAt(data, pos) then None
    else
      match Answers(data, NextRecord(data, pos), n - 1)
      case None => None
      case Some(rest) => Some(RecordAddress(data, pos) + rest)
  }

  predicate IsResponse(data: seq<byte>) {
    && |data| >= HEADER_LEN && data[2] >= 0x80
    && QuestionsEnd(data, HEADER_LEN, Word(data, 4)).Some?
    && Answers(data, QuestionsEnd(data, HEADER_LEN, Word(data, 4)).value, Word(data, 6)).Some?
  }

  function AllAnswers(data: seq<byte>): seq<Rec>
    requires IsResponse(data)
  {
    Answers(data, QuestionsEnd(data, HEADER_LEN, Word(data, 4)).value, Word(data, 6)).value
  }

  function FirstOf(recs: seq<Rec>, max: nat): seq<Rec> {
    recs[..Min(|recs|, max)]
  }

  /** A byte of the packet. Past its end there is other memory, whose content cannot matter. */
  function Byte(data: seq<byte>, pos: nat): byte {
    if pos < |data| then data[pos] else 0
  }

  lemma PlainNameReadsBack(data: seq<byte>, pos: nat)
    requires |data| < MESSAGE_LIMIT
    requires PlainName(data, pos)
    ensures ReadName(data, pos, NAME_BUF) == (EndOf(data, pos), NameText(data, pos))
    ensures pos < |data| && EndOf(data, pos) > pos && NameText(data, pos) != []
  {
    hide NameAt, ReadName, Dotted, EndOf, TenRoundsDo;
    var labels := NameAt(data, pos, |data|).value;
    WithinBuffer(data, pos, |data|);
    LabelsNonEmpty(data, pos, |data|);
    EndAfterStart(data, pos);
    DottedGrows(labels, 0);
    ReadsBackExactly(data, pos, |data|);
  }

  lemma {:induction false} EndAfterStart(data: seq<byte>, pos: nat)
    requires pos < |data|
    ensures EndOf(data, pos) > pos
    decreases |data| - pos
  {
    if LabelAt(data, pos) && pos + 1 + data[pos] < |data| {
      EndAfterStart(data, pos + 1 + data[pos]);
    }
  }

  lemma QuestionStep(data: seq<byte>, pos: nat, n: nat)
    requires |data| < MESSAGE_LIMIT
    requires n > 0 && QuestionsEnd(data, pos, n).Some? && !RootAt(data, pos)
    ensures pos < |data| && EndOf(data, pos) + 4 <= |data|
    ensures ReadName(data, pos, NAME_BUF).0 == EndOf(data, pos)
    ensures QuestionsEnd(data, EndOf(data, pos) + 4, n - 1) == QuestionsEnd(data, pos, n)
  {
    hide PlainName, ReadName, EndOf, NameText, NameAt;
    PlainNameReadsBack(data, pos);
  }

  /** Skip the questions; remember the last name. */
  method SkipQuestions(data: seq<byte>, count: nat) returns (pos: nat, qname: seq<byte>)
    requires HEADER_LEN <= |data| < MESSAGE_LIMIT
    ensures QuestionsEnd(data, HEADER_LEN, count).Some? ==> pos == QuestionsEnd(data, HEADER_LEN, count).value
  {
    hide QuestionsEnd, EndOf, ReadName;
    pos, qname := HEADER_LEN, [];
    ghost var goal := QuestionsEnd(data, HEADER_LEN, count);
    var i := 0;
    while i < count && pos < |data|
      invariant i <= count
      invariant goal.Some? ==> QuestionsEnd(data, pos, count - i) == goal
    {
      if RootAt(data, pos) {
        RootStops(data, pos, count - i);
      } else if goal.Some? {
        QuestionStep(data, pos, count - i);
      }
      var r, name := DnsReadName(data, pos, NAME_BUF);
      if r < 0 { break; }
      qname := name;
      pos := r;
      if pos + 4 > |data| { break; }
      pos := pos + 4;
      i := i + 1;
    }
    if goal.Some? {
      if i < count && !RootAt(data, pos) { QuestionStep(data, pos, count - i); }
      RootStops(data, pos, count - i);
    }
  }

  /** Nothing behind a root name is looked at. */
  lemma RootStops(data: seq<byte>, pos: nat, n: nat)
    ensures RootAt(data, pos) ==> ReadName(data, pos, NAME_BUF).0 == -1
    ensures n == 0 || RootAt(data, pos) ==> QuestionsEnd(data, pos, n) == Some(pos) && Answers(data, pos, n) == Some([])
  {
    hide Rounds;
    RoundsStep(data, Cursor(pos, [], false, 0), MAX_STEPS - 1, NAME_BUF);
  }

  lemma RecordStep(data: seq<byte>, pos: nat, n: nat)
    requires |data| < MESSAGE_LIMIT
    requires n > 0 && Answers(data, pos, n).Some? && !RootAt(data, pos)
    ensures RecordAt(data, pos) && pos + 10 <= |data|
    ensures ReadName(data, pos, NAME_BUF) == (EndOf(data, pos), NameText(data, pos)) && NameText(data, pos) != []
    ensures Answers(data, NextRecord(data, pos), n - 1).Some?
    ensures Answers(data, pos, n).value == RecordAddress(data, pos) + Answers(data, NextRecord(data, pos), n - 1).value
  {
    hide PlainName, ReadName, EndOf, NameText, NameAt, RecordAddress;
    PlainNameReadsBack(data, pos);
  }

  /** The body of the answer loop behind the name: where the next record starts, and the address of this one. */
  method ReadRecord(data: seq<byte>, start: nat, name: seq<byte>, ghost pos: nat)
    returns (next: Option<nat>, found: seq<Rec>)
    ensures |found| <= 1 && forall r :: r in found ==> |r.addr| == if r.v6 then 16 else 4
    ensures RecordAt(data, pos) && start == EndOf(data, pos) && name == NameText(data, pos) ==>
              next == Some(NextRecord(data, pos)) && found == RecordAddress(data, pos)
  {
    hide PlainName, NameText, EndOf;
    var atype := Be16(Byte(data, start), Byte(data, start + 1));
    var rdlength := Be16(Byte(data, start + 8), Byte(data, start + 9));
    var at := start + 10;
    if at + rdlength > |data| { return None, []; }
    var rdata := data[at..at + rdlength];
    found := [];
    if atype == TYPE_A && rdlength == 4 {
      found := [Rec(name, false, rdata)];
    } else if atype == TYPE_AAAA && rdlength == 16 {
      found := [Rec(name, true, rdata)];
    }
    next := Some(at + rdlength);
  }

  /** The answer loop. */
  method CollectAnswers(data: seq<byte>, start: nat, ancount: nat, max: nat, qname: seq<byte>) returns (recs: seq<Rec>)
    requires |data| < MESSAGE_LIMIT
    ensures |recs| <= max && forall r :: r in recs ==> |r.addr| == if r.v6 then 16 else 4
    ensures Answers(data, start, ancount).Some? ==> recs == FirstOf(Answers(data, start, ancount).value, max)
  {
    hide Answers, ReadName, FirstOf, RecordAt, NextRecord, RecordAddress, EndOf, NameText;
    recs := [];
    var pos: nat := start;
    ghost var good := Answers(data, start, ancount).Some?;
    var i := 0;
    while i < ancount && pos < |data| && |recs| < max
      invariant i <= ancount && |recs| <= max && forall r :: r in recs ==> |r.addr| == if r.v6 then 16 else 4
      invariant good ==> Answers(data, pos, ancount - i).Some?
      invariant good ==> recs + Answers(data, pos, ancount - i).value == Answers(data, start, ancount).value
    {
      if RootAt(data, pos) {
        RootStops(data, pos, ancount - i);
      } else if good {
        RecordStep(data, pos, ancount - i);
      }
      if pos + 10 > |data| { break; }
      var r, name := DnsReadName(data, pos, NAME_BUF);
      if r < 0 { break; }
      if name == [] && qname != [] { name := qname; }
      var next, found := ReadRecord(data, r, name, pos);
      if next == None { break; }
      recs := recs + found;
      pos := next.value;
      i := i + 1;
    }
    if good {
      if i < ancount && !RootAt(data, pos) {
        RecordStep(data, pos, ancount - i);
      } else {
        RootStops(data, pos, ancount - i);
      }
      FirstOfSplit(recs, Answers(data, pos, ancount - i).value, max);
    }
  }

  lemma FirstOfSplit(recs: seq<Rec>, rest: seq<Rec>, max: nat)
    requires |recs| <= max && (|recs| == max || rest == [])
    ensures FirstOf(recs + rest, max) == recs
  {
  }

  /** proto_dns_parse_response: the first addresses of a well-formed response, in order, up to a root name. */
  method ParseResponse(data: seq<byte>, max: nat) returns (recs: seq<Rec>)
    requires |data| < MESSAGE_LIMIT
    ensures |recs| <= max && forall r :: r in recs ==> |r.addr| == if r.v6 then 16 else 4
    ensures |data| < 12 || data[2] < 0x80 || (data[6] == 0 && data[7] == 0) ==> recs == []
    ensures IsResponse(data) ==> recs == FirstOf(AllAnswers(data), max)
  {
    hide FirstOf;
    if |data| < HEADER_LEN || max == 0 { FirstOfNone(data, max); return []; }
    var qdcount, ancount := Word(data, 4), Word(data, 6);
    if data[2] < 0x80 || ancount == 0 { FirstOfNone(data, max); return []; }
    var pos, qname := SkipQuestions(data, qdcount);
    recs := CollectAnswers(data, pos, ancount, max, qname);
  }

  lemma FirstOfNone(data: seq<byte>, max: nat)
    ensures IsResponse(data) && (max == 0 || Word(data, 6) == 0) ==> FirstOf(AllAnswers(data), max) == []
  {
  }
}
