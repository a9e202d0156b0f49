/** dav-bridge/src/dav-bridge.c: the naming protocol of concurrent uploads, as a state machine over system calls. */
module UploadProtocol {
  import opened Bytes

  const MAX_NAME_TRIES: nat := 1000
  const STALE_PART_SECS: int := 3600
  const PART: string := ".part"

  type Path = string

  // ---- candidate names ----

  function LastIndex(s: string, c: char): (i: int)
    ensures -1 <= i < |s|
    ensures i >= 0 ==> s[i] == c
    ensures forall j :: i < j < |s| ==> s[j] != c
  {
    if s == [] then -1
    else if s[|s| - 1] == c then |s| - 1
    else LastIndex(s[..|s| - 1], c)
  }

  function Digit(d: nat): (c: char)
    requires d < 10
    ensures '0' <= c <= '9'
  {
    '0' + d as char
  }

  function Decimal(n: nat): (s: string)
    ensures s != [] && forall i :: 0 <= i < |s| ==> '0' <= s[i] <= '9'
    ensures n > 0 ==> s[0] != '0'
  {
    if n < 10 then [Digit(n)] else Decimal(n / 10) + [Digit(n % 10)]
  }

  /** Where the extension of the last path component starts. */
  function BaseLength(fs: Path): (k: nat)
    ensures k <= |fs|
  {
    var slash, dot := LastIndex(fs, '/'), LastIndex(fs, '.');
    if dot >= 0 && (slash < 0 || dot > slash) then dot else |fs|
  }

  /** build_candidate: name, name-1, name-2 ... with the suffix before the extension. */
  function Candidate(fs: Path, n: nat): Path {
    if n == 0 then fs
    else fs[..BaseLength(fs)] + "-" + Decimal(n) + fs[BaseLength(fs)..]
  }

  predicate IsPart(p: Path) {
    |p| >= |PART| && p[|p| - |PART|..] == PART
  }

  function PartOf(p: Path): (r: Path)
    ensures IsPart(r)
  {
    p + PART
  }

  // ---- the state ----

  type Pid = nat

  /** The file an upload created, or one that was there before. */
  datatype Ino = Own(pid: Pid) | Old(id: nat)

  datatype Inode = Inode(bytes: seq<byte>, mtime: int)

  datatype Phase =
    | Reserving(n: nat)                // about to create the .part of candidate n
    | Blocked(n: nat)                  // it exists: about to see whether it is stale
    | Reopening(n: nat)                // it was stale and is removed: about to create it again
    | Writing(n: nat, tmp: Path)
    | Publishing(n: nat, tmp: Path)    // complete: about to rename it to candidate n
    | Discarding(tmp: Path)            // about to unlink it and answer with an error
    | Finished(path: Path)             // answered 201 with this path
    | Failed
    | Crashed                          // killed; its .part may still be there

  datatype Upload = Upload(fs: Path, body: seq<byte>, phase: Phase)

  datatype Event = Published(pid: Pid, path: Path) | Deleted(path: Path)

  datatype State = State(
    names: map<Path, Ino>, inodes: map<Ino, Inode>, uploads: map<Pid, Upload>, now: int, log: seq<Event>)

  /** The .part an upload has of its own. */
  function Tmp(u: Upload): Option<Path> {
    match u.phase
    case Writing(_, tmp) => Some(tmp)
    case Publishing(_, tmp) => Some(tmp)
    case Discarding(tmp) => Some(tmp)
    case _ => None
  }

  datatype Step =
    | Start(pid: Pid, fs: Path, body: seq<byte>)
    | Open(pid: Pid)
    | OpenFails(pid: Pid)
    | RemoveStale(pid: Pid)
    | Write(pid: Pid, k: nat)
    | Close(pid: Pid)
    | Reject(pid: Pid)
    | Publish(pid: Pid)
    | PublishFails(pid: Pid)
    | Unlink(pid: Pid)
    | Crash(pid: Pid)
    | Delete(path: Path)
    | Tick(now: int)

  function Retry(n: nat): Phase {
    if n + 1 < MAX_NAME_TRIES then Reserving(n + 1) else Failed
  }

  predicate Enabled(s: State, step: Step) {
    match step
    case Start(pid, fs, _) => pid !in s.uploads && !IsPart(fs)
    case Open(pid) => pid in s.uploads && (s.uploads[pid].phase.Reserving? || s.uploads[pid].phase.Reopening?)
    case OpenFails(pid) => pid in s.uploads && (s.uploads[pid].phase.Reserving? || s.uploads[pid].phase.Reopening?)
    case RemoveStale(pid) => pid in s.uploads && s.uploads[pid].phase.Blocked?
    case Write(pid, k) =>
      && pid in s.uploads && s.uploads[pid].phase.Writing? && Own(pid) in s.inodes
      && |s.inodes[Own(pid)].bytes| + k <= |s.uploads[pid].body|
    case Close(pid) =>
      && pid in s.uploads && s.uploads[pid].phase.Writing? && Own(pid) in s.inodes
      && |s.inodes[Own(pid)].bytes| == |s.uploads[pid].body|
    case Reject(pid) => pid in s.uploads && s.uploads[pid].phase.Writing?
    case Publish(pid) => pid in s.uploads && s.uploads[pid].phase.Publishing?
    case PublishFails(pid) => pid in s.uploads && s.uploads[pid].phase.Publishing?
    case Unlink(pid) => pid in s.uploads && s.uploads[pid].phase.Discarding?
    case Crash(pid) => pid in s.uploads && !s.uploads[pid].phase.Finished? && !s.uploads[pid].phase.Crashed?
    case Delete(path) => path in s.names && !IsPart(path)
    case Tick(now) =>
      && now >= s.now
      && forall pid :: pid in s.uploads && Tmp(s.uploads[pid]).Some? && Own(pid) in s.inodes ==>
           now - s.inodes[Own(pid)].mtime < STALE_PART_SECS
  }

  function SetPhase(s: State, pid: Pid, phase: Phase): State
    requires pid in s.uploads
  {
    s.(uploads := s.uploads[pid := s.uploads[pid].(phase := phase)])
  }

  /** open(O_CREAT | O_EXCL) of the .part of the current candidate. */
  function ApplyOpen(s: State, pid: Pid): State
    requires Enabled(s, Open(pid))
  {
    var n := s.uploads[pid].phase.n;
    var tmp := PartOf(Candidate(s.uploads[pid].fs, n));
    if tmp in s.names then
      SetPhase(s, pid, if s.uploads[pid].phase.Reserving? then Blocked(n) else Retry(n))
    else
      SetPhase(s, pid, Writing(n, tmp)).(names := s.names[tmp := Own(pid)],
                                         inodes := s.inodes[Own(pid) := Inode([], s.now)])
  }

  /** Nobody has touched the file behind the name for an hour. */
  predicate Stale(s: State, p: Path) {
    p in s.names && s.names[p] in s.inodes && s.now - s.inodes[s.names[p]].mtime >= STALE_PART_SECS
  }

  /** remove_stale_part, as one atomic step. */
  function ApplyRemoveStale(s: State, pid: Pid): State
    requires Enabled(s, RemoveStale(pid))
  {
    var n := s.uploads[pid].phase.n;
    var tmp := PartOf(Candidate(s.uploads[pid].fs, n));
    if Stale(s, tmp) then
      SetPhase(s, pid, Reopening(n)).(names := s.names - {tmp})
    else
      SetPhase(s, pid, Retry(n))
  }

  /** renameat2(RENAME_NOREPLACE) of the .part to the current candidate. */
  function ApplyPublish(s: State, pid: Pid): State
    requires Enabled(s, Publish(pid))
  {
    var Publishing(n, tmp) := s.uploads[pid].phase;
    var target := Candidate(s.uploads[pid].fs, n);
    if target in s.names then
      SetPhase(s, pid, if n + 1 < MAX_NAME_TRIES then Publishing(n + 1, tmp) else Discarding(tmp))
    else if tmp !in s.names then
      SetPhase(s, pid, Discarding(tmp))
    else
      SetPhase(s, pid, Finished(target)).(names := (s.names - {tmp})[target := s.names[tmp]],
                                          log := s.log + [Published(pid, target)])
  }

  function Apply(s: State, step: Step): State
    requires Enabled(s, step)
  {
    match step
    case Start(pid, fs, body) => s.(uploads := s.uploads[pid := Upload(fs, body, Reserving(0))])
    case Open(pid) => ApplyOpen(s, pid)
    case OpenFails(pid) =>
      var phase := s.uploads[pid].phase;
      SetPhase(s, pid, if phase.Reserving? then Failed else Retry(phase.n))
    case RemoveStale(pid) => ApplyRemoveStale(s, pid)
    case Write(pid, k) =>
      var f := s.inodes[Own(pid)];
      var more := s.uploads[pid].body[|f.bytes|..|f.bytes| + k];
      s.(inodes := s.inodes[Own(pid) := Inode(f.bytes + more, s.now)])
    case Close(pid) =>
      var Writing(n, tmp) := s.uploads[pid].phase;
      SetPhase(s, pid, Publishing(n, tmp))
    case Reject(pid) => SetPhase(s, pid, Discarding(s.uploads[pid].phase.tmp))
    case Publish(pid) => ApplyPublish(s, pid)
    case PublishFails(pid) => SetPhase(s, pid, Discarding(s.uploads[pid].phase.tmp))
    case Unlink(pid) => SetPhase(s, pid, Failed).(names := s.names - {s.uploads[pid].phase.tmp})
    case Crash(pid) => SetPhase(s, pid, Crashed)
    case Delete(path) => s.(names := s.names - {path}, log := s.log + [Deleted(path)])
    case Tick(now) => s.(now := now)
  }

  // ---- the invariant ----

  /** An upload with a .part: the name is its own file, young enough, and holds what was written so far. */
  ghost predicate OwnsPart(s: State, pid: Pid, tmp: Path)
    requires pid in s.uploads
  {
    && IsPart(tmp) && tmp in s.names && s.names[tmp] == Own(pid)
    && Own(pid) in s.inodes
    && s.inodes[Own(pid)].bytes <= s.uploads[pid].body
    && s.now - s.inodes[Own(pid)].mtime < STALE_PART_SECS
    && (s.uploads[pid].phase.Publishing? ==> s.inodes[Own(pid)].bytes == s.uploads[pid].body)
  }

  /** Who can be behind a name: the upload that is using it as its .part, published it, or was killed. */
  ghost predicate Explained(s: State, path: Path, pid: Pid) {
    && pid in s.uploads && Own(pid) in s.inodes
    && match s.uploads[pid].phase
       case Finished(p) => p == path && !IsPart(path) && s.inodes[Own(pid)].bytes == s.uploads[pid].body
       case Crashed => IsPart(path)
       case _ => Tmp(s.uploads[pid]) == Some(path) && IsPart(path)
  }

  ghost predicate RequestsInv(s: State) {
    && (forall pid :: pid in s.uploads ==> !IsPart(s.uploads[pid].fs))
    && (forall ino: Ino :: ino in s.inodes && ino.Own? ==> ino.pid in s.uploads)
  }

  ghost predicate PartsInv(s: State) {
    forall pid :: pid in s.uploads && Tmp(s.uploads[pid]).Some? ==> OwnsPart(s, pid, Tmp(s.uploads[pid]).value)
  }

  ghost predicate ExplainedInv(s: State) {
    forall path :: path in s.names && s.names[path].Own? ==> Explained(s, path, s.names[path].pid)
  }

  /** A file of an upload has one name at a time. */
  ghost predicate OneNameInv(names: map<Path, Ino>) {
    forall p, q :: p in names && q in names && names[p] == names[q] && names[p].Own? ==> p == q
  }

  ghost predicate NamesInv(s: State) {
    RequestsInv(s) && PartsInv(s) && ExplainedInv(s) && OneNameInv(s.names)
  }

  // ---- what happened to a path ----

  /** Between positions i and j of the log, the path was deleted. */
  ghost predicate DeletedBetween(log: seq<Event>, path: Path, i: int, j: int) {
    exists k :: 0 <= k < |log| && i < k < j && log[k] == Deleted(path)
  }

  /** A path is published again only after it was deleted. */
  ghost predicate NoRepublish(log: seq<Event>) {
    forall i, j :: 0 <= i < j < |log| && log[i].Published? && log[j].Published? && log[i].path == log[j].path ==>
      DeletedBetween(log, log[i].path, i, j)
  }

  /** A published path still names a file unless it was deleted since. */
  ghost predicate LogInv(names: map<Path, Ino>, log: seq<Event>) {
    && NoRepublish(log)
    && (forall i :: 0 <= i < |log| && log[i].Published? ==>
         !IsPart(log[i].path) && (log[i].path in names || DeletedBetween(log, log[i].path, i, |log|)))
  }

  ghost predicate Inv(s: State) {
    NamesInv(s) && LogInv(s.names, s.log)
  }

  // ---- candidate names never end in .part ----

  lemma NotPartSuffix(front: string, d: string, ext: string)
    requires d != [] && d[|d| - 1] != 't'
    requires ext == [] || ext[0] == '.'
    requires |ext| >= 5 ==> !IsPart(ext)
    ensures !IsPart(front + d + ext)
  {
    var c := front + d + ext;
    if |c| >= 5 {
      var tail := c[|c| - 5..];
      if |ext| >= 5 {
        assert tail == ext[|ext| - 5..];
      } else if ext == [] {
        assert tail[4] == d[|d| - 1];
      } else {
        assert tail[5 - |ext|] == ext[0];
        assert PART[5 - |ext|] != '.';
      }
    }
  }

  lemma CandidateNotPart(fs: Path, n: nat)
    requires !IsPart(fs)
    ensures !IsPart(Candidate(fs, n))
  {
    if n > 0 {
      var k := BaseLength(fs);
      var ext, d := fs[k..], Decimal(n);
      if |ext| >= 5 {
        assert ext[|ext| - 5..] == fs[|fs| - 5..];
      }
      NotPartSuffix(fs[..k] + "-", d, ext);
    }
  }

  // ---- what the candidate names are ----

  lemma {:induction false} LastIndexOf(front: string, c: char, back: string)
    requires c !in back
    ensures LastIndex(front + [c] + back, c) == |front|
    ensures LastIndex(back, c) == -1
    decreases |back|
  {
    var s := front + [c] + back;
    if back == [] {
      assert s == front + [c];
    } else {
      assert s[..|s| - 1] == front + [c] + back[..|back| - 1];
      LastIndexOf(front, c, back[..|back| - 1]);
    }
  }

  /** The first candidate is the name itself. */
  lemma FirstCandidate(fs: Path)
    ensures Candidate(fs, 0) == fs
    ensures PartOf(fs) == fs + ".part"
  {
  }

  /** The others have their number, in decimal, before the extension. */
  lemma CandidateWithExtension(stem: string, ext: string, n: nat)
    requires n > 0 && '.' !in ext && '/' !in ext
    ensures Candidate(stem + "." + ext, n) == stem + "-" + Decimal(n) + "." + ext
    ensures ValueOf(Decimal(n)) == n
  {
    var fs := stem + "." + ext;
    DecimalValue(n);
    LastIndexOf(stem, '.', ext);
    assert forall i :: |stem| < i < |fs| ==> fs[i] == ext[i - |stem| - 1];
    assert LastIndex(fs, '/') < |stem|;
    assert BaseLength(fs) == |stem|;
    assert fs[..|stem|] == stem && fs[|stem|..] == "." + ext;
    assert stem + "-" + Decimal(n) + ("." + ext) == stem + "-" + Decimal(n) + "." + ext;
  }

  /** If the last component has no dot, the number goes to the end. */
  lemma CandidateWithoutExtension(dir: string, base: string, n: nat)
    requires n > 0 && '.' !in base && '/' !in base && (dir == "" || dir[|dir| - 1] == '/')
    ensures Candidate(dir + base, n) == dir + base + "-" + Decimal(n)
  {
    var fs := dir + base;
    if dir == "" {
      LastIndexOf("", '.', base);
      assert fs == base;
    } else {
      var front := dir[..|dir| - 1];
      assert fs == front + ['/'] + base;
      LastIndexOf(front, '/', base);
      assert forall i :: |dir| <= i < |fs| ==> fs[i] == base[i - |dir|];
      assert LastIndex(fs, '.') < |dir|;
      assert fs[|front|] == '/';
    }
    assert BaseLength(fs) == |fs|;
    assert fs[..|fs|] == fs && fs[|fs|..] == "";
  }

  // ---- candidate names are all different ----

  function ValueOf(s: string): int {
    if s == [] then 0 else ValueOf(s[..|s| - 1]) * 10 + (s[|s| - 1] as int - '0' as int)
  }

  lemma {:induction false} DecimalValue(n: nat)
    ensures ValueOf(Decimal(n)) == n
    decreases n
  {
    if n >= 10 {
      DecimalValue(n / 10);
      var s := Decimal(n);
      assert s[..|s| - 1] == Decimal(n / 10);
    } else {
      assert Decimal(n)[..0] == [];
    }
  }

  /** Every retry asks for a name not tried before. */
  lemma CandidatesDistinct(fs: Path, m: nat, n: nat)
    requires m != n
    ensures Candidate(fs, m) != Candidate(fs, n)
    ensures PartOf(Candidate(fs, m)) != PartOf(Candidate(fs, n))
  {
    var k := BaseLength(fs);
    var a, b := Candidate(fs, m), Candidate(fs, n);
    DecimalValue(m);
    DecimalValue(n);
    if m > 0 && n > 0 && |a| == |b| {
      assert a[k + 1..k + 1 + |Decimal(m)|] == Decimal(m);
      assert b[k + 1..k + 1 + |Decimal(n)|] == Decimal(n);
    }
    assert PartOf(a)[..|a|] == a && PartOf(b)[..|b|] == b;
    assert |PartOf(a)| == |a| + |PART| && |PartOf(b)| == |b| + |PART|;
  }

  // ---- every step keeps the invariant ----

  lemma PhaseKeeps(s: State, pid: Pid, ph: Phase)
    requires NamesInv(s) && pid in s.uploads
    requires !s.uploads[pid].phase.Finished? && !s.uploads[pid].phase.Crashed? && !ph.Finished?
    requires ph.Crashed? || Tmp(s.uploads[pid].(phase := ph)) == Tmp(s.uploads[pid])
    requires ph.Publishing? ==> Own(pid) in s.inodes && s.inodes[Own(pid)].bytes == s.uploads[pid].body
    ensures NamesInv(SetPhase(s, pid, ph))
  {
    hide Candidate, IsPart;
  }

  /** Exactly the names no upload is using can be removed under the others. This is what the age test of
      remove_stale_part establishes, and why the test and the removal have to be one step. */
  lemma DropKeeps(s: State, path: Path)
    requires NamesInv(s)
    ensures NamesInv(s.(names := s.names - {path})) <==>
            forall pid :: pid in s.uploads ==> Tmp(s.uploads[pid]) != Some(path)
  {
    var s' := s.(names := s.names - {path});
    if pid :| pid in s.uploads && Tmp(s.uploads[pid]) == Some(path) {
      assert !OwnsPart(s', pid, path);
    }
  }

  lemma OpenKeeps(s: State, pid: Pid)
    requires NamesInv(s) && Enabled(s, Open(pid))
    ensures NamesInv(Apply(s, Open(pid)))
  {
    hide Candidate, IsPart;
    var n := s.uploads[pid].phase.n;
    var tmp := PartOf(Candidate(s.uploads[pid].fs, n));
    if tmp in s.names {
      PhaseKeeps(s, pid, if s.uploads[pid].phase.Reserving? then Blocked(n) else Retry(n));
    } else {
      var s' := Apply(s, Open(pid));
      assert RequestsInv(s');
      forall path | path in s.names && s.names[path].Own? ensures s.names[path].pid != pid {
        assert Explained(s, path, s.names[path].pid);
      }
      forall path | path in s'.names && s'.names[path].Own? ensures Explained(s', path, s'.names[path].pid) {
        assert path == tmp || Explained(s, path, s.names[path].pid);
      }
      forall q | q in s'.uploads && Tmp(s'.uploads[q]).Some? ensures OwnsPart(s', q, Tmp(s'.uploads[q]).value) {
        assert q == pid || OwnsPart(s, q, Tmp(s.uploads[q]).value);
      }
    }
  }

  lemma RemoveStaleKeeps(s: State, pid: Pid)
    requires NamesInv(s) && Enabled(s, RemoveStale(pid))
    ensures NamesInv(Apply(s, RemoveStale(pid)))
  {
    hide Candidate, IsPart;
    var n := s.uploads[pid].phase.n;
    var tmp := PartOf(Candidate(s.uploads[pid].fs, n));
    if Stale(s, tmp) {
      forall q | q in s.uploads ensures Tmp(s.uploads[q]) != Some(tmp) {
        assert Tmp(s.uploads[q]).Some? ==> OwnsPart(s, q, Tmp(s.uploads[q]).value);
      }
      DropKeeps(s, tmp);
      PhaseKeeps(s.(names := s.names - {tmp}), pid, Reopening(n));
    } else {
      PhaseKeeps(s, pid, Retry(n));
    }
  }

  lemma WriteKeeps(s: State, pid: Pid, k: nat)
    requires NamesInv(s) && Enabled(s, Write(pid, k))
    ensures NamesInv(Apply(s, Write(pid, k)))
  {
    hide Candidate, IsPart;
    var s' := Apply(s, Write(pid, k));
    forall q | q in s'.uploads && Tmp(s'.uploads[q]).Some? ensures OwnsPart(s', q, Tmp(s'.uploads[q]).value) {
      assert OwnsPart(s, q, Tmp(s.uploads[q]).value);
    }
  }

  lemma PublishKeeps(s: State, pid: Pid)
    requires NamesInv(s) && Enabled(s, Publish(pid))
    ensures NamesInv(Apply(s, Publish(pid)))
  {
    hide Candidate, IsPart;
    var Publishing(n, tmp) := s.uploads[pid].phase;
    var target := Candidate(s.uploads[pid].fs, n);
    CandidateNotPart(s.uploads[pid].fs, n);
    assert OwnsPart(s, pid, tmp);
    if target in s.names {
      PhaseKeeps(s, pid, if n + 1 < MAX_NAME_TRIES then Publishing(n + 1, tmp) else Discarding(tmp));
    } else {
      var s' := Apply(s, Publish(pid));
      forall path | path in s'.names && s'.names[path].Own? ensures Explained(s', path, s'.names[path].pid) {
        if path != target {
          assert Explained(s, path, s.names[path].pid);
        }
      }
      forall q | q in s'.uploads && Tmp(s'.uploads[q]).Some? ensures OwnsPart(s', q, Tmp(s'.uploads[q]).value) {
        assert OwnsPart(s, q, Tmp(s.uploads[q]).value);
      }
    }
  }

  lemma UnlinkKeeps(s: State, pid: Pid)
    requires NamesInv(s) && Enabled(s, Unlink(pid))
    ensures NamesInv(Apply(s, Unlink(pid)))
  {
    hide Candidate, IsPart;
    var tmp := s.uploads[pid].phase.tmp;
    assert OwnsPart(s, pid, tmp);
    var s' := Apply(s, Unlink(pid));
    forall path | path in s'.names && s'.names[path].Own? ensures Explained(s', path, s'.names[path].pid) {
      assert Explained(s, path, s.names[path].pid);
    }
    forall q | q in s'.uploads && Tmp(s'.uploads[q]).Some? ensures OwnsPart(s', q, Tmp(s'.uploads[q]).value) {
      assert OwnsPart(s, q, Tmp(s.uploads[q]).value);
    }
  }

  lemma DeleteKeeps(s: State, path: Path)
    requires NamesInv(s) && Enabled(s, Delete(path))
    ensures NamesInv(Apply(s, Delete(path)))
  {
    hide Candidate, IsPart;
    forall q | q in s.uploads ensures Tmp(s.uploads[q]) != Some(path) {
      assert Tmp(s.uploads[q]).Some? ==> OwnsPart(s, q, Tmp(s.uploads[q]).value);
    }
    DropKeeps(s, path);
  }

  lemma CloseKeeps(s: State, pid: Pid)
    requires NamesInv(s) && Enabled(s, Close(pid))
    ensures NamesInv(Apply(s, Close(pid)))
  {
    var Writing(n, tmp) := s.uploads[pid].phase;
    assert OwnsPart(s, pid, tmp);
    PhaseKeeps(s, pid, Publishing(n, tmp));
  }

  lemma StartKeeps(s: State, pid: Pid, fs: Path, body: seq<byte>)
    requires NamesInv(s) && Enabled(s, Start(pid, fs, body))
    ensures NamesInv(Apply(s, Start(pid, fs, body)))
  {
  }

  lemma TickKeeps(s: State, now: int)
    requires NamesInv(s) && Enabled(s, Tick(now))
    ensures NamesInv(Apply(s, Tick(now)))
  {
  }

  lemma NamesKept(s: State, step: Step)
    requires NamesInv(s) && Enabled(s, step)
    ensures NamesInv(Apply(s, step))
  {
    hide Candidate, IsPart, NamesInv;
    match step
    case Start(pid, fs, body) => StartKeeps(s, pid, fs, body);
    case Open(pid) => OpenKeeps(s, pid);
    case OpenFails(pid) =>
      var phase := s.uploads[pid].phase;
      PhaseKeeps(s, pid, if phase.Reserving? then Failed else Retry(phase.n));
    case RemoveStale(pid) => RemoveStaleKeeps(s, pid);
    case Write(pid, k) => WriteKeeps(s, pid, k);
    case Close(pid) => CloseKeeps(s, pid);
    case Reject(pid) => PhaseKeeps(s, pid, Discarding(s.uploads[pid].phase.tmp));
    case Publish(pid) => PublishKeeps(s, pid);
    case PublishFails(pid) => PhaseKeeps(s, pid, Discarding(s.uploads[pid].phase.tmp));
    case Unlink(pid) => UnlinkKeeps(s, pid);
    case Crash(pid) => PhaseKeeps(s, pid, Crashed);
    case Delete(path) => DeleteKeeps(s, path);
    case Tick(now) => TickKeeps(s, now);
  }

  lemma LogSame(names: map<Path, Ino>, names': map<Path, Ino>, log: seq<Event>)
    requires LogInv(names, log)
    requires forall p :: p in names && !IsPart(p) ==> p in names'
    ensures LogInv(names', log)
  {
  }

  /** Appending to the log keeps what lies between two positions. */
  lemma LogAppend(log: seq<Event>, e: Event, path: Path, i: int, j: int)
    requires DeletedBetween(log, path, i, j)
    ensures DeletedBetween(log + [e], path, i, j)
  {
    var k :| 0 <= k < |log| && i < k < j && log[k] == Deleted(path);
    assert (log + [e])[k] == Deleted(path);
  }

  lemma LogPublish(names: map<Path, Ino>, names': map<Path, Ino>, log: seq<Event>, pid: Pid, path: Path)
    requires LogInv(names, log) && path !in names && path in names' && !IsPart(path)
    requires forall p :: p in names && !IsPart(p) ==> p in names'
    ensures LogInv(names', log + [Published(pid, path)])
  {
    var log' := log + [Published(pid, path)];
    forall i, j | 0 <= i < j < |log'| && log'[i].Published? && log'[j].Published? && log'[i].path == log'[j].path
      ensures DeletedBetween(log', log'[i].path, i, j)
    {
      LogAppend(log, Published(pid, path), log[i].path, i, j);
    }
    forall i | 0 <= i < |log'| && log'[i].Published? && log'[i].path !in names'
      ensures DeletedBetween(log', log'[i].path, i, |log'|)
    {
      LogAppend(log, Published(pid, path), log[i].path, i, |log|);
    }
  }

  lemma LogDelete(names: map<Path, Ino>, log: seq<Event>, path: Path)
    requires LogInv(names, log)
    ensures LogInv(names - {path}, log + [Deleted(path)])
  {
    var log' := log + [Deleted(path)];
    forall i, j | 0 <= i < j < |log'| && log'[i].Published? && log'[j].Published? && log'[i].path == log'[j].path
      ensures DeletedBetween(log', log'[i].path, i, j)
    {
      LogAppend(log, Deleted(path), log[i].path, i, j);
    }
    forall i | 0 <= i < |log'| && log'[i].Published? && log'[i].path !in names - {path}
      ensures DeletedBetween(log', log'[i].path, i, |log'|)
    {
      if log[i].path == path {
        assert log'[|log|] == Deleted(path);
      } else {
        LogAppend(log, Deleted(path), log[i].path, i, |log|);
      }
    }
  }

  lemma RequestNotPart(s: State, pid: Pid)
    requires NamesInv(s) && pid in s.uploads
    ensures !IsPart(s.uploads[pid].fs)
  {
  }

  lemma InvKept(s: State, step: Step)
    requires Inv(s) && Enabled(s, step)
    ensures Inv(Apply(s, step))
  {
    hide NamesInv, LogInv, Candidate, IsPart;
    NamesKept(s, step);
    UntouchedNames(s, step);
    var s' := Apply(s, step);
    match step
    case Publish(pid) =>
      var target := Candidate(s.uploads[pid].fs, s.uploads[pid].phase.n);
      RequestNotPart(s, pid);
      CandidateNotPart(s.uploads[pid].fs, s.uploads[pid].phase.n);
      if s'.log != s.log {
        LogPublish(s.names, s'.names, s.log, pid, target);
      } else {
        LogSame(s.names, s'.names, s.log);
      }
    case Delete(path) => LogDelete(s.names, s.log, path);
    case _ => LogSame(s.names, s'.names, s.log);
  }

  // ---- safety of one step ----

  /** No step of an upload removes or replaces a name that is not a .part. */
  lemma UntouchedNames(s: State, step: Step)
    requires NamesInv(s) && Enabled(s, step)
    ensures forall p :: p in s.names && !IsPart(p) && step != Delete(p) ==>
              p in Apply(s, step).names && Apply(s, step).names[p] == s.names[p]
  {
    hide Candidate, IsPart, OneNameInv, ExplainedInv, RequestsInv;
    match step
    case Publish(pid) => assert OwnsPart(s, pid, s.uploads[pid].phase.tmp);
    case Unlink(pid) => assert OwnsPart(s, pid, s.uploads[pid].phase.tmp);
    case _ =>
  }

  /** What a name stands for. */
  function Content(s: State, path: Path): Option<seq<byte>> {
    if path in s.names && s.names[path] in s.inodes then Some(s.inodes[s.names[path]].bytes) else None
  }

  /** A file that is not a .part keeps its content in every step but its own deletion. */
  lemma PublishedFilesStay(s: State, step: Step, path: Path)
    requires NamesInv(s) && Enabled(s, step) && path in s.names && !IsPart(path) && step != Delete(path)
    requires s.names[path] in s.inodes
    ensures path in Apply(s, step).names && Content(Apply(s, step), path) == Content(s, path)
  {
    hide Candidate, IsPart, OneNameInv, RequestsInv;
    UntouchedNames(s, step);
    match step
    case Write(pid, k) =>
      assert OwnsPart(s, pid, s.uploads[pid].phase.tmp);
    case Open(pid) =>
      assert s.names[path].Own? ==> Explained(s, path, s.names[path].pid);
    case _ =>
  }

  /** A name that is not a .part can only come into being as the complete content of one upload, which then has
      finished. */
  lemma AppearsComplete(s: State, step: Step, path: Path)
    requires NamesInv(s) && Enabled(s, step) && path !in s.names && path in Apply(s, step).names && !IsPart(path)
    ensures step.Publish? && step.pid in s.uploads
    ensures Apply(s, step).uploads[step.pid].phase == Finished(path)
    ensures Content(Apply(s, step), path) == Some(s.uploads[step.pid].body)
  {
    hide Candidate, IsPart;
    if step.Publish? {
      assert OwnsPart(s, step.pid, s.uploads[step.pid].phase.tmp);
    }
  }

  /** No two uploads at work share a .part. */
  lemma PartsDistinct(s: State, p: Pid, q: Pid)
    requires NamesInv(s) && p in s.uploads && q in s.uploads && p != q
    requires Tmp(s.uploads[p]).Some? && Tmp(s.uploads[q]).Some?
    ensures Tmp(s.uploads[p]) != Tmp(s.uploads[q])
  {
    assert OwnsPart(s, p, Tmp(s.uploads[p]).value);
    assert OwnsPart(s, q, Tmp(s.uploads[q]).value);
  }

  // ---- safety of whole runs ----

  /** Any files may be there before the first upload, left-over .part files included. */
  ghost predicate Initial(s: State) {
    && s.uploads == map[] && s.log == []
    && (forall p :: p in s.names ==> s.names[p].Old? && s.names[p] in s.inodes)
    && (forall i :: i in s.inodes ==> i.Old?)
  }

  ghost predicate IsRun(states: seq<State>, steps: seq<Step>) {
    && |states| == |steps| + 1 && Initial(states[0])
    && forall i :: 0 <= i < |steps| ==> Enabled(states[i], steps[i]) && states[i + 1] == Apply(states[i], steps[i])
  }

  lemma {:induction false} RunKeepsInv(states: seq<State>, steps: seq<Step>, i: nat)
    requires IsRun(states, steps) && i < |states|
    ensures Inv(states[i])
  {
    if i > 0 {
      RunKeepsInv(states, steps, i - 1);
      InvKept(states[i - 1], steps[i - 1]);
    }
  }

  /** In every run, however uploads and deletions interleave: two answers with the same path have a deletion between
      them. */
  lemma NeverTheSamePathTwice(states: seq<State>, steps: seq<Step>, n: nat, i: nat, j: nat)
    requires IsRun(states, steps) && n < |states|
    requires i < j < |states[n].log| && states[n].log[i].Published? && states[n].log[j].Published?
    requires states[n].log[i].path == states[n].log[j].path
    ensures exists k :: i < k < j && states[n].log[k] == Deleted(states[n].log[i].path)
  {
    RunKeepsInv(states, steps, n);
    assert DeletedBetween(states[n].log, states[n].log[i].path, i, j);
  }

  /** In every run a file keeps its content from any moment on until someone deletes it. */
  lemma {:induction false} FilesStayUntilDeleted(states: seq<State>, steps: seq<Step>, i: nat, j: nat, path: Path)
    requires IsRun(states, steps) && i <= j < |states|
    requires path in states[i].names && !IsPart(path) && states[i].names[path] in states[i].inodes
    requires forall k :: i <= k < j ==> steps[k] != Delete(path)
    ensures path in states[j].names && Content(states[j], path) == Content(states[i], path)
    ensures states[j].names[path] in states[j].inodes
    decreases j - i
  {
    if i < j {
      FilesStayUntilDeleted(states, steps, i, j - 1, path);
      RunKeepsInv(states, steps, j - 1);
      PublishedFilesStay(states[j - 1], steps[j - 1], path);
    }
  }

  /** In every run, a file of an upload that is not a .part is there under the path the upload was answered with, and is
      complete. */
  lemma AnsweredUploadIsComplete(states: seq<State>, steps: seq<Step>, i: nat, path: Path)
    requires IsRun(states, steps) && i < |states|
    requires path in states[i].names && states[i].names[path].Own? && !IsPart(path)
    ensures states[i].names[path].pid in states[i].uploads
    ensures var u := states[i].uploads[states[i].names[path].pid];
            u.phase == Finished(path) && Content(states[i], path) == Some(u.body)
  {
    RunKeepsInv(states, steps, i);
    assert Explained(states[i], path, states[i].names[path].pid);
  }

  /** Who finishes does so by publishing, and then finds its content under the name. */
  lemma FinishingStep(s: State, step: Step, pid: Pid, path: Path)
    requires NamesInv(s) && Enabled(s, step)
    requires !(pid in s.uploads && s.uploads[pid].phase.Finished?)
    requires pid in Apply(s, step).uploads && Apply(s, step).uploads[pid].phase == Finished(path)
    ensures !IsPart(path)
    ensures path in Apply(s, step).names && Apply(s, step).names[path] in Apply(s, step).inodes
    ensures Content(Apply(s, step), path) == Some(Apply(s, step).uploads[pid].body)
  {
    hide Candidate, IsPart, OneNameInv, ExplainedInv;
    assert step == Publish(pid);
    assert OwnsPart(s, pid, s.uploads[pid].phase.tmp);
    CandidateNotPart(s.uploads[pid].fs, s.uploads[pid].phase.n);
  }

  /** A finished upload stays as it is. */
  lemma FinishedStays(s: State, step: Step, pid: Pid)
    requires Enabled(s, step) && pid in s.uploads && s.uploads[pid].phase.Finished?
    ensures pid in Apply(s, step).uploads && Apply(s, step).uploads[pid] == s.uploads[pid]
  {
    hide Candidate, IsPart;
  }

  /** What a client relies on, in every run: from the moment an upload is answered with a path, that path holds the
      upload's whole body until someone deletes it. */
  lemma {:induction false} ClientFindsItsUpload(states: seq<State>, steps: seq<Step>, i: nat, j: nat,
                                               pid: Pid, path: Path)
    requires IsRun(states, steps) && i <= j < |states|
    requires !(pid in states[i].uploads && states[i].uploads[pid].phase.Finished?)
    requires pid in states[j].uploads && states[j].uploads[pid].phase == Finished(path)
    requires forall k :: i <= k < j ==> steps[k] != Delete(path)
    ensures path in states[j].names && !IsPart(path) && states[j].names[path] in states[j].inodes
    ensures Content(states[j], path) == Some(states[j].uploads[pid].body)
    decreases j
  {
    hide Inv, NamesInv, Enabled, Apply, Content, IsPart;
    var s, step := states[j - 1], steps[j - 1];
    RunKeepsInv(states, steps, j - 1);
    InvHasNames(s);
    if pid in s.uploads && s.uploads[pid].phase.Finished? {
      FinishedStays(s, step, pid);
      ClientFindsItsUpload(states, steps, i, j - 1, pid, path);
      PublishedFilesStay(s, step, path);
      ContentIsInode(states[j], path);
    } else {
      FinishingStep(s, step, pid, path);
    }
  }

  lemma InvHasNames(s: State)
    requires Inv(s)
    ensures NamesInv(s)
  {
  }

  lemma ContentIsInode(s: State, path: Path)
    requires Content(s, path).Some?
    ensures path in s.names && s.names[path] in s.inodes
  {
  }

  // ---- the loops of op_upload, when nobody else comes in between ----

  /** The .part of candidate m can be had. */
  predicate Reservable(s: State, fs: Path, m: nat) {
    var tmp := PartOf(Candidate(fs, m));
    tmp !in s.names || Stale(s, tmp)
  }

  ghost predicate NoneReservable(s: State, fs: Path, to: nat) {
    forall k :: 0 <= k < to ==> !Reservable(s, fs, k)
  }

  function Reserved(s: State, pid: Pid, m: nat): State
    requires pid in s.uploads
  {
    var tmp := PartOf(Candidate(s.uploads[pid].fs, m));
    SetPhase(s, pid, Writing(m, tmp)).(names := s.names[tmp := Own(pid)],
                                       inodes := s.inodes[Own(pid) := Inode([], s.now)])
  }

  /** One round: open, and open again if what was in the way was stale. */
  method TryReserve(s: State, pid: Pid, n: nat) returns (t: State)
    requires pid in s.uploads && s.uploads[pid].phase == Reserving(n)
    ensures pid in t.uploads
    ensures t == if Reservable(s, s.uploads[pid].fs, n) then Reserved(s, pid, n) else SetPhase(s, pid, Retry(n))
  {
    hide Candidate;
    ghost var tmp := PartOf(Candidate(s.uploads[pid].fs, n));
    assert (s.names - {tmp})[tmp := Own(pid)] == s.names[tmp := Own(pid)];
    t := Apply(s, Open(pid));
    if t.uploads[pid].phase.Blocked? {
      t := Apply(t, RemoveStale(pid));
      if t.uploads[pid].phase.Reopening? {
        t := Apply(t, Open(pid));
      }
    }
  }

  /** The reserving loop takes the first candidate whose .part is free or stale, and changes nothing else. */
  method ReserveName(s: State, pid: Pid) returns (t: State)
    requires pid in s.uploads && s.uploads[pid].phase == Reserving(0)
    ensures NoneReservable(s, s.uploads[pid].fs, MAX_NAME_TRIES) ==> t == SetPhase(s, pid, Failed)
    ensures forall m: nat ::
              m < MAX_NAME_TRIES && NoneReservable(s, s.uploads[pid].fs, m) && Reservable(s, s.uploads[pid].fs, m) ==>
              t == Reserved(s, pid, m)
    ensures var tmp := s.uploads[pid].fs + ".part";
            var old_ := tmp in s.names && s.names[tmp] in s.inodes && s.now - s.inodes[s.names[tmp]].mtime >= 3600;
            if tmp !in s.names || old_ then
              t == SetPhase(s, pid, Writing(0, tmp)).(names := s.names[tmp := Own(pid)],
                                                      inodes := s.inodes[Own(pid) := Inode([], s.now)])
            else pid in t.uploads && (t.uploads[pid].phase.Writing? ==> t.uploads[pid].phase.n > 0)
  {
    hide Reservable, Candidate, Reserved;
    ReservedFirst(s, pid);
    ghost var fs := s.uploads[pid].fs;
    t := s;
    for n := 0 to MAX_NAME_TRIES
      invariant t == SetPhase(s, pid, if n < MAX_NAME_TRIES then Reserving(n) else Failed)
      invariant NoneReservable(s, fs, n)
    {
      PhaseIsAside(s, pid, Reserving(n), n);
      t := TryReserve(t, pid, n);
      if t.uploads[pid].phase.Writing? { return; }
    }
  }

  /** The requested name, if its .part is free. */
  lemma ReservedFirst(s: State, pid: Pid)
    requires pid in s.uploads
    ensures var tmp := s.uploads[pid].fs + ".part";
            var old_ := tmp in s.names && s.names[tmp] in s.inodes && s.now - s.inodes[s.names[tmp]].mtime >= 3600;
            && (Reservable(s, s.uploads[pid].fs, 0) <==> tmp !in s.names || old_)
            && Reserved(s, pid, 0) ==
                 SetPhase(s, pid, Writing(0, tmp)).(names := s.names[tmp := Own(pid)],
                                                    inodes := s.inodes[Own(pid) := Inode([], s.now)])
  {
  }

  /** What can be reserved does not depend on where the upload itself is. */
  lemma PhaseIsAside(s: State, pid: Pid, phase: Phase, n: nat)
    requires pid in s.uploads
    ensures var r := SetPhase(s, pid, phase);
            && Reservable(r, s.uploads[pid].fs, n) == Reservable(s, s.uploads[pid].fs, n)
            && Reserved(r, pid, n) == Reserved(s, pid, n)
            && Reserved(r, pid, n).uploads[pid].phase.Writing? && Reserved(r, pid, n).uploads[pid].phase.n == n
  {
  }

  predicate NameTaken(s: State, fs: Path, m: nat) { Candidate(fs, m) in s.names }

  ghost predicate AllTaken(s: State, fs: Path, from: nat, to: nat) {
    forall k :: from <= k < to ==> NameTaken(s, fs, k)
  }

  function PublishedAs(s: State, pid: Pid, tmp: Path, path: Path): State
    requires pid in s.uploads && tmp in s.names
  {
    SetPhase(s, pid, Finished(path)).(names := (s.names - {tmp})[path := s.names[tmp]],
                                      log := s.log + [Published(pid, path)])
  }

  /** The publishing loop goes on from the reserved candidate to the first name nobody has, and keeps the content under
      it; if there is none, the .part is removed. */
  method PublishName(s: State, pid: Pid, n: nat, tmp: Path) returns (t: State)
    requires pid in s.uploads && s.uploads[pid].phase == Publishing(n, tmp) && tmp in s.names && n < MAX_NAME_TRIES
    ensures AllTaken(s, s.uploads[pid].fs, n, MAX_NAME_TRIES) ==>
              t == SetPhase(s, pid, Failed).(names := s.names - {tmp})
    ensures forall m: nat ::
              n <= m < MAX_NAME_TRIES && AllTaken(s, s.uploads[pid].fs, n, m) && !NameTaken(s, s.uploads[pid].fs, m) ==>
              t == PublishedAs(s, pid, tmp, Candidate(s.uploads[pid].fs, m))
    ensures var fs := s.uploads[pid].fs;
            n == 0 && fs !in s.names ==>
              t == SetPhase(s, pid, Finished(fs)).(names := (s.names - {tmp})[fs := s.names[tmp]],
                                                   log := s.log + [Published(pid, fs)])
  {
    hide NameTaken, Candidate, PublishedAs;
    ghost var fs := s.uploads[pid].fs;
    PublishedFirst(s, pid, tmp);
    t := s;
    for k := n to MAX_NAME_TRIES
      invariant t == SetPhase(s, pid, if k < MAX_NAME_TRIES then Publishing(k, tmp) else Discarding(tmp))
      invariant AllTaken(s, fs, n, k)
    {
      NameIsAside(s, pid, Publishing(k, tmp), k, tmp);
      t := TryPublish(t, pid, k, tmp);
      if t.uploads[pid].phase.Finished? { return; }
    }
    t := Apply(t, Unlink(pid));
  }

  /** One round: rename without replacing. */
  method TryPublish(s: State, pid: Pid, k: nat, tmp: Path) returns (t: State)
    requires pid in s.uploads && s.uploads[pid].phase == Publishing(k, tmp) && tmp in s.names
    ensures pid in t.uploads
    ensures t == if NameTaken(s, s.uploads[pid].fs, k)
                 then SetPhase(s, pid, if k + 1 < MAX_NAME_TRIES then Publishing(k + 1, tmp) else Discarding(tmp))
                 else PublishedAs(s, pid, tmp, Candidate(s.uploads[pid].fs, k))
  {
    hide Candidate;
    t := Apply(s, Publish(pid));
  }

  /** What is taken does not depend on where the upload itself is. */
  lemma NameIsAside(s: State, pid: Pid, phase: Phase, k: nat, tmp: Path)
    requires pid in s.uploads && tmp in s.names
    ensures var r, fs := SetPhase(s, pid, phase), s.uploads[pid].fs;
            && NameTaken(r, fs, k) == NameTaken(s, fs, k)
            && PublishedAs(r, pid, tmp, Candidate(fs, k)) == PublishedAs(s, pid, tmp, Candidate(fs, k))
            && pid in PublishedAs(r, pid, tmp, Candidate(fs, k)).uploads
            && PublishedAs(r, pid, tmp, Candidate(fs, k)).uploads[pid].phase.Finished?
  {
    hide Candidate;
  }

  /** The requested name, if nobody has it. */
  lemma PublishedFirst(s: State, pid: Pid, tmp: Path)
    requires pid in s.uploads && tmp in s.names
    ensures var fs := s.uploads[pid].fs;
            && NameTaken(s, fs, 0) == (fs in s.names)
            && PublishedAs(s, pid, tmp, Candidate(fs, 0)) ==
                 SetPhase(s, pid, Finished(fs)).(names := (s.names - {tmp})[fs := s.names[tmp]],
                                                 log := s.log + [Published(pid, fs)])
  {
    FirstCandidate(s.uploads[pid].fs);
  }

  /** An upload that nobody disturbs, to a free name: it is answered with exactly that name, which then holds exactly
      the body, and every other name is as before. */
  method UploadAlone(s: State, pid: Pid, fs: Path, body: seq<byte>) returns (t: State)
    requires pid !in s.uploads && !IsPart(fs)
    requires fs !in s.names && fs + ".part" !in s.names
    ensures pid in t.uploads && t.uploads[pid].phase == Finished(fs)
    ensures fs in t.names && Content(t, fs) == Some(body)
    ensures t.names == s.names[fs := t.names[fs]]
  {
    hide Candidate, IsPart, Reservable, NameTaken, NoneReservable, AllTaken, Reserved, PublishedAs, PartOf;
    var tmp := fs + ".part";
    var s1 := Apply(s, Start(pid, fs, body));
    var s2 := ReserveName(s1, pid);
    assert s2.names == s.names[tmp := Own(pid)] && s2.inodes[Own(pid)] == Inode([], s.now);
    var s3 := Apply(s2, Write(pid, |body|));
    assert s3.names == s2.names && s3.inodes[Own(pid)].bytes == body;
    var s4 := Apply(s3, Close(pid));
    assert s4.names == s2.names && s4.inodes == s3.inodes;
    t := PublishName(s4, pid, 0, tmp);
    assert (s2.names - {tmp})[fs := Own(pid)] == s.names[fs := Own(pid)];
  }
}
