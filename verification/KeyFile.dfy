/**
 How the processes of one install agree on a key (homeKey and readKey of
 server/cmd/hamlaneh-server/home.go), as a state machine over one shared file.

 Every file operation is one atomic step and the steps of any number of starts
 interleave freely. A process that crashes is one that no later event names.
 A write may fail after any number of bytes.
 */
module KeyFile {
  import opened Bytes

  type Process = nat
  type Key = seq<byte>

  /** minKeyLen: the shortest key a caller accepts. */
  const MIN_KEY: nat := 32

  datatype File = Absent | Present(content: seq<byte>)

  datatype Source = FromEnvironment | FromFile

  /** Where a start stands in homeKey. */
  datatype Stage =
    | Reading
    | Creating(minted: Key)
    | Writing(minted: Key)
    | Rereading
    | Held(key: Key, source: Source)
    | Failed

  datatype World = World(file: File, stages: map<Process, Stage>)

  datatype Event =
    | Launch(p: Process, env: Key)
    | Read(p: Process, minted: Key)
    | Create(p: Process)
    | Write(p: Process, written: nat, closed: bool)
    | Reread(p: Process)

  // ----- the text of a key

  predicate IsSpace(b: byte) { 0x09 <= b <= 0x0D || b == 0x20 }

  function TrimLeft(s: seq<byte>): seq<byte> { if s != [] && IsSpace(s[0]) then TrimLeft(s[1..]) else s }

  function TrimRight(s: seq<byte>): seq<byte> {
    if s != [] && IsSpace(s[|s| - 1]) then TrimRight(s[..|s| - 1]) else s
  }

  /** readKey trims what it read. */
  function Trim(s: seq<byte>): seq<byte> { TrimRight(TrimLeft(s)) }

  predicate IsBase64(b: byte) {
    || 0x41 <= b <= 0x5A || 0x61 <= b <= 0x7A || 0x30 <= b <= 0x39
    || b == 0x2B || b == 0x2F || b == 0x3D
  }

  /** 32 random bytes in padded base64. */
  ghost predicate IsMinted(k: Key) { |k| == 44 && forall i | 0 <= i < |k| :: IsBase64(k[i]) }

  // ----- one step

  function Next(w: World, e: Event): World {
    if e.Launch? then
      if e.p in w.stages then w
      else w.(stages := w.stages[e.p := if e.env != [] then Held(e.env, FromEnvironment) else Reading])
    else if e.p !in w.stages then w
    else
      var stage := w.stages[e.p];
      match e
      case Read(p, minted) =>
        if !stage.Reading? then w
        else w.(stages := w.stages[p := if w.file.Present? then Held(Trim(w.file.content), FromFile) else Creating(minted)])
      case Create(p) =>
        if !stage.Creating? then w
        else if w.file.Present? then w.(stages := w.stages[p := Rereading])
        else World(Present([]), w.stages[p := Writing(stage.minted)])
      case Write(p, written, closed) =>
        if !stage.Writing? || written > |stage.minted| then w
        else
          World(Present(stage.minted[..written]),
                w.stages[p := if written == |stage.minted| && closed then Held(stage.minted, FromFile) else Failed])
      case Reread(p) =>
        if !stage.Rereading? then w
        else w.(stages := w.stages[p := if w.file.Present? then Held(Trim(w.file.content), FromFile) else Failed])
  }

  ghost function Exec(w: World, es: seq<Event>): World
    decreases |es|
  {
    if es == [] then w else Next(Exec(w, es[..|es| - 1]), es[|es| - 1])
  }

  /** The generated keys of a run have the shape the generator gives them. */
  ghost predicate MintsKeys(es: seq<Event>) { forall i | 0 <= i < |es| && es[i].Read? :: IsMinted(es[i].minted) }

  /** A process got past the length check with the key kept in the file. */
  ghost predicate Accepts(w: World, p: Process, k: Key) {
    p in w.stages && w.stages[p] == Held(k, FromFile) && |k| >= MIN_KEY
  }

  ghost predicate FileHolds(f: File, k: Key) { f.Present? && Trim(f.content) == k }

  // ----- what every step keeps

  ghost predicate IsWriting(w: World, p: Process) { p in w.stages && w.stages[p].Writing? }

  ghost predicate Inv(w: World) {
    && (forall p | IsWriting(w, p) :: w.file == Present([]) && IsMinted(w.stages[p].minted))
    && (forall p, q | IsWriting(w, p) && IsWriting(w, q) :: p == q)
    && (forall p | p in w.stages && w.stages[p].Creating? :: IsMinted(w.stages[p].minted))
    && forall p, k | Accepts(w, p, k) :: FileHolds(w.file, k)
  }

  /** Nothing the generator writes, whole or cut short, is changed by trimming. */
  lemma MintedIsTrimmed(k: Key, n: nat)
    requires IsMinted(k) && n <= |k|
    ensures Trim(k[..n]) == k[..n]
  {
    var s := k[..n];
    if n > 0 {
      assert IsBase64(k[0]) && IsBase64(k[n - 1]);
      assert s[0] == k[0] && s[n - 1] == k[n - 1];
    }
  }

  lemma StepKeepsInv(w: World, e: Event)
    requires Inv(w) && (e.Read? ==> IsMinted(e.minted))
    ensures Inv(Next(w, e))
  {
    var v := Next(w, e);
    assert Trim([]) == [];
    forall p, k | Accepts(v, p, k) ensures FileHolds(v.file, k) {
      if e.Write? && IsWriting(w, e.p) && e.p == p && v != w {
        MintedIsTrimmed(w.stages[p].minted, 44);
        assert k[..44] == k;
      } else if Accepts(w, p, k) {
        assert FileHolds(w.file, k);
      }
    }
    forall p | IsWriting(v, p) ensures v.file == Present([]) && IsMinted(v.stages[p].minted) {
      if IsWriting(w, p) && e.Write? && IsWriting(w, e.p) { assert e.p == p; }
    }
    forall p, q | IsWriting(v, p) && IsWriting(v, q) ensures p == q {
      assert IsWriting(w, p) || w.file.Absent?;
      assert IsWriting(w, q) || w.file.Absent?;
    }
  }

  /** No step touches the file while a process writes it elsewhere, or once it holds a full key. */
  lemma StepKeepsKey(w: World, e: Event, k: Key)
    requires Inv(w) && FileHolds(w.file, k) && |k| >= MIN_KEY
    ensures Next(w, e).file == w.file
  {
    assert Trim([]) == [];
  }

  lemma {:induction false} RunKeepsInv(w: World, es: seq<Event>)
    requires Inv(w) && MintsKeys(es)
    ensures Inv(Exec(w, es))
    decreases |es|
  {
    if es != [] {
      RunKeepsInv(w, es[..|es| - 1]);
      StepKeepsInv(Exec(w, es[..|es| - 1]), es[|es| - 1]);
    }
  }

  lemma {:induction false} RunSplits(w: World, es: seq<Event>, more: seq<Event>)
    ensures Exec(w, es + more) == Exec(Exec(w, es), more)
    decreases |more|
  {
    if more == [] {
      assert es + more == es;
    } else {
      var front := more[..|more| - 1];
      RunSplits(w, es, front);
      assert (es + more)[..|es + more| - 1] == es + front;
    }
  }

  lemma {:induction false} RunKeepsKey(w: World, es: seq<Event>, p: Process, k: Key)
    requires Inv(w) && MintsKeys(es) && Accepts(w, p, k)
    ensures Exec(w, es).file == w.file && Accepts(Exec(w, es), p, k)
    decreases |es|
  {
    if es != [] {
      var front := es[..|es| - 1];
      RunKeepsKey(w, front, p, k);
      RunKeepsInv(w, front);
      StepKeepsKey(Exec(w, front), es[|es| - 1], k);
    }
  }

  ghost function Install(f: File): World { World(f, map[]) }

  /** Once a start holds an accepted key, the file holds that key and never changes again. */
  lemma KeyIsKept(f: File, es: seq<Event>, more: seq<Event>, p: Process, k: Key)
    requires MintsKeys(es + more) && Accepts(Exec(Install(f), es), p, k)
    ensures FileHolds(Exec(Install(f), es + more).file, k)
    ensures Exec(Install(f), es + more).file == Exec(Install(f), es).file
    ensures Accepts(Exec(Install(f), es + more), p, k)
  {
    assert MintsKeys(es) by { assert forall i | 0 <= i < |es| :: es[i] == (es + more)[i]; }
    assert MintsKeys(more) by { assert forall i | 0 <= i < |more| :: more[i] == (es + more)[|es| + i]; }
    RunSplits(Install(f), es, more);
    RunKeepsInv(Install(f), es);
    RunKeepsKey(Exec(Install(f), es), more, p, k);
  }

  /** All starts that pass the length check, at whatever moments of a run, hold one and the same key. */
  lemma KeysAgree(f: File, es: seq<Event>, more: seq<Event>, p: Process, k: Key, q: Process, j: Key)
    requires MintsKeys(es + more)
    requires Accepts(Exec(Install(f), es), p, k) && Accepts(Exec(Install(f), es + more), q, j)
    ensures k == j
  {
    KeyIsKept(f, es, more, p, k);
    RunKeepsInv(Install(f), es + more);
  }

  /** A key already in the file is the only one a start can come to hold. */
  lemma ExistingKeyWins(c: seq<byte>, es: seq<Event>, p: Process, k: Key)
    requires |Trim(c)| >= MIN_KEY && MintsKeys(es) && Accepts(Exec(Install(Present(c)), es), p, k)
    ensures k == Trim(c) && Exec(Install(Present(c)), es).file == Present(c)
  {
    FullFileStays(c, es);
    RunKeepsInv(Install(Present(c)), es);
  }

  lemma {:induction false} FullFileStays(c: seq<byte>, es: seq<Event>)
    requires |Trim(c)| >= MIN_KEY && MintsKeys(es)
    ensures Exec(Install(Present(c)), es).file == Present(c)
    decreases |es|
  {
    if es != [] {
      var front := es[..|es| - 1];
      FullFileStays(c, front);
      RunKeepsInv(Install(Present(c)), front);
      StepKeepsKey(Exec(Install(Present(c)), front), es[|es| - 1], Trim(c));
    }
  }

  // ----- a crash between create and write

  lemma StepKeepsCrash(w: World, e: Event, p: Process)
    requires Inv(w) && IsWriting(w, p) && !(e.Write? && e.p == p)
    ensures Next(w, e).file == Present([]) && IsWriting(Next(w, e), p)
  {
    assert e.p != p ==> !IsWriting(w, e.p);
  }

  lemma {:induction false} CrashedStays(w: World, es: seq<Event>, p: Process)
    requires Inv(w) && MintsKeys(es) && IsWriting(w, p)
    requires forall i | 0 <= i < |es| :: !(es[i].Write? && es[i].p == p)
    ensures Exec(w, es).file == Present([]) && IsWriting(Exec(w, es), p)
    decreases |es|
  {
    if es != [] {
      var front := es[..|es| - 1];
      CrashedStays(w, front, p);
      RunKeepsInv(w, front);
      StepKeepsCrash(Exec(w, front), es[|es| - 1], p);
    }
  }

  /** A start that created the file and never wrote it leaves every later start without an accepted key. */
  lemma CrashFailsClosed(f: File, es: seq<Event>, more: seq<Event>, p: Process, q: Process, k: Key)
    requires MintsKeys(es + more) && IsWriting(Exec(Install(f), es), p)
    requires forall i | 0 <= i < |more| :: !(more[i].Write? && more[i].p == p)
    ensures !Accepts(Exec(Install(f), es + more), q, k)
  {
    assert MintsKeys(es) by { assert forall i | 0 <= i < |es| :: es[i] == (es + more)[i]; }
    assert MintsKeys(more) by { assert forall i | 0 <= i < |more| :: more[i] == (es + more)[|es| + i]; }
    RunSplits(Install(f), es, more);
    RunKeepsInv(Install(f), es);
    CrashedStays(Exec(Install(f), es), more, p);
    RunKeepsInv(Install(f), es + more);
    assert Trim([]) == [];
  }

  /** The winner's completed write is accepted, and is what every start that reads afterwards accepts. */
  lemma WinnerIsRead(w: World, p: Process, q: Process, any: Key)
    requires Inv(w) && IsWriting(w, p) && q in w.stages && q != p
    requires w.stages[q].Reading? || w.stages[q].Rereading?
    ensures var k := w.stages[p].minted; var v := Next(w, Write(p, 44, true));
            && Accepts(v, p, k)
            && Accepts(Next(v, if w.stages[q].Reading? then Read(q, any) else Reread(q)), q, k)
  {
    var k := w.stages[p].minted;
    MintedIsTrimmed(k, 44);
    assert k[..44] == k;
  }

  // ----- the text that is read, and the source that wins

  lemma {:induction false} TrimLeftIs(s: seq<byte>) returns (n: nat)
    ensures n <= |s| && TrimLeft(s) == s[n..] && (forall i | 0 <= i < n :: IsSpace(s[i])) && (n < |s| ==> !IsSpace(s[n]))
  {
    if s != [] && IsSpace(s[0]) {
      var m := TrimLeftIs(s[1..]);
      n := m + 1;
      assert s[1..][m..] == s[n..];
      forall i | 0 <= i < n ensures IsSpace(s[i]) { if i > 0 { assert s[1..][i - 1] == s[i]; } }
    } else {
      n := 0;
    }
  }

  lemma {:induction false} TrimRightIs(s: seq<byte>) returns (n: nat)
    ensures n <= |s| && TrimRight(s) == s[..n] && (forall i | n <= i < |s| :: IsSpace(s[i])) && (n > 0 ==> !IsSpace(s[n - 1]))
  {
    if s != [] && IsSpace(s[|s| - 1]) {
      var front := s[..|s| - 1];
      n := TrimRightIs(front);
      assert front[..n] == s[..n];
      forall i | n <= i < |s| ensures IsSpace(s[i]) { if i < |s| - 1 { assert front[i] == s[i]; } }
    } else {
      n := |s|;
    }
  }

  /** What is read is the file without the white space at its two ends, and nothing else is taken off. */
  lemma TrimIs(s: seq<byte>) returns (lo: nat, hi: nat)
    ensures lo <= hi <= |s| && Trim(s) == s[lo..hi]
    ensures forall i | 0 <= i < |s| && !(lo <= i < hi) :: s[i] in [0x09, 0x0A, 0x0B, 0x0C, 0x0D, 0x20]
    ensures lo < hi ==> s[lo] !in [0x09, 0x0A, 0x0B, 0x0C, 0x0D, 0x20] && s[hi - 1] !in [0x09, 0x0A, 0x0B, 0x0C, 0x0D, 0x20]
  {
    lo := TrimLeftIs(s);
    var n := TrimRightIs(s[lo..]);
    hi := lo + n;
    assert s[lo..][..n] == s[lo..hi];
    forall i | hi <= i < |s| ensures IsSpace(s[i]) { assert s[lo..][i - lo] == s[i]; }
  }

  /** A start given a key by its environment holds that key and never looks at the file. */
  lemma {:induction false} EnvironmentWins(w: World, p: Process, env: Key, es: seq<Event>)
    requires p !in w.stages && env != []
    ensures Next(w, Launch(p, env)).file == w.file
    ensures var v := Exec(Next(w, Launch(p, env)), es); p in v.stages && v.stages[p] == Held(env, FromEnvironment)
    decreases |es|
  {
    if es != [] { EnvironmentWins(w, p, env, es[..|es| - 1]); }
  }

  /** A start alone without a file mints the key, keeps it in the file and holds it. */
  lemma FirstStartMints(p: Process, minted: Key)
    requires IsMinted(minted)
    ensures var w := Next(Next(Next(Next(Install(Absent), Launch(p, [])), Read(p, minted)), Create(p)), Write(p, 44, true));
            w.file == Present(minted) && Accepts(w, p, minted)
  {
    assert minted[..44] == minted;
  }
}
