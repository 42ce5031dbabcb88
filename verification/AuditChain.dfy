/**
 The tamper-evident chain (server/internal/audit/audit.go; the append is
 server/internal/storage/audit.go).

 The MAC is a function `mac` under the key. What makes it ideal is stated as
 hypotheses about the entries at hand, not about all byte strings: the recorder's
 own inputs do not collide, and a row whose hash verifies has an input the
 recorder sealed (nobody else can).
 */
module AuditChain {
  import opened Bytes
  import opened AuditFraming
  import opened Decimal
  import opened Sorting

  type Mac = seq<byte> -> seq<byte>

  datatype Entry = Entry(seqNo: int, fields: Fields, prevHash: seq<byte>, entryHash: seq<byte>)

  /** The predecessor of the first entry: 32 zero bytes. */
  function Genesis(): seq<byte> { seq(32, _ => 0) }

  /** Seal: seqNo is deliberately outside the MAC. */
  function Seal(mac: Mac, e: Entry): seq<byte> { mac(MacInput(e.prevHash, e.fields)) }

  ghost predicate Verifies(mac: Mac, e: Entry) { e.entryHash == Seal(mac, e) }

  /** Every entry matches its hash and each names the one before it. */
  ghost predicate Unbroken(mac: Mac, ordered: seq<Entry>) {
    && (forall i | 0 <= i < |ordered| :: Verifies(mac, ordered[i]))
    && forall i | 1 <= i < |ordered| :: ordered[i].prevHash == ordered[i - 1].entryHash
  }

  // ----- the checks of the source

  datatype Break = Break(seqNo: int, id: seq<byte>)

  /** bySeq: chain order, whatever order the entries arrive in. */
  function BySeq(entries: seq<Entry>): seq<Entry> { SortBy(entries, ChainOrder()) }

  function ChainOrder(): Entry -> (int, int) { (e: Entry) => (e.seqNo, 0) }

  /** verifyEach: the first entry that no longer matches its recorded hash. */
  method VerifyEach(mac: Mac, ordered: seq<Entry>) returns (broken: Option<Break>)
    ensures broken.None? <==> forall i | 0 <= i < |ordered| :: Verifies(mac, ordered[i])
    ensures broken.Some? ==>
              exists i | 0 <= i < |ordered| ::
                && broken.value == Break(ordered[i].seqNo, ordered[i].fields.id) && !Verifies(mac, ordered[i])
                && forall j | 0 <= j < i :: Verifies(mac, ordered[j])
  {
    hide MacInput;
    for i := 0 to |ordered|
      invariant forall j | 0 <= j < i :: Verifies(mac, ordered[j])
    {
      if ordered[i].entryHash != Seal(mac, ordered[i]) {
        assert !Verifies(mac, ordered[i]);
        return Some(Break(ordered[i].seqNo, ordered[i].fields.id));
      }
    }
    return None;
  }

  /** Verify: a filtered page, where gaps are the filter doing its job. */
  method Verify(mac: Mac, entries: seq<Entry>) returns (broken: Option<Break>)
    ensures broken.None? <==> forall i | 0 <= i < |BySeq(entries)| :: Verifies(mac, BySeq(entries)[i])
  {
    broken := VerifyEach(mac, BySeq(entries));
  }

  /** Where verification stops: the first unsealed entry, or else the first that does not follow its predecessor. */
  ghost predicate BreaksAt(mac: Mac, ordered: seq<Entry>, i: nat) {
    && i < |ordered|
    && if Verifies(mac, ordered[i]) then
         && (forall j | 0 <= j < |ordered| :: Verifies(mac, ordered[j]))
         && i > 0 && ordered[i].prevHash != ordered[i - 1].entryHash
         && forall j | 1 <= j < i :: ordered[j].prevHash == ordered[j - 1].entryHash
       else forall j | 0 <= j < i :: Verifies(mac, ordered[j])
  }

  /** VerifyRange: Verify over a contiguous run, plus the linkage between neighbours. */
  method VerifyRange(mac: Mac, entries: seq<Entry>) returns (broken: Option<Break>)
    ensures broken.None? <==> Unbroken(mac, BySeq(entries))
    ensures broken.Some? ==>
              exists i | 0 <= i < |entries| ::
                BreaksAt(mac, BySeq(entries), i) && broken.value == Break(BySeq(entries)[i].seqNo, BySeq(entries)[i].fields.id)
  {
    hide MacInput;
    hide SortBy;
    var ordered := BySeq(entries);
    broken := VerifyEach(mac, ordered);
    if broken.Some? {
      return;
    }
    var i := 1;
    while i < |ordered|
      invariant 1 <= i && (i <= |ordered| || ordered == [])
      invariant forall j | 1 <= j < i && j < |ordered| :: ordered[j].prevHash == ordered[j - 1].entryHash
    {
      if ordered[i].prevHash != ordered[i - 1].entryHash {
        assert Verifies(mac, ordered[i]) && BreaksAt(mac, ordered, i);
        return Some(Break(ordered[i].seqNo, ordered[i].fields.id));
      }
      i := i + 1;
    }
    return None;
  }

  // ----- the honest log

  /** What the columns enforce on any stored row, tampered with or not. */
  ghost predicate Stored(e: Entry) { |e.prevHash| == 32 && |e.entryHash| == 32 && WellFormed(e.fields) }

  /** The log as the recorder appended it. */
  ghost predicate Honest(mac: Mac, log: seq<Entry>) {
    && Unbroken(mac, log)
    && (forall i | 0 <= i < |log| :: Stored(log[i]) && log[i].entryHash != Genesis())
    && (log != [] ==> log[0].prevHash == Genesis())
    && (forall i | 1 <= i < |log| :: log[i - 1].seqNo < log[i].seqNo && log[i - 1].fields.micros <= log[i].fields.micros)
  }

  /** AppendAuditEntry: link to the tail, never stamp a time before it, seal, take the next sequence number. */
  function Append(mac: Mac, log: seq<Entry>, recorded: Fields, now: int, seqNo: int): seq<Entry> {
    var prev := if log == [] then Genesis() else log[|log| - 1].entryHash;
    var micros := if log != [] && now <= log[|log| - 1].fields.micros then log[|log| - 1].fields.micros else now;
    var fields := recorded.(micros := micros);
    log + [Entry(seqNo, fields, prev, mac(MacInput(prev, fields)))]
  }

  /**
   An append leaves the log as it was and adds one entry: the fields as recorded,
   stamped now or, when the clock has fallen back, with the last entry's time, and
   naming the last entry's hash or 32 zero bytes.
   */
  lemma AppendRecords(mac: Mac, log: seq<Entry>, recorded: Fields, now: int, seqNo: int)
    ensures var longer := Append(mac, log, recorded, now, seqNo);
            && |longer| == |log| + 1 && longer[..|log|] == log
            && var e := longer[|log|];
               && e.seqNo == seqNo && Verifies(mac, e)
               && e.fields.id == recorded.id && e.fields.action == recorded.action && e.fields.actor == recorded.actor
               && e.fields.target == recorded.target && e.fields.targetLabel == recorded.targetLabel
               && e.fields.detail == recorded.detail && e.fields.ip == recorded.ip
               && e.fields.micros >= now && (e.fields.micros > now ==> log != [])
               && (log == [] ==> |e.prevHash| == 32 && forall i | 0 <= i < 32 :: e.prevHash[i] == 0)
               && (log != [] ==>
                     && e.prevHash == log[|log| - 1].entryHash
                     && e.fields.micros >= log[|log| - 1].fields.micros
                     && (e.fields.micros == now || e.fields.micros == log[|log| - 1].fields.micros))
  {
    hide MacInput;
  }

  /** Every append of well-formed fields keeps the log honest, with its clock moving only forward. */
  lemma AppendKeepsHonest(mac: Mac, log: seq<Entry>, recorded: Fields, now: int, seqNo: int)
    requires Honest(mac, log)
    requires log != [] ==> log[|log| - 1].seqNo < seqNo
    requires var e := Append(mac, log, recorded, now, seqNo)[|log|];
             WellFormed(e.fields) && |e.entryHash| == 32 && e.entryHash != Genesis()
    ensures Honest(mac, Append(mac, log, recorded, now, seqNo))
  {
    hide WellFormed;
    hide MacInput;
    var longer := Append(mac, log, recorded, now, seqNo);
    assert forall i | 0 <= i < |log| :: longer[i] == log[i] && Verifies(mac, log[i]);
  }

  ghost predicate CollisionFree(mac: Mac, log: seq<Entry>) {
    forall i, j | 0 <= i < |log| && 0 <= j < |log| && log[i].entryHash == log[j].entryHash ::
      MacInput(log[i].prevHash, log[i].fields) == MacInput(log[j].prevHash, log[j].fields)
  }

  /** What is assumed of the MAC can be met, also by a log with an entry that has a predecessor. */
  lemma AssumptionsCanBeMet() returns (mac: Mac, log: seq<Entry>)
    ensures |log| == 2 && Honest(mac, log) && CollisionFree(mac, log)
    ensures forall e | e in log :: Verifies(mac, e) && SealedBy(log, e)
  {
    hide MacInput;
    hide WellFormed;
    var id := seq(36, i => if i in {8, 13, 18, 23} then DASH else 0x30);
    var fields := Fields(id, [], None, None, None, None, None, 0);
    ZeroFieldsFit(fields);
    mac := s => seq(32, _ => if s != [] && s[0] == 0 then 1 else 2);
    var ones, twos: seq<byte> := seq(32, _ => 1), seq(32, _ => 2);
    StartsWithHash(Genesis(), fields);
    StartsWithHash(ones, fields);
    var first, second := Entry(1, fields, Genesis(), ones), Entry(2, fields, ones, twos);
    assert Seal(mac, first) == ones && Seal(mac, second) == twos;
    log := [first, second];
    assert ones[0] != twos[0] && ones[0] != Genesis()[0] && twos[0] != Genesis()[0];
    assert SealedBy(log, log[0]) && SealedBy(log, log[1]);
  }

  lemma StartsWithHash(h: seq<byte>, f: Fields)
    requires h != []
    ensures MacInput(h, f) != [] && MacInput(h, f)[0] == h[0]
  {
  }

  lemma ZeroFieldsFit(f: Fields)
    requires IsUuidText(f.id) && f == Fields(f.id, [], None, None, None, None, None, 0)
    ensures WellFormed(f)
  {
    assert FormatInt(0) == [0x30];
  }

  /** Only the recorder can seal: a verifying row's input is one of the log's. */
  ghost predicate Unforged(mac: Mac, log: seq<Entry>, rows: seq<Entry>) {
    forall i | 0 <= i < |rows| && Verifies(mac, rows[i]) :: SealedBy(log, rows[i])
  }

  ghost predicate SealedBy(log: seq<Entry>, e: Entry) {
    exists k | 0 <= k < |log| :: MacInput(e.prevHash, e.fields) == MacInput(log[k].prevHash, log[k].fields)
  }

  /** The same entry but for its sequence number, which nothing seals. */
  predicate SameEntry(d: Entry, e: Entry) {
    d.fields == e.fields && d.prevHash == e.prevHash && d.entryHash == e.entryHash
  }

  ghost predicate IsSlice(rows: seq<Entry>, log: seq<Entry>, at: nat) {
    at + |rows| <= |log| && forall i | 0 <= i < |rows| :: SameEntry(rows[i], log[at + i])
  }

  /** No two entries of the honest log carry the same hash. */
  lemma {:induction false} HashesDistinct(mac: Mac, log: seq<Entry>, i: nat, j: nat)
    requires Honest(mac, log) && CollisionFree(mac, log) && i < j < |log|
    ensures log[i].entryHash != log[j].entryHash
    decreases i
  {
    hide WellFormed;
    hide MacInput;
    assert log[j].prevHash == log[j - 1].entryHash && log[j - 1].entryHash != Genesis();
    assert i > 0 ==> log[i].prevHash == log[i - 1].entryHash;
    if log[i].entryHash == log[j].entryHash {
      assert Stored(log[i]) && Stored(log[j]);
      MacInputInjective(log[i].prevHash, log[i].fields, log[j].prevHash, log[j].fields);
      if i > 0 { HashesDistinct(mac, log, i - 1, j - 1); }
    }
  }

  /** A verifying stored row is one of the log's entries. */
  lemma RowIsEntry(mac: Mac, log: seq<Entry>, rows: seq<Entry>, i: nat) returns (k: nat)
    requires Honest(mac, log) && Unforged(mac, log, rows) && i < |rows| && Stored(rows[i]) && Verifies(mac, rows[i])
    ensures k < |log| && SameEntry(rows[i], log[k])
  {
    hide WellFormed;
    hide MacInput;
    assert SealedBy(log, rows[i]);
    k :| 0 <= k < |log| && MacInput(rows[i].prevHash, rows[i].fields) == MacInput(log[k].prevHash, log[k].fields);
    assert Stored(log[k]) && Verifies(mac, log[k]);
    MacInputInjective(rows[i].prevHash, rows[i].fields, log[k].prevHash, log[k].fields);
  }

  /** Only the next entry of the log names an entry's hash. */
  lemma OnlySuccessor(mac: Mac, log: seq<Entry>, i: nat, k: nat)
    requires Honest(mac, log) && CollisionFree(mac, log) && i < |log| && k < |log|
    requires log[k].prevHash == log[i].entryHash
    ensures k == i + 1
  {
    hide WellFormed;
    hide MacInput;
    assert Stored(log[i]) && log[i].entryHash != Genesis();
    assert k > 0 && log[k].prevHash == log[k - 1].entryHash;
    if k - 1 < i { HashesDistinct(mac, log, k - 1, i); }
    if i < k - 1 { HashesDistinct(mac, log, i, k - 1); }
  }

  lemma UnbrokenAt(mac: Mac, rows: seq<Entry>, i: nat)
    requires Unbroken(mac, rows) && i < |rows|
    ensures Verifies(mac, rows[i]) && (i > 0 ==> rows[i].prevHash == rows[i - 1].entryHash)
  {
  }

  lemma {:induction false} UnbrokenIsSlice(mac: Mac, log: seq<Entry>, rows: seq<Entry>, n: nat) returns (at: nat)
    requires Honest(mac, log) && CollisionFree(mac, log) && Unforged(mac, log, rows)
    requires (forall i | 0 <= i < |rows| :: Stored(rows[i])) && Unbroken(mac, rows) && 1 <= n <= |rows|
    ensures IsSlice(rows[..n], log, at)
  {
    hide Honest;
    hide CollisionFree;
    hide Unforged;
    hide Unbroken;
    hide Verifies;
    hide Stored;
    UnbrokenAt(mac, rows, n - 1);
    var k := RowIsEntry(mac, log, rows, n - 1);
    if n == 1 {
      at := k;
    } else {
      at := UnbrokenIsSlice(mac, log, rows, n - 1);
      assert SameEntry(rows[..n - 1][n - 2], log[at + (n - 2)]);
      assert rows[n - 1].prevHash == rows[n - 2].entryHash == log[at + n - 2].entryHash;
      OnlySuccessor(mac, log, at + n - 2, k);
      assert forall i | 0 <= i < n - 1 :: rows[..n][i] == rows[..n - 1][i];
    }
  }

  /**
   What VerifyRange decides, for every set of stored rows with distinct sequence
   numbers and in whatever order they are handed over: it accepts exactly when
   the rows, in chain order, are a contiguous slice of the honest log.
   */
  lemma VerifyRangeIsSlice(mac: Mac, log: seq<Entry>, entries: seq<Entry>)
    requires Honest(mac, log) && CollisionFree(mac, log)
    requires DistinctKeys(entries, ChainOrder())
    requires forall e | e in entries :: Stored(e)
    requires forall e | e in entries && Verifies(mac, e) :: SealedBy(log, e)
    ensures Unbroken(mac, BySeq(entries)) <==> exists at: nat :: IsSlice(BySeq(entries), log, at)
  {
    hide WellFormed;
    hide MacInput;
    hide SortBy;
    var rows := BySeq(entries);
    SortFacts(entries, ChainOrder());
    forall i | 0 <= i < |rows| ensures rows[i] in entries { assert rows[i] in rows; }
    if Unbroken(mac, rows) {
      if rows == [] {
        assert IsSlice(rows, log, 0);
      } else {
        var at := UnbrokenIsSlice(mac, log, rows, |rows|);
        assert rows[..|rows|] == rows;
      }
    } else if at: nat :| IsSlice(rows, log, at) {
      SliceIsUnbroken(mac, log, rows, at);
    }
  }

  lemma SliceIsUnbroken(mac: Mac, log: seq<Entry>, rows: seq<Entry>, at: nat)
    requires Honest(mac, log) && IsSlice(rows, log, at)
    ensures Unbroken(mac, rows)
  {
    hide MacInput;
    hide WellFormed;
    forall i | 0 <= i < |rows| ensures Verifies(mac, rows[i]) { assert Verifies(mac, log[at + i]); }
    forall i | 1 <= i < |rows| ensures rows[i].prevHash == rows[i - 1].entryHash {
      assert log[at + i].prevHash == log[at + i - 1].entryHash;
      assert SameEntry(rows[i - 1], log[at + (i - 1)]);
    }
  }

  /** Taking any inner entry out of an honest slice is caught, at the entry that followed it. */
  lemma InnerDeletionIsCaught(mac: Mac, log: seq<Entry>, from: nat, gone: nat, to: nat)
    requires Honest(mac, log) && CollisionFree(mac, log)
    requires from < gone < to - 1 && to <= |log|
    ensures BreaksAt(mac, log[from..gone] + log[gone + 1..to], gone - from)
  {
    hide MacInput;
    hide WellFormed;
    var rows := log[from..gone] + log[gone + 1..to];
    var i := gone - from;
    assert rows[i] == log[gone + 1] && rows[i - 1] == log[gone - 1];
    assert log[gone + 1].prevHash == log[gone].entryHash;
    HashesDistinct(mac, log, gone - 1, gone);
    forall j | 0 <= j < |rows| ensures Verifies(mac, rows[j]) {
      assert rows[j] == if j < i then log[from + j] else log[from + j + 1];
    }
    forall j | 1 <= j < i ensures rows[j].prevHash == rows[j - 1].entryHash {
      assert rows[j] == log[from + j] && rows[j - 1] == log[from + j - 1];
    }
  }
}
