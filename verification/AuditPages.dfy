/**
 Reading the audit log page by page, newest first
 (server/internal/httpserver/audit_handlers.go, ListAuditEntries and
 verifyAudit): an unfiltered page verifies the row past its end as well, so
 consecutive pages overlap by one.
 */
module AuditPages {
  import opened Bytes
  import opened Sorting
  import opened AuditFraming
  import opened AuditChain
  import opened Paging

  /** (occurred_at, seq), the read's order and cursor. */
  function Position(): Entry -> (int, int) { (e: Entry) => (e.fields.micros, e.seqNo) }

  /** Newest first: a page continues with strictly older positions. */
  function Newer(): ((int, int), (int, int)) -> bool { (a: (int, int), b: (int, int)) => Before(b, a) }

  /** The table newest first, with display order agreeing with chain order. */
  ghost predicate Displayed(rows: seq<Entry>) {
    && Listing(rows, Position(), Newer())
    && forall i, j | 0 <= i < j < |rows| :: rows[j].seqNo < rows[i].seqNo
  }

  /** An honest log read backwards is such a table: its clock never moves back. */
  lemma {:induction false} LogIsDisplayed(mac: Mac, log: seq<Entry>)
    requires Honest(mac, log)
    ensures Displayed(Backwards(log))
  {
    hide Honest;
    hide Backwards;
    var rows := Backwards(log);
    forall i, j | 0 <= i < j < |rows|
      ensures rows[j].seqNo < rows[i].seqNo && Before(Position()(rows[j]), Position()(rows[i]))
    {
      Monotone(mac, log, |log| - 1 - j, |log| - 1 - i);
    }
  }

  lemma {:induction false} Monotone(mac: Mac, log: seq<Entry>, i: nat, j: nat)
    requires Honest(mac, log) && i < j < |log|
    ensures log[i].seqNo < log[j].seqNo && log[i].fields.micros <= log[j].fields.micros
    decreases j
  {
    hide WellFormed;
    hide MacInput;
    assert log[j - 1].seqNo < log[j].seqNo && log[j - 1].fields.micros <= log[j].fields.micros;
    if i < j - 1 { Monotone(mac, log, i, j - 1); }
  }

  function Backwards<T>(s: seq<T>): (r: seq<T>)
    ensures |r| == |s| && forall i | 0 <= i < |s| :: r[i] == s[|s| - 1 - i]
  {
    seq(|s|, i requires 0 <= i < |s| => s[|s| - 1 - i])
  }

  /** chain_valid of one unfiltered page: VerifyRange over the limit + 1 rows fetched. */
  ghost predicate ChainValid(mac: Mac, rows: seq<Entry>, cursor: Option<(int, int)>, limit: nat) {
    Unbroken(mac, BySeq(Take(After(rows, Position(), Newer(), cursor), limit + 1)))
  }

  /** Chain order of a run of the display is the run backwards. */
  lemma RunInChainOrder(run: seq<Entry>)
    requires forall i, j | 0 <= i < j < |run| :: run[j].seqNo < run[i].seqNo
    ensures BySeq(run) == Backwards(run)
  {
    hide SortBy;
    var key, back := ChainOrder(), Backwards(run);
    SortFacts(run, key);
    forall x ensures x in back <==> x in run {
      if x in run { var i :| 0 <= i < |run| && run[i] == x; assert back[|run| - 1 - i] == x; }
    }
    SortedUnique(SortBy(run, key), back, key);
  }

  /** A run, newest first, is unbroken when each row verifies and names the next. */
  lemma UnbrokenBackwards(mac: Mac, run: seq<Entry>)
    ensures Unbroken(mac, Backwards(run)) <==>
            && (forall i | 0 <= i < |run| :: Verifies(mac, run[i]))
            && forall i | 0 <= i < |run| - 1 :: run[i].prevHash == run[i + 1].entryHash
  {
    hide Verifies;
    var back := Backwards(run);
    if Unbroken(mac, back) {
      forall i | 0 <= i < |run| ensures Verifies(mac, run[i]) { assert Verifies(mac, back[|run| - 1 - i]); }
      forall i | 0 <= i < |run| - 1 ensures run[i].prevHash == run[i + 1].entryHash {
        assert back[|run| - 1 - i].prevHash == back[|run| - 1 - i - 1].entryHash;
      }
    } else if (forall i | 0 <= i < |run| :: Verifies(mac, run[i])) && forall i | 0 <= i < |run| - 1 :: run[i].prevHash == run[i + 1].entryHash {
      forall i | 1 <= i < |back| ensures back[i].prevHash == back[i - 1].entryHash {
        assert run[|run| - 1 - i].prevHash == run[|run| - 1 - i + 1].entryHash;
      }
    }
  }

  /** Every page of the walk from position n on reports chain_valid. */
  ghost predicate AllPagesValid(mac: Mac, rows: seq<Entry>, cursor: Option<(int, int)>, limit: nat, n: nat)
    requires Displayed(rows) && limit >= 1 && At(rows, Position(), cursor, n)
    decreases |rows| - n
  {
    var p := ReadPage(rows, Position(), Newer(), cursor, limit);
    PageAt(rows, Position(), Newer(), cursor, limit, n);
    ChainValid(mac, rows, cursor, limit)
    && (p.next.Some? ==> AllPagesValid(mac, rows, p.next, limit, n + limit))
  }

  /** Two runs that share one row are unbroken exactly when their union is. */
  lemma Overlap(mac: Mac, rows: seq<Entry>, n: nat, m: nat)
    requires n <= m < |rows|
    ensures Unbroken(mac, Backwards(rows[n..])) <==>
            Unbroken(mac, Backwards(rows[n..m + 1])) && Unbroken(mac, Backwards(rows[m..]))
  {
    hide Verifies;
    hide Unbroken;
    UnbrokenBackwards(mac, rows[n..]);
    UnbrokenBackwards(mac, rows[n..m + 1]);
    UnbrokenBackwards(mac, rows[m..]);
    Runs(mac, rows, n, |rows|);
    Runs(mac, rows, n, m + 1);
    Runs(mac, rows, m, |rows|);
  }

  /** A run's two conditions, stated on the table's own positions. */
  ghost predicate Chained(mac: Mac, rows: seq<Entry>, lo: nat, hi: nat) {
    && hi <= |rows|
    && (forall i | lo <= i < hi :: Verifies(mac, rows[i]))
    && forall i | lo <= i < hi - 1 :: rows[i].prevHash == rows[i + 1].entryHash
  }

  lemma Runs(mac: Mac, rows: seq<Entry>, lo: nat, hi: nat)
    requires lo <= hi <= |rows|
    ensures Unbroken(mac, Backwards(rows[lo..hi])) <==> Chained(mac, rows, lo, hi)
  {
    hide Verifies;
    hide Unbroken;
    var run := rows[lo..hi];
    UnbrokenBackwards(mac, run);
    assert forall i | lo <= i < hi :: run[i - lo] == rows[i];
    if Unbroken(mac, Backwards(run)) {
      forall i | lo <= i < hi - 1 ensures rows[i].prevHash == rows[i + 1].entryHash {
        assert run[i - lo].prevHash == run[i - lo + 1].entryHash;
      }
    }
  }

  /**
   Page composition, over every table whose display order agrees with its chain
   order and for every page limit: all pages of an unfiltered walk report
   chain_valid exactly when the whole walked table is one unbroken chain.
   */
  lemma {:induction false} PagesCompose(mac: Mac, rows: seq<Entry>, cursor: Option<(int, int)>, limit: nat, n: nat)
    requires Displayed(rows) && limit >= 1 && At(rows, Position(), cursor, n)
    ensures AllPagesValid(mac, rows, cursor, limit, n) <==> Unbroken(mac, BySeq(rows[n..]))
    decreases |rows| - n
  {
    hide Unbroken;
    hide BySeq;
    hide ReadPage;
    hide After;
    hide Displayed;
    hide Take;
    var p := ReadPage(rows, Position(), Newer(), cursor, limit);
    DisplayedPage(rows, cursor, limit, n);
    RunOf(rows, n, |rows|);
    assert rows[n..|rows|] == rows[n..];
    FetchedRun(rows, cursor, limit, n);
    if n + limit < |rows| {
      RunOf(rows, n, n + limit + 1);
      RunOf(rows, n + limit, |rows|);
      assert rows[n + limit..|rows|] == rows[n + limit..];
      Overlap(mac, rows, n, n + limit);
      PagesCompose(mac, rows, p.next, limit, n + limit);
    }
  }

  lemma RunOf(rows: seq<Entry>, lo: nat, hi: nat)
    requires Displayed(rows) && lo <= hi <= |rows|
    ensures BySeq(rows[lo..hi]) == Backwards(rows[lo..hi])
  {
    RunInChainOrder(rows[lo..hi]);
  }

  lemma DisplayedPage(rows: seq<Entry>, cursor: Option<(int, int)>, limit: nat, n: nat)
    requires Displayed(rows) && limit >= 1 && At(rows, Position(), cursor, n)
    ensures var p := ReadPage(rows, Position(), Newer(), cursor, limit);
            if n + limit < |rows| then p.next.Some? && At(rows, Position(), p.next, n + limit) else p.next == None
  {
    PageAt(rows, Position(), Newer(), cursor, limit, n);
  }

  lemma FetchedRun(rows: seq<Entry>, cursor: Option<(int, int)>, limit: nat, n: nat)
    requires Displayed(rows) && limit >= 1 && At(rows, Position(), cursor, n)
    ensures Take(After(rows, Position(), Newer(), cursor), limit + 1) ==
            if n + limit < |rows| then rows[n..n + limit + 1] else rows[n..]
  {
    if n == 0 { AfterNothing(rows, Position(), Newer()); } else { AfterKey(rows, Position(), Newer(), n - 1); }
    assert After(rows, Position(), Newer(), cursor) == rows[n..];
  }
}
