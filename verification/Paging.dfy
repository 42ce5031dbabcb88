/**
 Keyset paging (server/internal/httpserver/channel_handlers.go and
 audit_handlers.go): each page asks for one row more than it shows, and its
 cursor is the key of the last row shown.
 */
module Paging {
  import opened Bytes

  /** Rows in listing order: strictly increasing keys under `lt`. */
  ghost predicate Listing<T, K>(rows: seq<T>, key: T -> K, lt: (K, K) -> bool) {
    forall i, j | 0 <= i < j < |rows| :: lt(key(rows[i]), key(rows[j])) && !lt(key(rows[j]), key(rows[i]))
  }

  ghost predicate Irreflexive<K(!new)>(lt: (K, K) -> bool) { forall k :: !lt(k, k) }

  /** The store's `WHERE key > cursor ORDER BY key` over a listing. */
  function After<T, K>(rows: seq<T>, key: T -> K, lt: (K, K) -> bool, cursor: Option<K>): seq<T> {
    if rows == [] then []
    else
      (if cursor.None? || lt(cursor.value, key(rows[0])) then [rows[0]] else [])
      + After(rows[1..], key, lt, cursor)
  }

  function Take<T>(s: seq<T>, n: nat): seq<T> { if n <= |s| then s[..n] else s }

  datatype Page<T, K> = Page(shown: seq<T>, next: Option<K>)

  /** One handler call: fetch limit + 1 rows, show at most limit, and point past the last one shown. */
  function ReadPage<T, K>(rows: seq<T>, key: T -> K, lt: (K, K) -> bool, cursor: Option<K>, limit: nat): Page<T, K>
    requires limit >= 1
  {
    var fetched := Take(After(rows, key, lt, cursor), limit + 1);
    if |fetched| > limit then Page(fetched[..limit], Some(key(fetched[limit - 1]))) else Page(fetched, None)
  }

  lemma {:induction false} AfterNothing<T, K>(rows: seq<T>, key: T -> K, lt: (K, K) -> bool)
    ensures After(rows, key, lt, None) == rows
  {
    if rows != [] { AfterNothing(rows[1..], key, lt); }
  }

  lemma {:induction false} AfterAll<T, K>(rows: seq<T>, key: T -> K, lt: (K, K) -> bool, k: K)
    requires forall i | 0 <= i < |rows| :: lt(k, key(rows[i]))
    ensures After(rows, key, lt, Some(k)) == rows
  {
    if rows != [] { AfterAll(rows[1..], key, lt, k); }
  }

  /** After the key of row n come exactly the rows past n. */
  lemma {:induction false} AfterKey<T, K(!new)>(rows: seq<T>, key: T -> K, lt: (K, K) -> bool, n: nat)
    requires Listing(rows, key, lt) && Irreflexive(lt) && n < |rows|
    ensures After(rows, key, lt, Some(key(rows[n]))) == rows[n + 1..]
  {
    var k := key(rows[n]);
    if n == 0 {
      AfterAll(rows[1..], key, lt, k);
    } else {
      assert !lt(k, key(rows[0]));
      AfterKey(rows[1..], key, lt, n - 1);
      assert rows[1..][n..] == rows[n + 1..];
    }
  }

  /** The cursor positions a walk passes through: the start, or the key of some row. */
  ghost predicate At<T, K>(rows: seq<T>, key: T -> K, cursor: Option<K>, n: nat) {
    n <= |rows| && if n == 0 then cursor == None else cursor == Some(key(rows[n - 1]))
  }

  lemma PageAt<T, K(!new)>(rows: seq<T>, key: T -> K, lt: (K, K) -> bool, cursor: Option<K>, limit: nat, n: nat)
    requires Listing(rows, key, lt) && Irreflexive(lt) && limit >= 1 && At(rows, key, cursor, n)
    ensures var p := ReadPage(rows, key, lt, cursor, limit);
            if n + limit < |rows| then p.shown == rows[n..n + limit] && At(rows, key, p.next, n + limit)
            else p.shown == rows[n..] && p.next == None
  {
    hide After;
    var rest := rows[n..];
    if n == 0 { AfterNothing(rows, key, lt); } else { AfterKey(rows, key, lt, n - 1); }
    assert n == 0 ==> rest == rows;
    assert After(rows, key, lt, cursor) == rest;
    if n + limit < |rows| {
      assert rest[..limit + 1][..limit] == rows[n..n + limit];
      assert rest[..limit + 1][limit - 1] == rows[n + limit - 1];
    }
  }

  // ----- cursor text: "<key>|<id>"

  const SEPARATOR := '|'

  function RawCursor(key: string, id: string): string { key + [SEPARATOR] + id }

  /** strings.Cut at the first separator. */
  function Cut(s: string): Option<(string, string)> {
    if s == [] then None
    else if s[0] == SEPARATOR then Some(("", s[1..]))
    else match Cut(s[1..])
         case None => None
         case Some((a, b)) => Some(([s[0]] + a, b))
  }

  lemma {:induction false} CutAtFirst(key: string, id: string)
    requires SEPARATOR !in key
    ensures Cut(RawCursor(key, id)) == Some((key, id))
  {
    var s := RawCursor(key, id);
    if key == [] {
      assert s[1..] == id;
    } else {
      assert s[1..] == RawCursor(key[1..], id);
      CutAtFirst(key[1..], id);
      assert [s[0]] + key[1..] == key;
    }
  }

  lemma {:induction false} CutHasNoSeparator(s: string)
    ensures Cut(s).Some? ==> SEPARATOR !in Cut(s).value.0
  {
    if s != [] { CutHasNoSeparator(s[1..]); }
  }

  /** A cursor decodes to what it encoded exactly when its key carries no separator. */
  lemma CursorRoundTrip(key: string, id: string)
    ensures Cut(RawCursor(key, id)) == Some((key, id)) <==> SEPARATOR !in key
  {
    if SEPARATOR !in key { CutAtFirst(key, id); }
    CutHasNoSeparator(RawCursor(key, id));
  }

  // ----- following next_cursor

  /** The text of a position: encodeCursor before its base64. */
  function Encode(cursor: Option<(string, string)>): Option<string> {
    if cursor.None? then None else Some(RawCursor(cursor.value.0, cursor.value.1))
  }

  /** decodeCursor of the text a request carries; an absent text is the start. */
  function Decode(text: Option<string>): Option<(string, string)> { if text.None? then None else Cut(text.value) }

  ghost predicate SeparatorFree<T>(rows: seq<T>, key: T -> (string, string)) {
    forall i | 0 <= i < |rows| :: SEPARATOR !in key(rows[i]).0
  }

  /** A cursor text at a position decodes to the key of the row before it. */
  lemma TextAt<T>(rows: seq<T>, key: T -> (string, string), cursor: Option<(string, string)>, n: nat)
    requires SeparatorFree(rows, key) && At(rows, key, cursor, n)
    ensures Decode(Encode(cursor)) == cursor
  {
    hide Cut;
    if n > 0 {
      assert SEPARATOR !in key(rows[n - 1]).0;
      CutAtFirst(cursor.value.0, cursor.value.1);
    }
  }

  /**
   A client following next_cursor: each request carries the text the page before
   it returned, and the handler decodes it.
   */
  ghost function Walk<T>(
      rows: seq<T>, key: T -> (string, string), lt: ((string, string), (string, string)) -> bool,
      cursor: Option<(string, string)>, limit: nat, n: nat): seq<T>
    requires Listing(rows, key, lt) && Irreflexive(lt) && SeparatorFree(rows, key) && limit >= 1 && At(rows, key, cursor, n)
    decreases |rows| - n
  {
    var p := ReadPage(rows, key, lt, Decode(Encode(cursor)), limit);
    TextAt(rows, key, cursor, n);
    PageAt(rows, key, lt, cursor, limit, n);
    if p.next.None? then p.shown else p.shown + Walk(rows, key, lt, p.next, limit, n + limit)
  }

  /** For every page limit, following the encoded next_cursor to the end shows every row exactly once, in order. */
  lemma {:induction false} WalkIsListing<T>(
      rows: seq<T>, key: T -> (string, string), lt: ((string, string), (string, string)) -> bool,
      cursor: Option<(string, string)>, limit: nat, n: nat)
    requires Listing(rows, key, lt) && Irreflexive(lt) && SeparatorFree(rows, key) && limit >= 1 && At(rows, key, cursor, n)
    ensures Walk(rows, key, lt, cursor, limit, n) == rows[n..]
    decreases |rows| - n
  {
    hide ReadPage;
    hide Encode;
    hide Decode;
    TextAt(rows, key, cursor, n);
    PageAt(rows, key, lt, cursor, limit, n);
    if n + limit < |rows| {
      var p := ReadPage(rows, key, lt, cursor, limit);
      WalkIsListing(rows, key, lt, p.next, limit, n + limit);
      assert rows[n..] == rows[n..n + limit] + rows[n + limit..];
    }
  }
}
