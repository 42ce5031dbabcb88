/**
 Signed file URLs (server/internal/filesign/filesign.go). The MAC under the
 instance's key is a parameter; what is assumed of it is stated where it is
 used, on the inputs it is used for. Times are Unix nanoseconds.
 */
module FileSign {
  import opened Bytes
  import opened Decimal
  import opened AuditFraming

  datatype Variant = Original | Thumbnail

  const NEWLINE: byte := 0x0A
  const SECOND: int := 1_000_000_000
  const TTL: int := 3600 * SECOND

  const MAX_INT64: int := 0x7FFF_FFFF_FFFF_FFFF

  type Uuid = s: seq<byte> | IsUuidText(s) ghost witness Nil()

  ghost function Nil(): seq<byte> { seq(36, i => if i in {8, 13, 18, 23} then DASH else 0x30) }

  /** What a URL grants: one variant of one file until a second. */
  datatype Grant = Grant(id: Uuid, variant: Variant, expires: int)

  function VariantName(v: Variant): seq<byte> {
    if v == Original then [] else [0x2E, 0x74, 0x68, 0x75, 0x6D, 0x62]
  }

  /** The three fields joined by newlines. */
  function MacInput(g: Grant): seq<byte> {
    g.id + [NEWLINE] + VariantName(g.variant) + [NEWLINE] + FormatInt(g.expires)
  }

  /** No two grants are signed over the same bytes. */
  lemma MacInputInjective(g: Grant, h: Grant)
    requires MacInput(g) == MacInput(h)
    ensures g == h
  {
    hide FormatInt;
    var x, y := MacInput(g), MacInput(h);
    assert g.id == x[..36] == y[..36] == h.id;
    assert x[37] == (if g.variant == Original then NEWLINE else 0x2E);
    assert y[37] == (if h.variant == Original then NEWLINE else 0x2E);
    var at := 38 + |VariantName(g.variant)|;
    assert FormatInt(g.expires) == x[at..] == y[at..] == FormatInt(h.expires);
    FormatIntInjective(g.expires, h.expires);
  }

  // ----- the expiry parameter

  predicate AllDigits(s: seq<byte>) { s != [] && forall i | 0 <= i < |s| :: IsDigit(s[i]) }

  const PLUS: byte := 0x2B

  /** `strconv.ParseInt(s, 10, 64)`: an optional sign, digits, and a value in range. */
  function ParseInt(s: seq<byte>): Option<int> {
    var signed := s != [] && (s[0] == MINUS || s[0] == PLUS);
    var digits := if signed then s[1..] else s;
    if !AllDigits(digits) then None
    else
      var n: int := ParseDigits(digits);
      var i := if signed && s[0] == MINUS then -n else n;
      if -MAX_INT64 - 1 <= i <= MAX_INT64 then Some(i) else None
  }

  lemma ParseFormatted(i: int)
    requires -MAX_INT64 - 1 <= i <= MAX_INT64
    ensures ParseInt(FormatInt(i)) == Some(i)
  {
    if i < 0 {
      assert FormatInt(i)[1..] == Digits(-i);
    } else {
      assert IsDigit(Digits(i)[0]);
    }
  }

  // ----- minting and verifying

  /** The query of a URL: the expiry text, and the signature's bytes where its base64 decodes. */
  datatype Query = Query(exp: seq<byte>, sig: Option<seq<byte>>)

  type Mac = seq<byte> -> seq<byte>

  /** FileURLAt: the expiry is the whole second reached an hour from now. */
  function ExpiryAt(now: int): int { (now + TTL) / SECOND }

  function GrantAt(id: Uuid, v: Variant, now: int): Grant { Grant(id, v, ExpiryAt(now)) }

  function Mint(mac: Mac, id: Uuid, v: Variant, now: int): Query {
    Query(FormatInt(ExpiryAt(now)), Some(mac(MacInput(GrantAt(id, v, now)))))
  }

  predicate Valid(mac: Mac, id: Uuid, v: Variant, q: Query, now: int) {
    && var expires := ParseInt(q.exp);
    && expires.Some? && q.sig.Some?
    && q.sig.value == mac(MacInput(Grant(id, v, expires.value)))
    && now <= expires.value * SECOND
  }

  /**
   A text is read exactly when it is digits after at most one sign and its value
   fits 64 bits, and then as that value.
   */
  lemma ParseIntIff(s: seq<byte>, i: int)
    ensures ParseInt(s) == Some(i) <==>
              && -0x8000_0000_0000_0000 <= i <= 0x7FFF_FFFF_FFFF_FFFF
              && (|| (AllDigits(s) && i == ParseDigits(s))
                  || (s != [] && s[0] == 0x2B && AllDigits(s[1..]) && i == ParseDigits(s[1..]))
                  || (s != [] && s[0] == 0x2D && AllDigits(s[1..]) && i == -(ParseDigits(s[1..]) as int)))
  {
    assert AllDigits(s) ==> IsDigit(s[0]);
  }

  ghost predicate InRange(now: int) { -MAX_INT64 - 1 <= ExpiryAt(now) <= MAX_INT64 }

  /** Two different signed inputs with one MAC. */
  ghost predicate Collides(mac: Mac, g: Grant, h: Grant) { MacInput(g) != MacInput(h) && mac(MacInput(g)) == mac(MacInput(h)) }

  /** A minted URL is served from the instant it was minted until its expiry second, and not after. */
  lemma MintedIsValid(mac: Mac, id: Uuid, v: Variant, minted: int, now: int)
    requires InRange(minted)
    ensures Valid(mac, id, v, Mint(mac, id, v, minted), now) <==> now <= ExpiryAt(minted) * 1_000_000_000
    ensures now <= minted + 3599_000_000_000 ==> Valid(mac, id, v, Mint(mac, id, v, minted), now)
    ensures now > minted + 3600_000_000_000 ==> !Valid(mac, id, v, Mint(mac, id, v, minted), now)
  {
    ParseFormatted(ExpiryAt(minted));
  }

  /**
   Whatever file, variant and expiry text a minted signature is presented with,
   it is accepted exactly for the file and variant it was minted for, with a text
   of the very expiry it was minted with, and not after that second.
   */
  lemma SignatureIsBound(mac: Mac, id: Uuid, v: Variant, minted: int, id': Uuid, v': Variant, exp: seq<byte>, now: int)
    requires ParseInt(exp).Some? ==> !Collides(mac, GrantAt(id, v, minted), Grant(id', v', ParseInt(exp).value))
    ensures Valid(mac, id', v', Query(exp, Mint(mac, id, v, minted).sig), now) <==>
              id' == id && v' == v && ParseInt(exp) == Some(ExpiryAt(minted)) && now <= ExpiryAt(minted) * 1_000_000_000
  {
    hide MacInput;
    if ParseInt(exp).Some? {
      var g, h := GrantAt(id, v, minted), Grant(id', v', ParseInt(exp).value);
      if MacInput(g) == MacInput(h) { MacInputInjective(g, h); }
    }
  }

  // ----- the path

  /** "/files/" and "/thumb" as bytes. */
  const FILES: seq<byte> := [0x2F, 0x66, 0x69, 0x6C, 0x65, 0x73, 0x2F]
  const THUMB: seq<byte> := [0x2F, 0x74, 0x68, 0x75, 0x6D, 0x62]

  function PathOf(id: seq<byte>, v: Variant): seq<byte> {
    if v == Thumbnail then FILES + id + THUMB else FILES + id
  }

  /** A path is "/files/", the file's id, and "/thumb" after it for the thumbnail alone. */
  lemma PathIs(id: Uuid, v: Variant)
    ensures var p := PathOf(id, v);
            && p[..7] == [0x2F, 0x66, 0x69, 0x6C, 0x65, 0x73, 0x2F] && p[7..43] == id
            && p[43..] == if v == Thumbnail then [0x2F, 0x74, 0x68, 0x75, 0x6D, 0x62] else []
  {
  }

  /** Every path serves one variant of one file. */
  lemma PathInjective(id: Uuid, v: Variant, id': Uuid, v': Variant)
    requires PathOf(id, v) == PathOf(id', v')
    ensures id == id' && v == v'
  {
    var x, y := PathOf(id, v), PathOf(id', v');
    assert id == x[7..43] == y[7..43] == id';
  }
}
