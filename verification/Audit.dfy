/**
 The MAC input of one audit entry (server/internal/audit/audit.go, Seal, field
 and uuidField): a predecessor hash and eight framed fields.
 */
module AuditFraming {
  import opened Bytes
  import opened Decimal

  /** The longest byte string there is: a length is a non-negative int64. */
  const MAX_LENGTH: nat := 0x8000_0000_0000_0000

  const DASH: byte := 0x2D

  /** The canonical text of a UUID: 36 bytes with dashes after 8, 12, 16 and 20 digits. */
  ghost predicate IsUuidText(s: seq<byte>) {
    && |s| == 36
    && forall i | 0 <= i < 36 :: s[i] == DASH <==> i in {8, 13, 18, 23}
  }

  /** The recorded fields, already in the text each is hashed as. */
  datatype Fields = Fields(
    id: seq<byte>,
    action: seq<byte>,
    actor: Option<seq<byte>>,
    target: Option<seq<byte>>,
    targetLabel: Option<seq<byte>>,
    detail: Option<seq<byte>>,  // canonical JSON
    ip: Option<seq<byte>>,      // unmapped
    micros: int)           // occurred_at in Unix microseconds

  /** The eight fields in the order Seal writes them. */
  function Sequence(f: Fields): seq<Option<seq<byte>>> {
    [Some(f.id), Some(f.action), f.actor, f.target, f.targetLabel, f.detail, f.ip, Some(FormatInt(f.micros))]
  }

  ghost predicate Fits(v: Option<seq<byte>>) { v.Some? ==> |v.value| < MAX_LENGTH }

  ghost predicate WellFormed(f: Fields) {
    && IsUuidText(f.id)
    && (f.actor.Some? ==> IsUuidText(f.actor.value))
    && (f.target.Some? ==> IsUuidText(f.target.value))
    && forall i | 0 <= i < 8 :: Fits(Sequence(f)[i])
  }

  /** Eight big-endian bytes, `PutUint64`. */
  function PutBE64(n: nat): (s: seq<byte>)
    ensures |s| == 8
  {
    Digits32(n / 0x1_0000_0000 % 0x1_0000_0000) + Digits32(n % 0x1_0000_0000)
  }

  lemma PutBE64Injective(m: nat, n: nat)
    requires m < MAX_LENGTH && n < MAX_LENGTH && PutBE64(m) == PutBE64(n)
    ensures m == n
  {
    hide Digits32;
    hide BE32;
    var m1, m0 := m / 0x1_0000_0000, m % 0x1_0000_0000;
    var n1, n0 := n / 0x1_0000_0000, n % 0x1_0000_0000;
    assert m1 % 0x1_0000_0000 == m1 && n1 % 0x1_0000_0000 == n1;
    assert Digits32(m1) == PutBE64(m)[..4] == PutBE64(n)[..4] == Digits32(n1);
    assert Digits32(m0) == PutBE64(m)[4..] == PutBE64(n)[4..] == Digits32(n0);
    Digits32Decode(m1);
    Digits32Decode(m0);
    Digits32Decode(n1);
    Digits32Decode(n0);
  }

  /** field: a presence byte, the length, the bytes. */
  function Field(v: Option<seq<byte>>): seq<byte> {
    match v
    case None => [0] + PutBE64(0)
    case Some(b) => [1] + PutBE64(|b|) + b
  }

  function Frames(vs: seq<Option<seq<byte>>>): seq<byte> {
    if vs == [] then [] else Field(vs[0]) + Frames(vs[1..])
  }

  /** The bytes Seal feeds the MAC. */
  function MacInput(prevHash: seq<byte>, f: Fields): seq<byte> {
    prevHash + Frames(Sequence(f))
  }

  /** A framed field is self-delimiting: it and everything after it can be read back. */
  lemma FieldPrefix(u: Option<seq<byte>>, r: seq<byte>, v: Option<seq<byte>>, s: seq<byte>)
    requires Fits(u) && Fits(v) && Field(u) + r == Field(v) + s
    ensures u == v && r == s
  {
    var x, y := Field(u) + r, Field(v) + s;
    var m, n := if u.Some? then |u.value| else 0, if v.Some? then |v.value| else 0;
    assert x[0] == y[0];
    assert PutBE64(m) == x[1..9] == y[1..9] == PutBE64(n);
    PutBE64Injective(m, n);
    assert x[9..9 + m] == y[9..9 + n];
    assert x[9 + m..] == r && y[9 + n..] == s;
  }

  lemma {:induction false} FramesInjective(us: seq<Option<seq<byte>>>, vs: seq<Option<seq<byte>>>)
    requires |us| == |vs| && Frames(us) == Frames(vs)
    requires forall i | 0 <= i < |us| :: Fits(us[i]) && Fits(vs[i])
    ensures us == vs
  {
    hide Field;
    if us != [] {
      FieldPrefix(us[0], Frames(us[1..]), vs[0], Frames(vs[1..]));
      FramesInjective(us[1..], vs[1..]);
      assert us == [us[0]] + us[1..] && vs == [vs[0]] + vs[1..];
    }
  }

  /** The frames begin with the id's header, then its text. */
  lemma FramesStart(f: Fields)
    requires WellFormed(f)
    ensures |Frames(Sequence(f))| >= 45 && Frames(Sequence(f))[0] == 1
    ensures Frames(Sequence(f))[9..45] == f.id
  {
    hide PutBE64;
    assert Sequence(f)[0] == Some(f.id);
    assert Frames(Sequence(f)) == Field(Some(f.id)) + Frames(Sequence(f)[1..]);
  }

  /** The widths a predecessor hash can have: a chain hash, or the empty one. */
  predicate IsHash(h: seq<byte>) { |h| == 32 || |h| == 0 }

  /**
   No two different (predecessor hash, fields) pairs are sealed over the same
   bytes, although the hash itself is unframed: with a 32-byte hash, offset 32
   holds the id's presence byte 1; with an empty one it falls on a dash of the
   id's text.
   */
  lemma MacInputInjective(p: seq<byte>, f: Fields, q: seq<byte>, g: Fields)
    requires IsHash(p) && IsHash(q) && WellFormed(f) && WellFormed(g)
    requires MacInput(p, f) == MacInput(q, g)
    ensures p == q && f == g
  {
    hide Frames;
    OffsetThirtyTwo(p, f);
    OffsetThirtyTwo(q, g);
    var x, y := MacInput(p, f), MacInput(q, g);
    assert p == x[..|p|] == y[..|q|] == q;
    assert Frames(Sequence(f)) == x[|p|..] == y[|q|..] == Frames(Sequence(g));
    FramesInjective(Sequence(f), Sequence(g));
    SequenceInjective(f, g);
  }

  /** The byte at offset 32 tells the two widths apart. */
  lemma OffsetThirtyTwo(p: seq<byte>, f: Fields)
    requires IsHash(p) && WellFormed(f)
    ensures |MacInput(p, f)| > 32 && MacInput(p, f)[32] == if |p| == 32 then 1 else DASH
  {
    hide Frames;
    FramesStart(f);
    var fr := Frames(Sequence(f));
    assert fr[32] == fr[9..45][23];
  }

  lemma SequenceInjective(f: Fields, g: Fields)
    requires WellFormed(f) && WellFormed(g) && Sequence(f) == Sequence(g)
    ensures f == g
  {
    assert forall i | 0 <= i < 8 :: Sequence(f)[i] == Sequence(g)[i];
    FormatIntInjective(f.micros, g.micros);
  }
}
