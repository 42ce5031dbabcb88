/**
 PNG metadata removal (server/internal/httpserver/images.go, stripPNG).

 The independent view of a PNG is a list of chunks that ends in IEND, with
 whatever bytes trail it. `Print` lays one out (RFC 2083 sections 3.2 and 3.3:
 a four-byte length, the type, the body, a CRC).
 */
module PngStripper {
  import opened Bytes

  const SIGNATURE: seq<byte> := [0x89, 0x50, 0x4E, 0x47, 0x0D, 0x0A, 0x1A, 0x0A]
  const IEND: seq<byte> := [0x49, 0x45, 0x4E, 0x44]
  const TRNS: seq<byte> := [0x74, 0x52, 0x4E, 0x53]
  const GAMA: seq<byte> := [0x67, 0x41, 0x4D, 0x41]
  const CHRM: seq<byte> := [0x63, 0x48, 0x52, 0x4D]
  const SRGB: seq<byte> := [0x73, 0x52, 0x47, 0x42]

  datatype Png =
    | End(body: seq<byte>, crc: seq<byte>, trailer: seq<byte>)
    | Chunk(ctype: seq<byte>, body: seq<byte>, crc: seq<byte>, rest: Png)

  /** An upper-case first letter makes a chunk critical. */
  predicate IsCritical(ctype: seq<byte>) { |ctype| == 4 && 0x41 <= ctype[0] <= 0x5A }

  predicate IsKept(ctype: seq<byte>) {
    IsCritical(ctype) || ctype == TRNS || ctype == GAMA || ctype == CHRM || ctype == SRGB
  }

  ghost predicate WellFormed(p: Png) {
    && |p.body| < 0x1_0000_0000 && |p.crc| == 4
    && (p.Chunk? ==> |p.ctype| == 4 && p.ctype != [0x49, 0x45, 0x4E, 0x44] && WellFormed(p.rest))
  }

  ghost function Layout(ctype: seq<byte>, body: seq<byte>, crc: seq<byte>): (s: seq<byte>)
    requires |body| < 0x1_0000_0000
  {
    PutBE32(|body|) + ctype + body + crc
  }

  ghost function PrintTail(p: Png): seq<byte>
    requires WellFormed(p)
  {
    match p
    case End(b, c, t) => Layout([0x49, 0x45, 0x4E, 0x44], b, c) + t  // IEND
    case Chunk(ct, b, c, rest) => Layout(ct, b, c) + PrintTail(rest)
  }

  ghost function Print(p: Png): seq<byte>
    requires WellFormed(p)
  {
    [0x89, 0x50, 0x4E, 0x47, 0x0D, 0x0A, 0x1A, 0x0A] + PrintTail(p)
  }

  /** The chunks before IEND in order, and IEND itself. */
  ghost function Listed(p: Png): seq<(seq<byte>, seq<byte>, seq<byte>)> {
    if p.End? then [] else [(p.ctype, p.body, p.crc)] + Listed(p.rest)
  }

  ghost function EndOf(p: Png): Png { if p.End? then p else EndOf(p.rest) }

  ghost predicate StaysIn(ctype: seq<byte>, low: byte, high: byte, named: set<seq<byte>>) {
    (ctype != [] && low <= ctype[0] <= high) || ctype in named
  }

  /** The chunks whose type starts within low..high, or is one of those named, in order. */
  ghost function Within(
      chunks: seq<(seq<byte>, seq<byte>, seq<byte>)>, low: byte, high: byte, named: set<seq<byte>>): seq<(seq<byte>, seq<byte>, seq<byte>)>
  {
    if chunks == [] then []
    else (if StaysIn(chunks[0].0, low, high, named) then [chunks[0]] else []) + Within(chunks[1..], low, high, named)
  }

  /** The same image with only its kept chunks, and nothing after IEND. */
  ghost function Stripped(p: Png): (r: Png)
    ensures WellFormed(p) ==> WellFormed(r)
  {
    match p
    case End(b, c, _) => End(b, c, [])
    case Chunk(ct, b, c, rest) => if IsKept(ct) then Chunk(ct, b, c, Stripped(rest)) else Stripped(rest)
  }

  // ----- the walk, as a parser of what follows the signature

  ghost function ParseTail(s: seq<byte>): Option<Png> {
    if |s| < 8 then None
    else
      var n := BE32(s[..4]);
      if 12 + n > |s| then None
      else if s[4..8] == IEND then Some(End(s[8..8 + n], s[8 + n..12 + n], s[12 + n..]))
      else match ParseTail(s[12 + n..])
           case None => None
           case Some(p) => Some(Chunk(s[4..8], s[8..8 + n], s[8 + n..12 + n], p))
  }

  ghost function Parse(data: seq<byte>): Option<Png> {
    if SIGNATURE <= data then ParseTail(data[8..]) else None
  }

  ghost function Strip(data: seq<byte>): seq<byte> {
    match Parse(data)
    case None => data
    case Some(p) => ParsedIsPrinted(data); Print(Stripped(p))
  }

  /** A chunk read at the head of `s` is laid out exactly as `s` begins. */
  lemma HeadLayout(s: seq<byte>, n: nat)
    requires |s| >= 8 && n == BE32(s[..4]) && 12 + n <= |s|
    ensures n < 0x1_0000_0000 && Layout(s[4..8], s[8..8 + n], s[8 + n..12 + n]) == s[..12 + n]
  {
    hide BE32;
    hide PutBE32;
    PutBE32Unique(s[..4]);
    HeadParts(s, n);
  }

  lemma HeadParts(s: seq<byte>, n: nat)
    requires 12 + n <= |s|
    ensures s[..12 + n] == s[..4] + s[4..8] + s[8..8 + n] + s[8 + n..12 + n] && |s[8..8 + n]| == n
  {
  }

  lemma {:induction false} TailIsPrinted(s: seq<byte>)
    requires ParseTail(s).Some?
    ensures WellFormed(ParseTail(s).value) && PrintTail(ParseTail(s).value) == s
  {
    var n := BE32(s[..4]);
    HeadLayout(s, n);
    assert s == s[..12 + n] + s[12 + n..];
    if s[4..8] != IEND { TailIsPrinted(s[12 + n..]); }
  }

  lemma ParsedIsPrinted(data: seq<byte>)
    requires Parse(data).Some?
    ensures WellFormed(Parse(data).value) && Print(Parse(data).value) == data
  {
    TailIsPrinted(data[8..]);
    assert data == SIGNATURE + data[8..];
  }

  lemma LayoutHead(ctype: seq<byte>, body: seq<byte>, crc: seq<byte>, r: seq<byte>)
    requires |body| < 0x1_0000_0000 && |ctype| == 4 && |crc| == 4
    ensures var s, n := Layout(ctype, body, crc) + r, |body|;
            && |s| >= 12 + n && BE32(s[..4]) == n && s[4..8] == ctype && s[8..8 + n] == body
            && s[8 + n..12 + n] == crc && s[12 + n..] == r
  {
    FiveParts(PutBE32(|body|), ctype, body, crc, r);
  }

  lemma {:induction false} PrintedTailIsParsed(p: Png)
    requires WellFormed(p)
    ensures ParseTail(PrintTail(p)) == Some(p)
  {
    match p
    case End(b, c, t) => LayoutHead(IEND, b, c, t);
    case Chunk(ct, b, c, rest) =>
      PrintedTailIsParsed(rest);
      LayoutHead(ct, b, c, PrintTail(rest));
  }

  /** Printing is uniquely decodable, and the walk is what decodes it. */
  lemma PrintedIsParsed(p: Png)
    requires WellFormed(p)
    ensures Parse(Print(p)) == Some(p)
  {
    PrintedTailIsParsed(p);
    assert Print(p)[8..] == PrintTail(p);
  }

  lemma {:induction false} StrippedFacts(p: Png)
    requires WellFormed(p)
    ensures Stripped(Stripped(p)) == Stripped(p)
    ensures |PrintTail(Stripped(p))| <= |PrintTail(p)|
  {
    if p.Chunk? { StrippedFacts(p.rest); }
  }

  /**
   What the stripper does to every byte string, in terms of printing alone: a
   file that is some PNG's layout comes back as its critical and
   rendering-relevant chunks verbatim, in order, with nothing after IEND;
   anything else comes back untouched.
   */
  lemma StripRefinesFilter(data: seq<byte>)
    ensures forall p | WellFormed(p) && Print(p) == data :: Strip(data) == Print(Stripped(p))
    ensures (forall p | WellFormed(p) :: Print(p) != data) ==> Strip(data) == data
  {
    forall p | WellFormed(p) && Print(p) == data ensures Strip(data) == Print(Stripped(p)) {
      PrintedIsParsed(p);
    }
    if Parse(data).Some? { ParsedIsPrinted(data); }
  }

  /** tRNS, gAMA, cHRM and sRGB. */
  ghost function Ancillary(): set<seq<byte>> {
    {[0x74, 0x52, 0x4E, 0x53], [0x67, 0x41, 0x4D, 0x41], [0x63, 0x48, 0x52, 0x4D], [0x73, 0x52, 0x47, 0x42]}
  }

  lemma {:induction false} StrippedList(p: Png)
    requires WellFormed(p)
    ensures Listed(Stripped(p)) == Within(Listed(p), 0x41, 0x5A, Ancillary())
    ensures EndOf(p).End? && EndOf(Stripped(p)) == End(EndOf(p).body, EndOf(p).crc, [])
  {
    if p.Chunk? {
      StrippedList(p.rest);
      assert Listed(p)[1..] == Listed(p.rest);
    }
  }

  lemma {:induction false} WithinFacts(chunks: seq<(seq<byte>, seq<byte>, seq<byte>)>, low: byte, high: byte, named: set<seq<byte>>)
    ensures var kept := Within(chunks, low, high, named);
            && (forall c | c in kept :: StaysIn(c.0, low, high, named))
            && |kept| <= |chunks|
            && (kept == chunks <==> forall c | c in chunks :: StaysIn(c.0, low, high, named))
  {
    if chunks != [] {
      WithinFacts(chunks[1..], low, high, named);
      assert chunks == [chunks[0]] + chunks[1..];
    }
  }

  /** The chunks, IEND and the trailing bytes are all there is to a PNG. */
  lemma {:induction false} SameParts(p: Png, q: Png)
    requires Listed(p) == Listed(q) && EndOf(p) == EndOf(q)
    ensures p == q
  {
    if p.Chunk? && q.Chunk? {
      assert Listed(p)[0] == Listed(q)[0] && Listed(p)[1..] == Listed(p.rest) && Listed(q)[1..] == Listed(q.rest);
      SameParts(p.rest, q.rest);
    }
  }

  /**
   Which chunks stay: the output of every laid-out PNG is the layout of its chunks
   with an upper-case first letter (0x41..0x5A) or one of the four named types, in
   order, and of the same IEND with nothing after it; it is the input exactly when
   every chunk is such a one and nothing trailed IEND.
   */
  lemma StripKeepsRendering(data: seq<byte>, p: Png) returns (q: Png)
    requires WellFormed(p) && Print(p) == data
    ensures WellFormed(q) && Strip(data) == Print(q)
    ensures EndOf(p).End? && EndOf(q) == End(EndOf(p).body, EndOf(p).crc, [])
    ensures Listed(q) == Within(Listed(p), 0x41, 0x5A, Ancillary())
    ensures Strip(data) == data <==>
              EndOf(p).trailer == [] && forall c | c in Listed(p) :: StaysIn(c.0, 0x41, 0x5A, Ancillary())
  {
    q := Stripped(p);
    StripRefinesFilter(data);
    StrippedList(p);
    WithinFacts(Listed(p), 0x41, 0x5A, Ancillary());
    if Listed(q) == Listed(p) && EndOf(p).trailer == [] { SameParts(q, p); }
    PrintedIsParsed(p);
    PrintedIsParsed(q);
  }

  /** Stripping twice is stripping once, never lengthens, and leaves only critical and named chunks. */
  lemma StripIdempotent(data: seq<byte>)
    ensures Strip(Strip(data)) == Strip(data)
    ensures |Strip(data)| <= |data|
    ensures Parse(data).Some? ==>
              && Parse(Strip(data)).Some?
              && forall c | c in Listed(Parse(Strip(data)).value) :: StaysIn(c.0, 0x41, 0x5A, Ancillary())
  {
    if Parse(data).Some? {
      var p := Parse(data).value;
      ParsedIsPrinted(data);
      PrintedIsParsed(Stripped(p));
      StrippedFacts(p);
      StrippedList(p);
      WithinFacts(Listed(p), 0x41, 0x5A, Ancillary());
    }
  }

  /** What the walk still has to emit when `s` is left, or None when it will give up. */
  ghost function Emit(s: seq<byte>): Option<seq<byte>> {
    if |s| < 8 then None
    else
      var n := BE32(s[..4]);
      if 12 + n > |s| then None
      else if s[4..8] == IEND then Some(s[..12 + n])
      else match Emit(s[12 + n..])
           case None => None
           case Some(e) => Some((if IsKept(s[4..8]) then s[..12 + n] else []) + e)
  }

  lemma {:induction false} EmitIsStripped(s: seq<byte>)
    ensures Emit(s).None? == ParseTail(s).None?
    ensures ParseTail(s).Some? ==>
              WellFormed(ParseTail(s).value) && Emit(s).value == PrintTail(Stripped(ParseTail(s).value))
  {
    hide BE32;
    hide Layout;
    hide IsKept;
    if ParseTail(s).Some? { TailIsPrinted(s); }
    if |s| >= 8 {
      var n := BE32(s[..4]);
      if 12 + n <= |s| {
        HeadLayout(s, n);
        if s[4..8] == IEND { assert s[..12 + n] + [] == s[..12 + n]; }
        else { EmitIsStripped(s[12 + n..]); }
      }
    }
  }

  /** What the walk returns when `out` is written and `s` is left. */
  ghost predicate Yields(data: seq<byte>, out: seq<byte>, s: seq<byte>, result: seq<byte>) {
    match Emit(s)
    case None => result == data
    case Some(e) => result == out + e
  }

  lemma YieldsStep(data: seq<byte>, out: seq<byte>, s: seq<byte>, n: nat, result: seq<byte>)
    requires |s| >= 8 && n == BE32(s[..4]) && 12 + n <= |s| && s[4..8] != IEND
    ensures Yields(data, out, s, result) ==
            Yields(data, out + (if IsKept(s[4..8]) then s[..12 + n] else []), s[12 + n..], result)
  {
    if Emit(s[12 + n..]).Some? {
      var e, h := Emit(s[12 + n..]).value, if IsKept(s[4..8]) then s[..12 + n] else [];
      assert out + (h + e) == (out + h) + e;
    }
  }

  /** stripPNG: one pass over the input with an output buffer. */
  method StripPng(data: seq<byte>) returns (out: seq<byte>)
    ensures out == Strip(data)
  {
    if !(SIGNATURE <= data) {
      return data;
    }
    EmitIsStripped(data[8..]);
    out := WalkChunks(data);
  }

  /** The chunk loop of stripPNG, entered after the signature. */
  method WalkChunks(data: seq<byte>) returns (out: seq<byte>)
    requires SIGNATURE <= data
    ensures Yields(data, SIGNATURE, data[8..], out)
  {
    out := SIGNATURE;
    var i := |SIGNATURE|;
    ghost var s := data[i..];  // what is still to walk
    while true
      invariant 8 <= i <= |data| && s == data[i..]
      invariant forall r :: Yields(data, out, s, r) ==> Yields(data, SIGNATURE, data[8..], r)
      decreases |data| - i
    {
      if i + 8 > |data| {
        return data;
      }
      assert data[i..i + 4] == s[..4];
      var length := BE32(data[i..i + 4]);
      if i + 12 + length > |data| {
        return data;
      }
      var chunkType, chunk := data[i + 4..i + 8], data[i..i + 12 + length];
      assert chunkType == s[4..8] && chunk == s[..12 + length];
      if chunkType != IEND {
        forall r { YieldsStep(data, out, s, length, r); }
        assert out + [] == out;
      }
      if IsKept(chunkType) {
        out := out + chunk;
      }
      i := i + 12 + length;
      if chunkType == IEND {
        return out;
      }
      s := s[12 + length..];
    }
  }
}
