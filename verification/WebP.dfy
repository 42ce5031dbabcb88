/**
 WebP metadata removal (server/internal/httpserver/images.go, stripWebP).

 The independent view of a WebP is the list of RIFF chunks after its 12-byte
 header. `Print` lays one out (RFC 9649 sections 2.3 and 2.7: a FourCC, a
 little-endian size, the body, a pad byte after an odd body).
 */
module WebPStripper {
  import opened Bytes

  const RIFF: seq<byte> := [0x52, 0x49, 0x46, 0x46]
  const WEBP: seq<byte> := [0x57, 0x45, 0x42, 0x50]
  const VP8X: seq<byte> := [0x56, 0x50, 0x38, 0x58]
  const EXIF: seq<byte> := [0x45, 0x58, 0x49, 0x46]
  const XMP: seq<byte> := [0x58, 0x4D, 0x50, 0x20]
  const ICCP: seq<byte> := [0x49, 0x43, 0x43, 0x50]

  datatype Chunks = Nil | Chunk(fourCC: seq<byte>, body: seq<byte>, pad: seq<byte>, rest: Chunks)

  predicate IsDropped(fourCC: seq<byte>) { fourCC == EXIF || fourCC == XMP || fourCC == ICCP }

  /** `b &^ 0x2C`: the ICC (0x20), EXIF (0x08) and XMP (0x04) flags of a VP8X payload cleared. */
  function ClearFlags(b: byte): byte { b % 4 + 16 * (b / 16 % 2) + 64 * (b / 64) }

  predicate Advertises(b: byte) { b / 32 % 2 == 1 || b / 8 % 2 == 1 || b / 4 % 2 == 1 }

  /** The three flags end up clear; bits 0-1, 4 and 6-7 are as they were. */
  lemma ClearFlagsBits(b: byte)
    ensures !Advertises(ClearFlags(b))
    ensures var c := ClearFlags(b); c % 4 == b % 4 && c / 16 % 2 == b / 16 % 2 && c / 64 == b / 64
    ensures ClearFlags(ClearFlags(b)) == ClearFlags(b)
  {
    var l, m, h := b % 4, b / 16 % 2, b / 64;
    var c := l + 16 * m + 64 * h;
    assert c / 4 == 4 * m + 16 * h && c / 8 == 2 * m + 8 * h;
    assert c / 16 == m + 4 * h && c / 32 == 2 * h && c / 64 == h;
  }

  lemma HalvesAgain(n: nat, d: nat)
    requires d in {4, 8, 16, 32}
    ensures n / d == 2 * (n / (2 * d)) + n / d % 2
  {
    assert n / d / 2 == n / (2 * d);
  }

  /** What is cleared is exactly bits 2, 3 and 5. */
  lemma ClearFlagsSubtracts(b: byte)
    ensures ClearFlags(b) as int == b - 4 * (b / 4 % 2) - 8 * (b / 8 % 2) - 32 * (b / 32 % 2)
  {
    HalvesAgain(b, 4);
    HalvesAgain(b, 8);
    HalvesAgain(b, 16);
    HalvesAgain(b, 32);
    assert b == 4 * (b / 4) + b % 4;
  }

  ghost predicate WellFormed(w: Chunks) {
    w.Chunk? ==>
      && |w.fourCC| == 4 && |w.body| < 0x1_0000_0000 && |w.pad| == |w.body| % 2
      && WellFormed(w.rest)
  }

  ghost function Layout(fourCC: seq<byte>, body: seq<byte>, pad: seq<byte>): seq<byte>
    requires |body| < 0x1_0000_0000
  {
    fourCC + PutLE32(|body|) + body + pad
  }

  ghost function PrintTail(w: Chunks): seq<byte>
    requires WellFormed(w)
  {
    match w
    case Nil => []
    case Chunk(f, b, p, rest) => Layout(f, b, p) + PrintTail(rest)
  }

  /** A whole file: the header with its four size bytes, then the chunks. */
  ghost function Print(size: seq<byte>, w: Chunks): seq<byte>
    requires WellFormed(w)
  {
    [0x52, 0x49, 0x46, 0x46] + size + [0x57, 0x45, 0x42, 0x50] + PrintTail(w)  // "RIFF", "WEBP"
  }

  /** A kept chunk's body: only a VP8X flag byte ever changes. */
  function CleanBody(fourCC: seq<byte>, body: seq<byte>): (r: seq<byte>)
    ensures |r| == |body| && (|body| > 0 ==> r[1..] == body[1..])
  {
    if fourCC == VP8X && |body| > 0 then body[0 := ClearFlags(body[0])] else body
  }

  ghost function Stripped(w: Chunks): (r: Chunks)
    ensures WellFormed(w) ==> WellFormed(r)
  {
    match w
    case Nil => Nil
    case Chunk(f, b, p, rest) =>
      if IsDropped(f) then Stripped(rest) else Chunk(f, CleanBody(f, b), p, Stripped(rest))
  }

  /** No metadata chunk is left and no VP8X payload advertises one. */
  ghost predicate Clean(w: Chunks) {
    w.Chunk? ==>
      && w.fourCC !in Metadata()
      && (w.fourCC == [0x56, 0x50, 0x38, 0x58] && |w.body| > 0 ==>
            w.body[0] / 4 % 2 == 0 && w.body[0] / 8 % 2 == 0 && w.body[0] / 32 % 2 == 0)
      && Clean(w.rest)
  }

  ghost function PaddedLengths(w: Chunks): nat {
    match w
    case Nil => 0
    case Chunk(_, b, _, rest) => 8 + |b| + |b| % 2 + PaddedLengths(rest)
  }

  // ----- the walk, as a parser of what follows the header

  ghost function ParseTail(s: seq<byte>): Option<Chunks> {
    if s == [] then Some(Nil)
    else if |s| < 8 then None
    else
      var n := LE32(s[4..8]);
      var k := 8 + n + n % 2;
      if k > |s| then None
      else match ParseTail(s[k..])
           case None => None
           case Some(w) => Some(Chunk(s[..4], s[8..8 + n], s[8 + n..k], w))
  }

  predicate HasHeader(data: seq<byte>) { |data| >= 12 && data[..4] == RIFF && data[8..12] == WEBP }

  ghost function Parse(data: seq<byte>): Option<Chunks> {
    if HasHeader(data) then ParseTail(data[12..]) else None
  }

  /** The four bytes `uint32(n)` is written as: the low 32 bits of n. */
  ghost function SizeField(n: nat): (s: seq<byte>)
    ensures |s| == 4 && (n < 0x1_0000_0000 ==> LE32(s) == n)
  {
    PutLE32(n % 0x1_0000_0000)
  }

  ghost function Rewritten(w: Chunks): seq<byte>
    requires WellFormed(w)
  {
    Print(SizeField(4 + |PrintTail(w)|), w)
  }

  ghost function Strip(data: seq<byte>): seq<byte> {
    match Parse(data)
    case None => data
    case Some(w) => ParsedIsPrinted(data); Rewritten(Stripped(w))
  }

  lemma HeadLayout(s: seq<byte>, n: nat, k: nat)
    requires |s| >= 8 && n == LE32(s[4..8]) && k == 8 + n + n % 2 && k <= |s|
    ensures n < 0x1_0000_0000 && Layout(s[..4], s[8..8 + n], s[8 + n..k]) == s[..k]
  {
    hide LE32;
    hide PutLE32;
    PutLE32Unique(s[4..8]);
    HeadParts(s, n, k);
  }

  lemma HeadParts(s: seq<byte>, n: nat, k: nat)
    requires 8 + n <= k <= |s|
    ensures s[..k] == s[..4] + s[4..8] + s[8..8 + n] + s[8 + n..k] && |s[8..8 + n]| == n && s == s[..k] + s[k..]
  {
  }

  lemma {:induction false} TailIsPrinted(s: seq<byte>)
    requires ParseTail(s).Some?
    ensures WellFormed(ParseTail(s).value) && PrintTail(ParseTail(s).value) == s
  {
    hide LE32;
    hide PutLE32;
    hide Layout;
    if s != [] {
      var n := LE32(s[4..8]);
      var k := 8 + n + n % 2;
      HeadLayout(s, n, k);
      HeadParts(s, n, k);
      TailIsPrinted(s[k..]);
    }
  }

  lemma ParsedIsPrinted(data: seq<byte>)
    requires Parse(data).Some?
    ensures WellFormed(Parse(data).value) && Print(data[4..8], Parse(data).value) == data
  {
    TailIsPrinted(data[12..]);
    assert data == data[..4] + data[4..8] + data[8..12] + data[12..];
  }

  lemma {:induction false} PrintedTailIsParsed(w: Chunks)
    requires WellFormed(w)
    ensures ParseTail(PrintTail(w)) == Some(w)
  {
    match w
    case Nil =>
    case Chunk(f, b, p, rest) =>
      PrintedTailIsParsed(rest);
      FiveParts(f, PutLE32(|b|), b, p, PrintTail(rest));
  }

  /** Printing is uniquely decodable whatever the size bytes say. */
  lemma PrintedIsParsed(size: seq<byte>, w: Chunks)
    requires WellFormed(w) && |size| == 4
    ensures Parse(Print(size, w)) == Some(w) && Print(size, w)[4..8] == size
  {
    PrintedTailIsParsed(w);
    FiveParts(RIFF, size, WEBP, PrintTail(w), []);
    assert Print(size, w) + [] == Print(size, w);
  }

  lemma {:induction false} PrintTailLength(w: Chunks)
    requires WellFormed(w)
    ensures |PrintTail(w)| == PaddedLengths(w)
  {
    if w.Chunk? { PrintTailLength(w.rest); }
  }

  lemma {:induction false} StrippedFacts(w: Chunks)
    requires WellFormed(w)
    ensures Stripped(Stripped(w)) == Stripped(w) && Clean(Stripped(w))
    ensures |PrintTail(Stripped(w))| <= |PrintTail(w)|
  {
    hide LE32;
    hide PutLE32;
    hide ClearFlags;
    if w.Chunk? {
      StrippedFacts(w.rest);
      if |w.body| > 0 { ClearFlagsBits(w.body[0]); }
    }
  }

  /**
   What the stripper does to every byte string, in terms of printing alone: a
   file that is a RIFF/WEBP layout comes back as its chunks without EXIF, XMP
   and ICCP, every other chunk verbatim but for the three VP8X flags, under a
   rewritten size; anything else comes back untouched.
   */
  lemma StripRefinesFilter(data: seq<byte>)
    ensures forall size, w | |size| == 4 && WellFormed(w) && Print(size, w) == data ::
              Strip(data) == Rewritten(Stripped(w))
    ensures (forall size: seq<byte>, w | |size| == 4 && WellFormed(w) :: Print(size, w) != data) ==> Strip(data) == data
  {
    forall size, w | |size| == 4 && WellFormed(w) && Print(size, w) == data
      ensures Strip(data) == Rewritten(Stripped(w))
    {
      PrintedIsParsed(size, w);
    }
    if Parse(data).Some? { ParsedIsPrinted(data); }
  }

  ghost function Listed(w: Chunks): seq<(seq<byte>, seq<byte>, seq<byte>)> {
    if w.Nil? then [] else [(w.fourCC, w.body, w.pad)] + Listed(w.rest)
  }

  /** The chunks that are none of those named, in order. */
  ghost function Without(chunks: seq<(seq<byte>, seq<byte>, seq<byte>)>, named: set<seq<byte>>): seq<(seq<byte>, seq<byte>, seq<byte>)> {
    if chunks == [] then []
    else (if chunks[0].0 in named then [] else [chunks[0]]) + Without(chunks[1..], named)
  }

  /** "EXIF", "XMP " and "ICCP". */
  ghost function Metadata(): set<seq<byte>> {
    {[0x45, 0x58, 0x49, 0x46], [0x58, 0x4D, 0x50, 0x20], [0x49, 0x43, 0x43, 0x50]}
  }

  /**
   A kept chunk: verbatim, but for the first payload byte of a "VP8X" chunk, which
   has bits 2, 3 and 5 taken out.
   */
  ghost predicate KeptAs(c: (seq<byte>, seq<byte>, seq<byte>), d: (seq<byte>, seq<byte>, seq<byte>)) {
    && d.0 == c.0 && d.2 == c.2
    && if c.0 == [0x56, 0x50, 0x38, 0x58] && |c.1| > 0 then
         && |d.1| == |c.1| && d.1[1..] == c.1[1..]
         && d.1[0] as int == c.1[0] - 4 * (c.1[0] / 4 % 2) - 8 * (c.1[0] / 8 % 2) - 32 * (c.1[0] / 32 % 2)
       else d.1 == c.1
  }

  ghost predicate AllKeptAs(cs: seq<(seq<byte>, seq<byte>, seq<byte>)>, ds: seq<(seq<byte>, seq<byte>, seq<byte>)>) {
    |cs| == |ds| && forall i | 0 <= i < |cs| :: KeptAs(cs[i], ds[i])
  }

  lemma KeptChunk(f: seq<byte>, b: seq<byte>, p: seq<byte>)
    ensures KeptAs((f, b, p), (f, CleanBody(f, b), p))
  {
    hide ClearFlags;
    if |b| > 0 { ClearFlagsSubtracts(b[0]); }
  }

  lemma {:induction false} StrippedList(w: Chunks)
    ensures AllKeptAs(Without(Listed(w), Metadata()), Listed(Stripped(w)))
  {
    hide KeptAs;
    hide CleanBody;
    if w.Chunk? {
      StrippedList(w.rest);
      KeptChunk(w.fourCC, w.body, w.pad);
      assert Listed(w)[1..] == Listed(w.rest);
    }
  }

  /**
   Which chunks go and what the others become: the output of every laid-out WebP
   has its chunks other than "EXIF", "XMP " and "ICCP", in order, each verbatim but
   for the three VP8X flag bits.
   */
  lemma StripDropsMetadata(data: seq<byte>, size: seq<byte>, w: Chunks) returns (k: Chunks)
    requires |size| == 4 && WellFormed(w) && Print(size, w) == data
    ensures WellFormed(k) && |Strip(data)| >= 12 && Strip(data) == Print(Strip(data)[4..8], k)
    ensures AllKeptAs(Without(Listed(w), Metadata()), Listed(k))
  {
    k := Stripped(w);
    StripRefinesFilter(data);
    StrippedList(w);
    PrintedIsParsed(SizeField(4 + |PrintTail(k)|), k);
  }

  /** Printing under any size bytes: its length, its size field, what it strips to. */
  lemma PrintedFacts(size: seq<byte>, w: Chunks)
    requires WellFormed(w) && |size| == 4
    ensures |Print(size, w)| == 12 + |PrintTail(w)| == 12 + PaddedLengths(w)
    ensures Print(size, w)[4..8] == size && Parse(Print(size, w)) == Some(w)
    ensures Strip(Print(size, w)) == Rewritten(Stripped(w))
  {
    PrintTailLength(w);
    PrintedIsParsed(size, w);
  }

  /** Stripping twice is stripping once, never lengthens, and leaves only clean chunks. */
  lemma StripIdempotent(data: seq<byte>)
    ensures Strip(Strip(data)) == Strip(data)
    ensures |Strip(data)| <= |data|
    ensures Parse(data).Some? ==> Parse(Strip(data)).Some? && Clean(Parse(Strip(data)).value)
  {
    if Parse(data).Some? {
      var w := Parse(data).value;
      var k := Stripped(w);
      ParsedIsPrinted(data);
      PrintedFacts(data[4..8], w);
      StrippedFacts(w);
      PrintedFacts(SizeField(4 + |PrintTail(k)|), k);
    }
  }

  /**
   What follows the size field of a stripped file is exactly "WEBP" and the padded
   chunks, and the field counts it exactly when the count fits 32 bits.
   */
  lemma StrippedSizeField(data: seq<byte>)
    requires Parse(data).Some?
    ensures |Strip(data)| >= 12 && Parse(Strip(data)).Some?
    ensures |Strip(data)| - 8 == 4 + PaddedLengths(Parse(Strip(data)).value)
    ensures LE32(Strip(data)[4..8]) == |Strip(data)| - 8 <==> |Strip(data)| - 8 < 0x1_0000_0000
  {
    var w := Parse(data).value;
    var k := Stripped(w);
    ParsedIsPrinted(data);
    PrintedFacts(data[4..8], w);
    StrippedFacts(w);
    hide LE32;
    hide PutLE32;
    var size := SizeField(4 + |PrintTail(k)|);
    PutLE32Unique(size);
    PrintedFacts(size, k);
  }

  /** One kept chunk as the walk writes it: a VP8X flag byte patched in place. */
  function Patch(chunk: seq<byte>, size: nat): seq<byte>
    requires |chunk| >= 8 + size
  {
    if chunk[..4] == VP8X && size > 0 then chunk[8 := ClearFlags(chunk[8])] else chunk
  }

  /** What the walk still has to emit when `s` is left, or None when it will give up. */
  ghost function Emit(s: seq<byte>): Option<seq<byte>> {
    if s == [] then Some([])
    else if |s| < 8 then None
    else
      var n := LE32(s[4..8]);
      var k := 8 + n + n % 2;
      if k > |s| then None
      else match Emit(s[k..])
           case None => None
           case Some(e) => Some((if IsDropped(s[..4]) then [] else Patch(s[..k], n)) + e)
  }

  lemma PatchIsClean(s: seq<byte>, n: nat, k: nat)
    requires |s| >= 8 && n == LE32(s[4..8]) && k == 8 + n + n % 2 && k <= |s|
    ensures n < 0x1_0000_0000 && Patch(s[..k], n) == Layout(s[..4], CleanBody(s[..4], s[8..8 + n]), s[8 + n..k])
  {
    HeadLayout(s, n, k);
    PutLE32Unique(s[4..8]);
    var b := CleanBody(s[..4], s[8..8 + n]);
    assert |b| == n;
    assert Patch(s[..k], n) == s[..4] + s[4..8] + b + s[8 + n..k];
  }

  lemma {:induction false} EmitIsStripped(s: seq<byte>)
    ensures Emit(s).None? == ParseTail(s).None?
    ensures ParseTail(s).Some? ==>
              WellFormed(ParseTail(s).value) && Emit(s).value == PrintTail(Stripped(ParseTail(s).value))
  {
    if ParseTail(s).Some? { TailIsPrinted(s); }
    if |s| >= 8 {
      var n := LE32(s[4..8]);
      var k := 8 + n + n % 2;
      if k <= |s| {
        PatchIsClean(s, n, k);
        EmitIsStripped(s[k..]);
      }
    }
  }

  /** What the walk returns when `out` is written and `s` is left. */
  ghost predicate Yields(out: seq<byte>, s: seq<byte>, result: Option<seq<byte>>) {
    match Emit(s)
    case None => result == None
    case Some(e) => result == Some(out + e)
  }

  lemma YieldsStep(out: seq<byte>, s: seq<byte>, n: nat, k: nat, result: Option<seq<byte>>)
    requires |s| >= 8 && n == LE32(s[4..8]) && k == 8 + n + n % 2 && k <= |s|
    ensures Yields(out, s, result) ==
            Yields(out + (if IsDropped(s[..4]) then [] else Patch(s[..k], n)), s[k..], result)
  {
    if Emit(s[k..]).Some? {
      var e, h := Emit(s[k..]).value, if IsDropped(s[..4]) then [] else Patch(s[..k], n);
      assert out + (h + e) == (out + h) + e;
    }
  }

  lemma YieldsNothing(out: seq<byte>, s: seq<byte>)
    requires s != [] && (|s| < 8 || 8 + LE32(s[4..8]) + LE32(s[4..8]) % 2 > |s|)
    ensures Yields(out, s, None)
  {
  }

  lemma YieldsAll(out: seq<byte>)
    ensures Yields(out, [], Some(out))
  {
    assert out + [] == out;
  }

  /** Patching the size over the walked buffer gives the stripped file. */
  lemma FinishIsStrip(data: seq<byte>, e: seq<byte>)
    requires HasHeader(data) && Emit(data[12..]) == Some(e)
    ensures var out := data[..12] + e; out[..4] + SizeField(|out| - 8) + out[8..] == Strip(data)
  {
    hide SizeField;
    hide Emit;
    hide ParseTail;
    hide PrintTail;
    var out, size := data[..12] + e, SizeField(4 + |e|);
    EmitIsStripped(data[12..]);
    assert out[8..] == data[8..12] + e;
    assert out[..4] + size + out[8..] == data[..4] + size + data[8..12] + e;
  }

  /** stripWebP: the chunk walk, then the size field patched over the copied header. */
  method StripWebP(data: seq<byte>) returns (out: seq<byte>)
    ensures out == Strip(data)
  {
    if |data| < 12 || data[..4] != RIFF || data[8..12] != WEBP {
      return data;
    }
    var walked := WalkChunks(data);
    if walked.None? {
      EmitIsStripped(data[12..]);
      return data;
    }
    FinishIsStrip(data, Emit(data[12..]).value);
    out := walked.value;
    var size := EncodeLE32((|out| - 8) % 0x1_0000_0000);
    out := out[..4] + size + out[8..];
  }

  /** The chunk loop of stripWebP; None is its "return data" on a structural surprise. */
  method WalkChunks(data: seq<byte>) returns (result: Option<seq<byte>>)
    requires |data| >= 12
    ensures Yields(data[..12], data[12..], result)
  {
    hide Yields;
    hide LE32;
    hide Patch;
    hide IsDropped;
    var out := data[..12];
    var i := 12;
    ghost var s := data[i..];  // what is still to walk
    while i < |data|
      invariant 12 <= i <= |data| && s == data[i..]
      invariant forall r :: Yields(out, s, r) ==> Yields(data[..12], data[12..], r)
    {
      if i + 8 > |data| {
        YieldsNothing(out, s);
        return None;
      }
      var fourCC := data[i..i + 4];
      assert fourCC == s[..4] && data[i + 4..i + 8] == s[4..8];
      var size := LE32(data[i + 4..i + 8]);
      var padded := size + size % 2;
      if i + 8 + padded > |data| {
        YieldsNothing(out, s);
        return None;
      }
      forall r { YieldsStep(out, s, size, 8 + padded, r); }
      if !IsDropped(fourCC) {
        out := AppendChunk(out, data[i..i + 8 + padded], size);
        assert data[i..i + 8 + padded] == s[..8 + padded];
      } else {
        assert out + [] == out;
      }
      i := i + 8 + padded;
      s := s[8 + padded..];
    }
    YieldsAll(out);
    return Some(out);
  }

  /** Appends a kept chunk and clears the VP8X flags where they landed in the buffer. */
  method AppendChunk(buffer: seq<byte>, chunk: seq<byte>, size: nat) returns (out: seq<byte>)
    requires |chunk| >= 8 + size
    ensures out == buffer + Patch(chunk, size)
  {
    var start := |buffer|;
    out := buffer + chunk;
    if chunk[..4] == VP8X && size > 0 {
      out := out[start + 8 := ClearFlags(out[start + 8])];
    }
  }
}
