/**
 JPEG metadata removal (server/internal/httpserver/images.go, stripJPEG).

 The independent view of a JPEG is a list of marker segments that ends in
 everything from the first scan header on. `Print` lays one out as bytes (ITU-T
 T.81 section B.1.1.4: FF, marker, a two-byte length counting itself). The
 stripper is proved to be parse, filter, print against that view.
 */
module JpegStripper {
  import opened Bytes

  const PREFIX: byte := 0xFF
  const SOI: byte := 0xD8
  const SOS: byte := 0xDA
  const COM: byte := 0xFE
  const APP0: byte := 0xE0
  const APP15: byte := 0xEF

  datatype Jpeg = Scan(bytes: seq<byte>) | Segment(marker: byte, payload: seq<byte>, rest: Jpeg)

  predicate IsMetadata(marker: byte) { APP0 <= marker <= APP15 || marker == COM }

  ghost predicate WellFormed(j: Jpeg) {
    match j
    case Scan(b) => |b| >= 4 && b[0] == 0xFF && b[1] == 0xDA
    case Segment(m, p, rest) => m != 0xDA && |p| + 2 < 0x1_0000 && WellFormed(rest)
  }

  ghost function Header(marker: byte, size: nat): (s: seq<byte>)
    requires size + 2 < 0x1_0000
  {
    [0xFF, marker] + PutBE16(size + 2)
  }

  ghost function PrintTail(j: Jpeg): seq<byte>
    requires WellFormed(j)
  {
    match j
    case Scan(b) => b
    case Segment(m, p, rest) => Header(m, |p|) + p + PrintTail(rest)
  }

  ghost function Print(j: Jpeg): seq<byte>
    requires WellFormed(j)
  {
    [0xFF, 0xD8] + PrintTail(j)
  }

  /** The marker segments in order, and the bytes from the first scan header on. */
  ghost function Listed(j: Jpeg): seq<(byte, seq<byte>)> {
    if j.Scan? then [] else [(j.marker, j.payload)] + Listed(j.rest)
  }

  ghost function ScanOf(j: Jpeg): seq<byte> { if j.Scan? then j.bytes else ScanOf(j.rest) }

  /** The segments whose marker is neither within low..high nor the one named, in order. */
  ghost function Without(segments: seq<(byte, seq<byte>)>, low: byte, high: byte, named: byte): seq<(byte, seq<byte>)> {
    if segments == [] then []
    else
      (if low <= segments[0].0 <= high || segments[0].0 == named then [] else [segments[0]])
      + Without(segments[1..], low, high, named)
  }

  /** The same file without its APPn and comment segments. */
  ghost function Stripped(j: Jpeg): (r: Jpeg)
    ensures WellFormed(j) ==> WellFormed(r)
  {
    match j
    case Scan(_) => j
    case Segment(m, p, rest) => if IsMetadata(m) then Stripped(rest) else Segment(m, p, Stripped(rest))
  }

  // ----- the walk, as a parser of what follows the start-of-image marker

  ghost function ParseTail(s: seq<byte>): Option<Jpeg> {
    if |s| < 4 || s[0] != PREFIX then None
    else if s[1] == SOS then Some(Scan(s))
    else
      var n := BE16(s[2], s[3]);
      if n < 2 || 2 + n > |s| then None
      else match ParseTail(s[2 + n..])
           case None => None
           case Some(j) => Some(Segment(s[1], s[4..2 + n], j))
  }

  ghost function Parse(data: seq<byte>): Option<Jpeg> {
    if |data| < 2 || data[0] != PREFIX || data[1] != SOI then None else ParseTail(data[2..])
  }

  ghost function Strip(data: seq<byte>): seq<byte> {
    match Parse(data)
    case None => data
    case Some(j) => ParsedIsPrinted(data); Print(Stripped(j))
  }

  lemma {:induction false} TailIsPrinted(s: seq<byte>)
    requires ParseTail(s).Some?
    ensures WellFormed(ParseTail(s).value) && PrintTail(ParseTail(s).value) == s
  {
    if s[1] != SOS {
      var n := BE16(s[2], s[3]);
      TailIsPrinted(s[2 + n..]);
      PutBE16Unique(s[2], s[3]);
      var p := s[4..2 + n];
      assert |p| + 2 == n;
      assert Header(s[1], |p|) == s[..4];
      assert s == s[..4] + p + s[2 + n..];
    }
  }

  lemma ParsedIsPrinted(data: seq<byte>)
    requires Parse(data).Some?
    ensures WellFormed(Parse(data).value) && Print(Parse(data).value) == data
  {
    TailIsPrinted(data[2..]);
    assert data == [PREFIX, SOI] + data[2..];
  }

  lemma {:induction false} PrintedTailIsParsed(j: Jpeg)
    requires WellFormed(j)
    ensures ParseTail(PrintTail(j)) == Some(j)
  {
    if j.Segment? {
      PrintedTailIsParsed(j.rest);
      var s := PrintTail(j);
      var n := |j.payload| + 2;
      var h := Header(j.marker, |j.payload|);
      assert s[..4] == h;
      assert s[2] == h[2] && s[3] == h[3];
      assert s[4..2 + n] == j.payload;
      assert s[2 + n..] == PrintTail(j.rest);
    }
  }

  /** Printing is uniquely decodable, and the walk is what decodes it. */
  lemma PrintedIsParsed(j: Jpeg)
    requires WellFormed(j)
    ensures Parse(Print(j)) == Some(j)
  {
    PrintedTailIsParsed(j);
    assert Print(j)[2..] == PrintTail(j);
  }

  lemma {:induction false} StrippedFacts(j: Jpeg)
    requires WellFormed(j)
    ensures Stripped(Stripped(j)) == Stripped(j)
    ensures |PrintTail(Stripped(j))| <= |PrintTail(j)|
  {
    if j.Segment? { StrippedFacts(j.rest); }
  }

  /**
   What the stripper does to every byte string, in terms of printing alone: a
   file that is some JPEG's layout comes back as that JPEG without its APPn and
   comment segments, kept segments and the scan verbatim; anything else comes
   back untouched.
   */
  lemma StripRefinesFilter(data: seq<byte>)
    ensures forall j | WellFormed(j) && Print(j) == data :: Strip(data) == Print(Stripped(j))
    ensures (forall j | WellFormed(j) :: Print(j) != data) ==> Strip(data) == data
  {
    forall j | WellFormed(j) && Print(j) == data ensures Strip(data) == Print(Stripped(j)) {
      PrintedIsParsed(j);
    }
    if Parse(data).Some? { ParsedIsPrinted(data); }
  }

  lemma {:induction false} StrippedList(j: Jpeg)
    ensures Listed(Stripped(j)) == Without(Listed(j), 0xE0, 0xEF, 0xFE) && ScanOf(Stripped(j)) == ScanOf(j)
  {
    if j.Segment? {
      StrippedList(j.rest);
      assert Listed(j)[1..] == Listed(j.rest);
    }
  }

  lemma {:induction false} WithoutFacts(segments: seq<(byte, seq<byte>)>)
    ensures var kept := Without(segments, 0xE0, 0xEF, 0xFE);
            && (forall s | s in kept :: !(0xE0 <= s.0 <= 0xEF) && s.0 != 0xFE)
            && |kept| <= |segments|
            && (kept == segments <==> forall s | s in segments :: !(0xE0 <= s.0 <= 0xEF) && s.0 != 0xFE)
  {
    if segments != [] {
      WithoutFacts(segments[1..]);
      assert segments == [segments[0]] + segments[1..];
    }
  }

  /**
   Which segments go: the output of every laid-out JPEG is the layout of its
   segments with a marker outside 0xE0..0xEF and other than 0xFE, in order, and of
   the same scan; it is the input exactly when no segment has such a marker.
   */
  lemma StripDropsMetadata(data: seq<byte>, j: Jpeg) returns (k: Jpeg)
    requires WellFormed(j) && Print(j) == data
    ensures WellFormed(k) && Strip(data) == Print(k) && ScanOf(k) == ScanOf(j)
    ensures Listed(k) == Without(Listed(j), 0xE0, 0xEF, 0xFE)
    ensures Strip(data) == data <==> forall s | s in Listed(j) :: !(0xE0 <= s.0 <= 0xEF) && s.0 != 0xFE
  {
    k := Stripped(j);
    StripRefinesFilter(data);
    StrippedList(j);
    WithoutFacts(Listed(j));
    if Listed(k) == Listed(j) { SameParts(k, j); }
    PrintedIsParsed(j);
    PrintedIsParsed(k);
  }

  /** The segments and the scan are all there is to a JPEG. */
  lemma {:induction false} SameParts(j: Jpeg, k: Jpeg)
    requires Listed(j) == Listed(k) && ScanOf(j) == ScanOf(k)
    ensures j == k
  {
    if j.Segment? && k.Segment? {
      assert Listed(j)[0] == Listed(k)[0] && Listed(j)[1..] == Listed(j.rest) && Listed(k)[1..] == Listed(k.rest);
      SameParts(j.rest, k.rest);
    }
  }

  /** Stripping twice is stripping once, never lengthens, and leaves no APPn or comment segment. */
  lemma StripIdempotent(data: seq<byte>)
    ensures Strip(Strip(data)) == Strip(data)
    ensures |Strip(data)| <= |data|
    ensures Parse(data).Some? ==>
              && Parse(Strip(data)).Some?
              && forall s | s in Listed(Parse(Strip(data)).value) :: !(0xE0 <= s.0 <= 0xEF) && s.0 != 0xFE
  {
    if Parse(data).Some? {
      var j := Parse(data).value;
      ParsedIsPrinted(data);
      PrintedIsParsed(Stripped(j));
      StrippedFacts(j);
      StrippedList(j);
      WithoutFacts(Listed(j));
    }
  }

  /** What the walk still has to emit when `s` is left, or None when it will give up. */
  ghost function Emit(s: seq<byte>): Option<seq<byte>> {
    if |s| < 4 || s[0] != PREFIX then None
    else if s[1] == SOS then Some(s)
    else
      var n := BE16(s[2], s[3]);
      if n < 2 || 2 + n > |s| then None
      else match Emit(s[2 + n..])
           case None => None
           case Some(e) => Some((if IsMetadata(s[1]) then [] else s[..2 + n]) + e)
  }

  lemma {:induction false} EmitIsStripped(s: seq<byte>)
    ensures Emit(s).None? == ParseTail(s).None?
    ensures ParseTail(s).Some? ==>
              WellFormed(ParseTail(s).value) && Emit(s).value == PrintTail(Stripped(ParseTail(s).value))
  {
    if ParseTail(s).Some? { TailIsPrinted(s); }
    if |s| >= 4 && s[0] == PREFIX && s[1] != SOS {
      var n := BE16(s[2], s[3]);
      if 2 <= n && 2 + n <= |s| {
        EmitIsStripped(s[2 + n..]);
        PutBE16Unique(s[2], s[3]);
        var p := s[4..2 + n];
        assert |p| + 2 == n;
        assert s[..2 + n] == Header(s[1], |p|) + p;
      }
    }
  }

  /** stripJPEG: one pass over the input with an output buffer. */
  method StripJpeg(data: seq<byte>) returns (out: seq<byte>)
    ensures out == Strip(data)
  {
    if |data| < 2 || data[0] != PREFIX || data[1] != SOI {
      return data;
    }
    EmitIsStripped(data[2..]);
    out := WalkSegments(data);
  }

  /** Whether the walk keeps the whole input when `out` is written and `s` is left, or what it returns. */
  ghost predicate Yields(data: seq<byte>, out: seq<byte>, s: seq<byte>, result: seq<byte>) {
    match Emit(s)
    case None => result == data
    case Some(e) => result == out + e
  }

  lemma YieldsStep(data: seq<byte>, out: seq<byte>, s: seq<byte>, n: nat, result: seq<byte>)
    requires |s| >= 4 && s[0] == PREFIX && s[1] != SOS
    requires n == BE16(s[2], s[3]) && 2 <= n && 2 + n <= |s|
    ensures Yields(data, out, s, result) ==
            Yields(data, out + (if IsMetadata(s[1]) then [] else s[..2 + n]), s[2 + n..], result)
  {
    if Emit(s[2 + n..]).Some? {
      var e, h := Emit(s[2 + n..]).value, if IsMetadata(s[1]) then [] else s[..2 + n];
      assert out + (h + e) == (out + h) + e;
    }
  }

  /** The segment loop of stripJPEG, entered after the start-of-image marker. */
  method WalkSegments(data: seq<byte>) returns (out: seq<byte>)
    requires |data| >= 2
    ensures Yields(data, data[..2], data[2..], out)
  {
    out := [data[0], data[1]];
    assert out == data[..2];
    var i := 2;
    ghost var s := data[i..];  // what is still to walk
    while true
      invariant 2 <= i <= |data| && s == data[i..]
      invariant forall r :: Yields(data, out, s, r) ==> Yields(data, data[..2], data[2..], r)
      decreases |data| - i
    {
      if i + 4 > |data| || data[i] != PREFIX {
        return data;
      }
      var marker := data[i + 1];
      if marker == SOS {
        return out + data[i..];
      }
      var length := BE16(data[i + 2], data[i + 3]);
      if length < 2 || i + 2 + length > |data| {
        return data;
      }
      forall r { YieldsStep(data, out, s, length, r); }
      var isAPPn := APP0 <= marker <= APP15;
      if !isAPPn && marker != COM {
        assert data[i..i + 2 + length] == s[..2 + length];
        out := out + data[i..i + 2 + length];
      } else {
        assert out + [] == out;
      }
      i := i + 2 + length;
      s := s[2 + length..];
    }
  }
}
