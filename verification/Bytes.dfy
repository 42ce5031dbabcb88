/** Byte strings and the fixed-width integers the binary formats carry. */
module Bytes {

  type byte = b: int | 0 <= b < 256

  datatype Option<+T> = None | Some(value: T)

  /** Big-endian 16 bits, `binary.BigEndian.Uint16`. */
  function BE16(b0: byte, b1: byte): nat { 256 * (b0 as int) + b1 as int }

  function PutBE16(n: nat): (s: seq<byte>)
    requires n < 0x1_0000
    ensures |s| == 2 && BE16(s[0], s[1]) == n
  {
    [n / 256, n % 256]
  }

  /** Big-endian 32 bits, `binary.BigEndian.Uint32`. */
  function BE32(s: seq<byte>): nat
    requires |s| == 4
  {
    0x100_0000 * (s[0] as int) + 0x1_0000 * (s[1] as int) + 0x100 * (s[2] as int) + s[3] as int
  }

  /** Little-endian 32 bits, `binary.LittleEndian.Uint32`. */
  function LE32(s: seq<byte>): nat
    requires |s| == 4
  {
    0x100_0000 * (s[3] as int) + 0x1_0000 * (s[2] as int) + 0x100 * (s[1] as int) + s[0] as int
  }

  /** The four big-endian bytes of a number, computed. */
  function Digits32(n: nat): (s: seq<byte>)
    requires n < 0x1_0000_0000
    ensures |s| == 4
  {
    var hi, lo := n / 0x1_0000, n % 0x1_0000;
    [hi / 0x100, hi % 0x100, lo / 0x100, lo % 0x100]
  }

  lemma Digits32Decode(n: nat)
    requires n < 0x1_0000_0000
    ensures BE32(Digits32(n)) == n
  {
    var hi, lo := n / 0x1_0000, n % 0x1_0000;
    assert 0x100 * (hi / 0x100) + hi % 0x100 == hi && 0x100 * (lo / 0x100) + lo % 0x100 == lo;
    assert 0x1_0000 * hi + lo == n;
  }

  /** The four bytes that decode to n: all that a format's layout says of them. */
  ghost function PutBE32(n: nat): (s: seq<byte>)
    requires n < 0x1_0000_0000
    ensures |s| == 4 && BE32(s) == n
  {
    Digits32Decode(n);
    var s: seq<byte> :| |s| == 4 && BE32(s) == n;
    s
  }

  ghost function PutLE32(n: nat): (s: seq<byte>)
    requires n < 0x1_0000_0000
    ensures |s| == 4 && LE32(s) == n
  {
    Digits32Decode(n);
    var b := Digits32(n);
    assert LE32([b[3], b[2], b[1], b[0]]) == n;
    var s: seq<byte> :| |s| == 4 && LE32(s) == n;
    s
  }

  /** Bytes are exactly the encoding of the number they decode to. */
  lemma PutBE16Unique(b0: byte, b1: byte)
    ensures BE16(b0, b1) < 0x1_0000 && PutBE16(BE16(b0, b1)) == [b0, b1]
  {
  }

  lemma BE32Injective(s: seq<byte>, t: seq<byte>)
    requires |s| == 4 && |t| == 4 && BE32(s) == BE32(t)
    ensures s == t
  {
    assert s[0] == t[0] && s[1] == t[1] && s[2] == t[2] && s[3] == t[3];
  }

  lemma PutBE32Unique(s: seq<byte>)
    requires |s| == 4
    ensures BE32(s) < 0x1_0000_0000 && PutBE32(BE32(s)) == s
  {
    BE32Injective(s, PutBE32(BE32(s)));
  }

  lemma PutLE32Unique(s: seq<byte>)
    requires |s| == 4
    ensures LE32(s) < 0x1_0000_0000 && PutLE32(LE32(s)) == s
  {
    var t := PutLE32(LE32(s));
    BE32Injective([s[3], s[2], s[1], s[0]], [t[3], t[2], t[1], t[0]]);
    assert s[0] == t[0] && s[1] == t[1] && s[2] == t[2] && s[3] == t[3];
  }

  /** `binary.LittleEndian.PutUint32`. */
  method EncodeLE32(n: nat) returns (s: seq<byte>)
    requires n < 0x1_0000_0000
    ensures s == PutLE32(n)
  {
    var b := Digits32(n);
    s := [b[3], b[2], b[1], b[0]];
    Digits32Decode(n);
    PutLE32Unique(s);
  }

  /** The five parts of a concatenation are the slices its lengths cut. */
  lemma FiveParts(a: seq<byte>, b: seq<byte>, c: seq<byte>, d: seq<byte>, r: seq<byte>)
    ensures var s := a + b + c + d + r;
            var j := |a| + |b|;
            var k := j + |c|;
            && s[..|a|] == a && s[|a|..j] == b && s[j..k] == c && s[k..k + |d|] == d && s[k + |d|..] == r
  {
    var s := a + b + c + d + r;
    var j := |a| + |b|;
    assert s[..j] == a + b;
    assert (a + b + c)[j..] == c;
    assert s[..j + |c|] == a + b + c;
  }
}
