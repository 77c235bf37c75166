/** Byte-level fields of the detailed log: little-endian integers, the 1/3/7-byte
    variable-length integer and length-prefixed strings, each with its reader. */
module LogBytes {

  type Byte = b: int | 0 <= b < 256

  const U32 := 0x1_0000_0000
  const U64 := 0x1_0000_0000_0000_0000

  /** As much of the bytes as there is room for. */
  function Fitting(bytes: seq<Byte>, room: nat): (s: seq<Byte>)
    ensures |bytes| <= room ==> s == bytes
  {
    if |bytes| <= room then bytes else bytes[..room]
  }

  /** The result of a read: failing reads may still have consumed input. */
  datatype Parse<T> = Fail(rest: seq<Byte>) | Got(value: T, rest: seq<Byte>)

  /** The low `width` bytes of n, in two's complement when n is negative. */
  function LittleEndian(n: int, width: nat): (s: seq<Byte>)
    ensures |s| == width
    decreases width
  {
    if width == 0 then [] else [n % 256] + LittleEndian(n / 256, width - 1)
  }

  function FromLittleEndian(s: seq<Byte>): nat {
    if s == [] then 0 else s[0] + 256 * FromLittleEndian(s[1..])
  }

  function Pow256(width: nat): nat {
    if width == 0 then 1 else 256 * Pow256(width - 1)
  }

  /** A field holds a number up to the field's width. */
  lemma {:induction false} LittleEndianRoundTrip(n: int, width: nat)
    ensures Pow256(width) > 0 && FromLittleEndian(LittleEndian(n, width)) == n % Pow256(width)
    decreases width
  {
    if width > 0 {
      var more := n / 256;
      LittleEndianRoundTrip(more, width - 1);
      assert LittleEndian(n, width)[1..] == LittleEndian(more, width - 1);
      WiderResidue(n, more, n % 256, Pow256(width - 1));
    }
  }

  /** The low byte comes first. */
  lemma {:induction false} LittleEndianAt(n: int, width: nat, k: nat)
    requires k < width
    ensures Pow256(k) > 0 && LittleEndian(n, width)[k] == n / Pow256(k) % 256
    decreases k
  {
    if k > 0 {
      LittleEndianAt(n / 256, width - 1, k - 1);
      QuotientTwice(n, Pow256(k - 1));
    }
  }

  lemma QuotientTwice(n: int, p: int)
    requires p > 0
    ensures n / 256 / p == n / (256 * p)
  {
    var m := n / 256;
    var low, q, r := n % 256, m / p, m % p;
    assert m == p * q + r && n == 256 * m + low;
    assert n == 256 * (p * q + r) + low == (256 * p) * q + (256 * r + low) by {
      assert 256 * (p * q) == (256 * p) * q;
    }
    RemainderIs(n, 256 * p, q, 256 * r + low);
    SameQuotient(n, 256 * p, q, 256 * r + low);
  }

  lemma SameQuotient(n: int, d: int, q: int, r: nat)
    requires d > 0 && n == d * q + r && r < d && n % d == r
    ensures n / d == q
  {
    var q' := n / d;
    assert n == d * q' + r;
    assert d * (q - q') == d * q - d * q' == 0 && d * (q' - q) == 0;
    if q > q' {
      AtLeastOnce(d, q - q');
    } else if q < q' {
      AtLeastOnce(d, q' - q);
    }
  }

  lemma WiderResidue(n: int, more: int, low: nat, p: nat)
    requires n == 256 * more + low && low < 256 && p > 0
    ensures n % (256 * p) == low + 256 * (more % p)
  {
    var q, r := more / p, more % p;
    assert more == p * q + r;
    assert n == 256 * (p * q + r) + low == (256 * p) * q + (low + 256 * r) by {
      assert 256 * (p * q) == (256 * p) * q;
    }
    RemainderIs(n, 256 * p, q, low + 256 * r);
  }

  lemma RemainderIs(n: int, d: int, q: int, r: nat)
    requires d > 0 && n == d * q + r && r < d
    ensures n % d == r
  {
    var q', r' := n / d, n % d;
    assert d * q' + r' == d * q + r;
    assert d * (q - q') == d * q - d * q' && d * (q' - q) == d * q' - d * q;
    if q > q' {
      AtLeastOnce(d, q - q');
    } else if q < q' {
      AtLeastOnce(d, q' - q);
    }
  }

  lemma AtLeastOnce(d: int, k: int)
    requires d > 0 && k >= 1
    ensures d * k >= d
  {
  }

  lemma FixedWidths()
    ensures Pow256(2) == 0x1_0000 && Pow256(4) == U32 && Pow256(8) == U64
  {
    assert Pow256(4) == 256 * 256 * Pow256(2);
    assert Pow256(6) == 256 * 256 * Pow256(4);
  }

  /** A field packed above `low` in one byte keeps what fits, in two's complement. */
  lemma PackedFive(low: nat, field: int)
    requires low < 8
    ensures (low + 8 * field) % 256 == low + 8 * (field % 32)
  {
    Residue(low + 8 * field, field / 32, low + 8 * (field % 32));
  }

  lemma PackedFour(low: nat, field: int)
    requires low < 16
    ensures (low + 16 * field) % 256 == low + 16 * (field % 16)
  {
    Residue(low + 16 * field, field / 16, low + 16 * (field % 16));
  }

  lemma Residue(n: int, q: int, r: nat)
    requires n == 256 * q + r && r < 256
    ensures n % 256 == r
  {
  }

  // ---- Variable-length integers ----

  function VarInt(n: nat): seq<Byte>
    requires n < U32
  {
    if n < 0xff then [n]
    else if n < 0xffff then [0xff] + LittleEndian(n, 2)
    else [0xff] + LittleEndian(0xffff, 2) + LittleEndian(n, 4)
  }

  /** Byte k of the seven-byte peek buffer, zero where nothing was peeked. */
  function Peeked(s: seq<Byte>, k: nat): Byte {
    if k < |s| then s[k] else 0
  }

  function ReadVarInt(s: seq<Byte>): (p: Parse<nat>)
    ensures p.Fail? ==> p.rest == s
    ensures p.Got? ==> |p.rest| < |s|
  {
    if Peeked(s, 0) != 0xff && |s| >= 1 then Got(s[0], s[1..])
    else if (Peeked(s, 1) != 0xff || Peeked(s, 2) != 0xff) && |s| >= 3 then Got(FromLittleEndian(s[1..3]), s[3..])
    else if |s| >= 7 then Got(FromLittleEndian(s[3..7]), s[7..])
    else Fail(s)
  }

  lemma VarIntRoundTrip(n: nat, tail: seq<Byte>)
    requires n < U32
    ensures ReadVarInt(VarInt(n) + tail) == Got(n, tail)
  {
    var s := VarInt(n) + tail;
    FixedWidths();
    if n < 0xff {
      assert s[1..] == tail;
    } else if n < 0xffff {
      LittleEndianRoundTrip(n, 2);
      assert s[1..3] == LittleEndian(n, 2) && s[3..] == tail;
      Tagged(n);
    } else {
      LittleEndianRoundTrip(n, 4);
      Tagged(0xffff);
      assert s[1] == LittleEndian(0xffff, 2)[0] && s[2] == LittleEndian(0xffff, 2)[1];
      assert s[3..7] == LittleEndian(n, 4) && s[7..] == tail;
    }
  }

  lemma OneByteVarInt(b: Byte, tail: seq<Byte>)
    requires b < 0xff
    ensures ReadVarInt([b] + tail) == Got(b, tail)
  {
    assert ([b] + tail)[1..] == tail;
  }

  /** Two bytes are both 0xff only for the escape value. */
  lemma Tagged(n: nat)
    requires n <= 0xffff
    ensures LittleEndian(n, 2) == [n % 256, n / 256]
    ensures n == 0xffff <==> (LittleEndian(n, 2)[0] == 0xff && LittleEndian(n, 2)[1] == 0xff)
  {
    assert LittleEndian(n / 256, 1) == [n / 256 % 256] + LittleEndian(n / 256 / 256, 0);
  }

  /** A value is never read from fewer bytes than the writer spends on it. */
  lemma VarIntIsShortest(s: seq<Byte>)
    requires ReadVarInt(s).Got? && ReadVarInt(s).value < U32
    ensures |s| - |ReadVarInt(s).rest| >= |VarInt(ReadVarInt(s).value)|
  {
    if |s| >= 3 {
      assert s[1..3] == [s[1], s[2]] && s[1..3][1..] == [s[2]] && [s[2]][1..] == [];
      assert FromLittleEndian([s[2]]) == s[2];
      var low: int, high: int := s[1], s[2];
      assert FromLittleEndian(s[1..3]) == low + 256 * high;
    }
  }

  // ---- Bytes and strings ----

  /** A short read takes what there is and fails. */
  function ReadBytes(s: seq<Byte>, count: nat): Parse<seq<Byte>> {
    if |s| >= count then Got(s[..count], s[count..]) else Fail([])
  }

  lemma BytesRoundTrip(bytes: seq<Byte>, tail: seq<Byte>)
    ensures ReadBytes(bytes + tail, |bytes|) == Got(bytes, tail)
  {
    assert (bytes + tail)[..|bytes|] == bytes && (bytes + tail)[|bytes|..] == tail;
  }

  function ReadU8(s: seq<Byte>): Parse<Byte> {
    if |s| >= 1 then Got(s[0], s[1..]) else Fail([])
  }

  lemma U8RoundTrip(b: Byte, tail: seq<Byte>)
    ensures ReadU8([b] + tail) == Got(b, tail)
  {
    assert ([b] + tail)[1..] == tail;
  }

  function ReadU64(s: seq<Byte>): Parse<nat> {
    if |s| >= 8 then Got(FromLittleEndian(s[..8]), s[8..]) else Fail([])
  }

  /** The length field keeps the low 32 bits of the length. */
  function String(bytes: seq<Byte>): (s: seq<Byte>)
    ensures |s| > |bytes|
  {
    VarInt(|bytes| % U32) + bytes
  }

  function ReadString(s: seq<Byte>): (p: Parse<seq<Byte>>)
    ensures |p.rest| <= |s| && (p.Got? ==> |p.rest| < |s|)
  {
    var length := ReadVarInt(s);
    if length.Fail? then Fail(length.rest) else ReadBytes(length.rest, length.value)
  }

  lemma StringRoundTrip(bytes: seq<Byte>, tail: seq<Byte>)
    requires |bytes| < U32
    ensures ReadString(String(bytes) + tail) == Got(bytes, tail)
  {
    hide VarInt, ReadVarInt;
    VarIntRoundTrip(|bytes|, bytes + tail);
    assert String(bytes) + tail == VarInt(|bytes|) + (bytes + tail);
    BytesRoundTrip(bytes, tail);
  }

  lemma U64RoundTrip(n: int, tail: seq<Byte>)
    ensures ReadU64(LittleEndian(n, 8) + tail) == Got(n % U64, tail)
  {
    FixedWidths();
    LittleEndianRoundTrip(n, 8);
    var s := LittleEndian(n, 8) + tail;
    assert s[..8] == LittleEndian(n, 8) && s[8..] == tail;
  }
}
