/** The detailed log's format, byte by byte. */
module LogWire {
  import opened LogBytes
  import opened LogCodec

  /** Numbers of up to 254, up to 65534, and larger ones. */
  lemma NumberBytes()
    ensures VarInt(0) == [0] && VarInt(0xfe) == [0xfe]
    ensures VarInt(0xff) == [0xff, 0xff, 0] && VarInt(0x1234) == [0xff, 0x34, 0x12] && VarInt(0xfffe) == [0xff, 0xfe, 0xff]
    ensures VarInt(0xffff) == [0xff, 0xff, 0xff, 0xff, 0xff, 0, 0]
    ensures VarInt(0x12345678) == [0xff, 0xff, 0xff, 0x78, 0x56, 0x34, 0x12]
  {
    TwoBytes(0xff);
    TwoBytes(0x1234);
    TwoBytes(0xfffe);
    TwoBytes(0xffff);
    FourBytes(0xffff);
    FourBytes(0x12345678);
  }

  lemma TwoBytes(n: nat)
    requires n < 0x1_0000
    ensures LittleEndian(n, 2) == [n % 256, n / 256]
  {
    assert LittleEndian(n / 256, 1) == [n / 256 % 256] + LittleEndian(n / 256 / 256, 0);
  }

  lemma FourBytes(n: nat)
    requires n < U32
    ensures LittleEndian(n, 4) == [n % 256, n / 256 % 256, n / 0x1_0000 % 256, n / 0x100_0000]
  {
    TwoBytes(n / 0x1_0000);
    assert LittleEndian(n, 4) == [n % 256] + LittleEndian(n / 256, 3);
    assert LittleEndian(n / 256, 3) == [n / 256 % 256] + LittleEndian(n / 256 / 256, 2);
  }

  lemma LowByteFirst(n: nat, more: nat, width: nat)
    requires more == n / 256
    ensures LittleEndian(n, width + 1) == [n % 256] + LittleEndian(more, width)
  {
  }

  lemma EightBytes(n: nat)
    requires n < U32
    ensures LittleEndian(n, 8) == [n % 256, n / 256 % 256, n / 0x1_0000 % 256, n / 0x100_0000, 0, 0, 0, 0]
  {
    hide LittleEndian;
    FourBytes(0);
    LowByteFirst(n, n / 256, 7);
    LowByteFirst(n / 256, n / 0x1_0000, 6);
    LowByteFirst(n / 0x1_0000, n / 0x100_0000, 5);
    LowByteFirst(n / 0x100_0000, 0, 4);
  }

  /** A message five seconds after the last one, of each type: the code in the low three bits and the
      seconds above, or 0xff and the whole time. */
  lemma TypeBytes()
    ensures Stamp(Debug, 0, 5000) == [0x28] && Stamp(Info, 0, 5000) == [0x29]
    ensures Stamp(Warning, 0, 5000) == [0x2a] && Stamp(Critical, 0, 5000) == [0x2b]
    ensures Stamp(Fatal, 0, 5000) == [0xff, 5, 0, 0, 0, 0, 0, 0, 0]
  {
    EightBytes(5);
  }

  /** Deltas of 28 and 29 seconds, of five minutes, and of more than 65535 seconds. */
  lemma DeltaBytes()
    ensures Stamp(Debug, 0, 28000) == [0xe0] && Stamp(Debug, 0, 29000) == [0xe8, 29]
    ensures Stamp(Debug, 0, 300000) == [0xe8, 0xff, 0x2c, 1]
    ensures Stamp(Debug, 1000, 65537000) == [0xf0, 1, 0, 1, 0, 0, 0, 0, 0]
  {
    TwoBytes(300);
    EightBytes(65537);
    assert SecsTo(1000, 65537000) == 65536;
  }

  /** Back-references: index and seconds in one byte while both are below 16. */
  lemma RecentBytes()
    ensures Recent(2, 3) == [1, 0x32] && Recent(15, 15) == [1, 0xff]
    ensures Recent(16, 3) == [2, 16, 3] && Recent(2, 300) == [2, 2, 0xff, 0x2c, 1]
  {
    TwoBytes(300);
  }

  /** Each flag has its bit, and no other bit is set. */
  lemma FilterBits(f: CategoryFilter)
    ensures var flags := FlagsOf(f);
      && flags < 16
      && (flags % 2 == 1 <==> f.debug) && (flags / 2 % 2 == 1 <==> f.info)
      && (flags / 4 % 2 == 1 <==> f.warn) && (flags / 8 % 2 == 1 <==> f.critical)
  {
  }

  /** A whole first message: category "ab" is registered with id 3, then comes a warning, "hi". */
  lemma FirstMessageBytes()
    ensures Encode(FRESH_WRITER, LogMessage(Warning, [97, 98], [104, 105], 5000), CategoryFilter(true, false, false, true))
      == [0, 2, 97, 98, 9] + [3, 0x2a, 2, 104, 105]
  {
    hide Stamp, String;
    var m := LogMessage(Warning, [97, 98], [104, 105], 5000);
    TypeBytes();
    ShortString([97, 98]);
    ShortString([104, 105]);
    assert !Registered([], m.category) && Find([], m) == -1;
    assert Registration(m.category, CategoryFilter(true, false, false, true)) == [0, 2, 97, 98, 9];
    assert Fresh(FRESH_WRITER, m) == [3] + ([0x2a] + [2, 104, 105]);
  }

  lemma ShortString(s: seq<Byte>)
    requires |s| < 0xff
    ensures String(s) == [|s|] + s
  {
  }

  // ---- Input no writer writes ----

  /** Type codes that stand for nothing read as information. */
  lemma UnknownTypes(code: nat)
    requires code > 3
    ensures TypeOfCompressed(code) == Info
  {
  }

  /** A reference past the window fails, with its bytes consumed. */
  lemma RecentOutOfWindow(rs: ReaderState, index: Byte, seconds: nat, tail: seq<Byte>)
    requires |rs.window| <= index && seconds < U32
    ensures Read(rs, [2, index] + VarInt(seconds) + tail) == Failed(rs, tail)
    ensures index < 16 && seconds < 16 ==> Read(rs, [1, index + 16 * seconds] + tail) == Failed(rs, tail)
  {
    hide VarInt, ReadVarInt;
    OneByteVarInt(2, [index] + (VarInt(seconds) + tail));
    assert [2, index] + VarInt(seconds) + tail == [2] + ([index] + (VarInt(seconds) + tail));
    U8RoundTrip(index, VarInt(seconds) + tail);
    VarIntRoundTrip(seconds, tail);
    if index < 16 && seconds < 16 {
      OneByteVarInt(1, [index + 16 * seconds] + tail);
      assert [1, index + 16 * seconds] + tail == [1] + ([index + 16 * seconds] + tail);
      U8RoundTrip(index + 16 * seconds, tail);
      assert (index + 16 * seconds) % 16 == index;
    }
  }

  /** A category that was never registered reads as an empty one. */
  lemma UnknownCategory(rs: ReaderState, body: seq<Byte>, tail: seq<Byte>)
    requires rs.categories == [] && |body| < U32
    ensures Read(rs, [3, 0x2a] + String(body) + tail)
      == Deliver(rs, LogMessage(Warning, [], body, rs.lastTime + 5000, 0), tail)
  {
    hide VarInt, ReadVarInt, String, ReadString;
    OneByteVarInt(3, [0x2a] + (String(body) + tail));
    assert [3, 0x2a] + String(body) + tail == [3] + ([0x2a] + (String(body) + tail));
    U8RoundTrip(0x2a, String(body) + tail);
    StringRoundTrip(body, tail);
  }
}
