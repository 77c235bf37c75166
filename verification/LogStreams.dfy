/** The detailed log's writer and reader objects, proved against the codec's functions. */
module LogStreams {
  import opened LogBytes
  import opened LogCodec
  import LogRoundTrip
  import opened RingBuf

  /** A file with room for a number of bytes; reads start at `pos`. */
  class Device {
    var content: seq<Byte>
    var pos: nat
    var room: nat

    ghost predicate Valid()
      reads this
    {
      pos <= |content|
    }

    ghost function Remaining(): seq<Byte>
      requires Valid()
      reads this
    {
      content[pos..]
    }

    constructor (content: seq<Byte>, room: nat)
      ensures Valid() && this.content == content && pos == 0 && this.room == room
    {
      this.content, pos, this.room := content, 0, room;
    }

    method Write(bytes: seq<Byte>) returns (written: nat)
      requires Valid()
      modifies this`content, this`room
      ensures Valid() && written == |Fitting(bytes, old(room))| && room == old(room) - written
      ensures content == old(content) + Fitting(bytes, old(room))
      ensures Remaining() == old(Remaining()) + Fitting(bytes, old(room))
    {
      var taken := Fitting(bytes, room);
      written := |taken|;
      content := content + taken;
      room := room - written;
    }

    /** Up to `length` bytes, consumed. */
    method Read(length: nat) returns (bytes: seq<Byte>)
      requires Valid()
      modifies this`pos
      ensures Valid()
      ensures bytes == old(Remaining())[..if |old(Remaining())| < length then |old(Remaining())| else length]
      ensures Remaining() == old(Remaining())[|bytes|..]
    {
      var taken := if |content| - pos < length then |content| - pos else length;
      bytes := content[pos..pos + taken];
      pos := pos + taken;
    }

    /** Up to `length` bytes, not consumed. */
    method Peek(length: nat) returns (bytes: seq<Byte>)
      requires Valid()
      ensures bytes == Remaining()[..if |Remaining()| < length then |Remaining()| else length]
    {
      bytes := content[pos..pos + if |content| - pos < length then |content| - pos else length];
    }
  }

  // ---- Writer ----

  class WriteBuffer {
    var device: Device?
    var buffer: seq<Byte>

    constructor ()
      ensures device == null && buffer == []
    {
      device, buffer := null, [];
    }

    method WriteBytes(bytes: seq<Byte>)
      modifies this`buffer
      ensures buffer == old(buffer) + bytes
    {
      buffer := buffer + bytes;
    }

    method WriteU8(data: Byte)
      modifies this`buffer
      ensures buffer == old(buffer) + [data]
    {
      WriteBytes([data]);
    }

    /** The value is cut to the width of the field. */
    method WriteLittleEndian(data: int, width: nat)
      modifies this`buffer
      ensures buffer == old(buffer) + LittleEndian(data, width)
    {
      WriteBytes(LittleEndian(data, width));
    }

    method WriteVarInt(n: nat)
      requires n < U32
      modifies this`buffer
      ensures buffer == old(buffer) + VarInt(n)
    {
      if n < 0xff {
        WriteU8(n);
      } else if n < 0xffff {
        WriteU8(0xff);
        WriteLittleEndian(n, 2);
      } else {
        WriteU8(0xff);
        WriteLittleEndian(0xffff, 2);
        WriteLittleEndian(n, 4);
      }
    }

    method WriteString(bytes: seq<Byte>)
      modifies this`buffer
      ensures buffer == old(buffer) + String(bytes)
    {
      hide VarInt;
      WriteVarInt(|bytes| % U32);
      WriteBytes(bytes);
    }

    /** Fails on a short write; the buffer is emptied either way. */
    method Flush() returns (ok: bool)
      requires device != null && device.Valid()
      modifies this`buffer, device`content, device`room
      ensures buffer == [] && device.Valid() && (ok <==> |old(buffer)| <= old(device.room))
      ensures device.content == old(device.content) + Fitting(old(buffer), old(device.room))
      ensures device.Remaining() == old(device.Remaining()) + Fitting(old(buffer), old(device.room))
    {
      var written := device.Write(buffer);
      ok := written == |buffer|;
      buffer := [];
    }
  }

  /** The hash of names to ids holds exactly the registered categories, numbered in order. */
  ghost predicate Numbered(categories: map<seq<Byte>, nat>, registered: seq<Category>) {
    forall name ::
      && (name in categories <==> Registered(registered, name))
      && (name in categories ==> categories[name] == IdAt(Position(registered, name)))
  }

  lemma PositionGrows(registered: seq<Category>, c: Category, name: seq<Byte>)
    requires !Registered(registered, c.name)
    ensures Registered(registered + [c], name) <==> Registered(registered, name) || name == c.name
    ensures Registered(registered, name) ==> Position(registered + [c], name) == Position(registered, name)
    ensures Position(registered + [c], c.name) == Position(registered, c.name) == |registered|
  {
    hide Position, Registered;
    var grown := registered + [c];
    assert grown[..|registered|] == registered;
    var p, p' := Position(registered, name), Position(grown, name);
    if p' < |registered| {
      assert grown[p'] == registered[p'];
    }
    if p < |registered| {
      assert grown[p] == registered[p];
    }
    assert Position(registered, c.name) == |registered|;
    assert forall k :: 0 <= k < |registered| ==> grown[k] == registered[k];
    assert grown[|registered|] == c;
  }

  lemma NumberedGrows(categories: map<seq<Byte>, nat>, registered: seq<Category>, c: Category)
    requires Numbered(categories, registered) && c.name !in categories
    ensures Numbered(categories[c.name := IdAt(|registered|)], registered + [c])
  {
    hide Position, Registered, IdAt;
    forall name {
      PositionGrows(registered, c, name);
    }
  }

  /** A category that is known has its id; another one takes the next. */
  lemma CategoryStep(
    categories: map<seq<Byte>, nat>, registered: seq<Category>, next: nat, name: seq<Byte>, filter: CategoryFilter)
    requires Numbered(categories, registered) && next == IdAt(|registered|)
    ensures name in categories <==> Registered(registered, name)
    ensures name in categories ==> categories[name] == IdAt(Position(registered, name))
    ensures name !in categories ==>
      && next == IdAt(Position(registered, name))
      && Numbered(categories[name := next], registered + [Category(name, filter)])
      && (next + 1) % 0x1_0000 == IdAt(|registered + [Category(name, filter)]|)
    ensures Registration(name, filter) == [REGISTER_CATEGORY] + (String(name) + [FlagsOf(filter)])
  {
    hide String, Position, Registered, IdAt;
    if name !in categories {
      PositionGrows(registered, Category(name, filter), name);
      NumberedGrows(categories, registered, Category(name, filter));
      NextId(|registered|);
    }
  }

  lemma FindUnique(window: seq<LogMessage>, m: LogMessage, i: int)
    requires FirstMatch(window, Same, m, i)
    ensures i == Find(window, m)
  {
  }

  class EncodedLogWriter {
    const buffer: WriteBuffer
    const recentMessages: HashBuffer<LogMessage>
    var categories: map<seq<Byte>, nat>
    var nextCategory: nat
    var lastMessageTime: int
    // the categories in the order they were registered
    ghost var registered: seq<Category>

    ghost predicate Valid()
      reads this, buffer, buffer.device, recentMessages, recentMessages.ring, recentMessages.ring.data
    {
      && recentMessages.Valid() && recentMessages.eq == Same && recentMessages.ring.mCapacity == WINDOW_SIZE
      && Numbered(categories, registered) && nextCategory == IdAt(|registered|)
      && buffer.buffer == []
      && (buffer.device != null ==> buffer.device.Valid())
    }

    ghost function State(): WriterState
      requires recentMessages.Valid()
      reads this, recentMessages, recentMessages.ring, recentMessages.ring.data
    {
      WriterState(recentMessages.Window(), registered, lastMessageTime)
    }

    constructor (hash: LogMessage -> nat)
      requires HashRespects(hash, Same)
      ensures Valid() && State() == FRESH_WRITER && buffer.device == null
      ensures fresh(buffer) && fresh(recentMessages.ring) && fresh(recentMessages.ring.data)
    {
      buffer := new WriteBuffer();
      recentMessages := new HashBuffer(WINDOW_SIZE, hash, Same);
      categories, nextCategory, lastMessageTime := map[], BEGIN_CATEGORIES, FromSecs(0);
      registered := [];
    }

    method SetDevice(target: Device?)
      requires Valid() && (target != null ==> target.Valid())
      modifies buffer`device
      ensures Valid() && State() == old(State()) && buffer.device == target
    {
      buffer.device := target;
    }

    method WriteHeader() returns (ok: bool)
      requires Valid() && buffer.device != null
      modifies buffer`buffer, buffer.device`content, buffer.device`room
      ensures Valid() && State() == old(State()) && (ok <==> old(buffer.device.room) > 0)
      ensures buffer.device.content == old(buffer.device.content) + Fitting([2], old(buffer.device.room))
    {
      buffer.WriteU8(LOG_VERSION);
      ok := buffer.Flush();
    }

    method GetOrCreateCategory(category: seq<Byte>, filter: CategoryFilter) returns (id: nat)
      requires Numbered(categories, registered) && nextCategory == IdAt(|registered|)
      modifies this`categories, this`nextCategory, this`registered, buffer`buffer
      ensures Numbered(categories, registered) && nextCategory == IdAt(|registered|)
      ensures id == IdAt(Position(old(registered), category))
      ensures registered == old(registered)
        + if Registered(old(registered), category) then [] else [Category(category, filter)]
      ensures buffer.buffer == old(buffer.buffer)
        + if Registered(old(registered), category) then [] else Registration(category, filter)
    {
      hide Numbered, Position, Registered, IdAt, String, Registration, FlagsOf;
      CategoryStep(categories, registered, nextCategory, category, filter);
      if category in categories {
        id := categories[category];
      } else {
        buffer.WriteU8(REGISTER_CATEGORY);
        buffer.WriteString(category);
        id := nextCategory;
        nextCategory := (nextCategory + 1) % 0x1_0000;
        categories := categories[category := id];
        registered := registered + [Category(category, filter)];
        buffer.WriteU8(FlagsOf(filter));
      }
      assert buffer.buffer == old(buffer.buffer)
        + if category in old(categories) then [] else [REGISTER_CATEGORY] + (String(category) + [FlagsOf(filter)]);
    }

    /** Writes the message's type and time; bytes in disjoint bit positions are added. */
    method WriteStamp(message: LogMessage)
      modifies buffer`buffer
      ensures buffer.buffer == old(buffer.buffer) + Stamp(message.msgType, lastMessageTime, message.time)
    {
      hide LittleEndian, VarInt, ToSecs, SecsTo;
      if message.msgType.Fatal? {
        buffer.WriteU8(0xff);
        buffer.WriteLittleEndian(ToSecs(message.time), 8);
      } else {
        var field: int := CompressedTypeOf(message.msgType);
        var secondDelta := SecsTo(lastMessageTime, message.time);
        if secondDelta >= 0x1d {
          field := (field + 8 * if secondDelta < 0xffff then 0x1d else 0x1e) % 256;
        } else {
          field := (field + 8 * secondDelta) % 256;
        }

        buffer.WriteU8(field);

        if secondDelta >= 0x1d {
          if secondDelta > 0xffff {
            buffer.WriteLittleEndian(ToSecs(message.time), 8);
          } else {
            buffer.WriteVarInt(secondDelta);
          }
        }
      }
    }

    /** A back-reference into the window. */
    method WriteRecent(index: nat, secondDelta: int)
      modifies buffer`buffer
      ensures buffer.buffer == old(buffer.buffer) + Recent(index, secondDelta)
    {
      hide VarInt;
      if secondDelta < 16 && index < 16 {
        buffer.WriteU8(RECENT_MESSAGE_SHORT);
        buffer.WriteU8((index + 16 * secondDelta) % 256);
      } else {
        buffer.WriteU8(RECENT_MESSAGE_LONG);
        buffer.WriteU8(index % 256);
        buffer.WriteVarInt(secondDelta % U32);
      }
    }

    /** A message in full, after its category's registration if that is due. */
    method WriteFresh(message: LogMessage, filter: CategoryFilter)
      requires Numbered(categories, registered) && nextCategory == IdAt(|registered|)
      modifies this`categories, this`nextCategory, this`registered, buffer`buffer
      ensures Numbered(categories, registered) && nextCategory == IdAt(|registered|)
      ensures registered == old(registered)
        + if Registered(old(registered), message.category) then [] else [Category(message.category, filter)]
      ensures buffer.buffer == old(buffer.buffer)
        + (if Registered(old(registered), message.category) then [] else Registration(message.category, filter))
        + VarInt(IdAt(Position(old(registered), message.category)))
        + Stamp(message.msgType, lastMessageTime, message.time) + String(message.body)
    {
      hide VarInt, String, Stamp, Registration, Position, IdAt, Numbered, Registered;
      var categoryId := GetOrCreateCategory(message.category, filter);
      buffer.WriteVarInt(categoryId);
      WriteStamp(message);
      buffer.WriteString(message.body);
    }

    /** `filter` stands for the category's filter at the time of the call. When the device runs out
        of room the writer has moved on all the same. */
    method Write(message: LogMessage, filter: CategoryFilter) returns (ok: bool)
      requires Valid()
      modifies this, buffer, buffer.device, recentMessages.ring, recentMessages.ring.data
      ensures Valid() && buffer.device == old(buffer.device) && recentMessages.ring.data == old(recentMessages.ring.data)
      ensures buffer.device == null ==> !ok && State() == old(State())
      ensures buffer.device != null ==> State() == AfterWrite(old(State()), message, filter)
      ensures buffer.device != null ==>
        var bytes, room := Encode(old(State()), message, filter), old(buffer.device.room);
        && (ok <==> |bytes| <= room)
        && buffer.device.content == old(buffer.device.content) + Fitting(bytes, room)
        && buffer.device.Remaining() == old(buffer.device.Remaining()) + Fitting(bytes, room)
    {
      hide VarInt, String, Stamp, ToSecs, SecsTo, Registration, Position, IdAt, Pushed, FromSecs, Numbered, Recent, Find, Registered, Fitting;
      if buffer.device == null {
        return false;
      }

      ghost var was := State();
      var index := recentMessages.IndexOf(message);
      FindUnique(recentMessages.Window(), message, index);

      var body := message.body;
      if index != -1 {
        var prevMessage := recentMessages.At(index);
        body := prevMessage.body;
      }
      recentMessages.Emplace(LogMessage(message.msgType, message.category, body, message.time));

      if index != -1 {
        WriteRecent(index, SecsTo(lastMessageTime, message.time));
      } else {
        WriteFresh(message, filter);
      }
      assert buffer.buffer == Encode(was, message, filter);

      lastMessageTime := FromSecs(ToSecs(message.time));
      ok := buffer.Flush();
    }
  }

  lemma NextId(i: nat)
    ensures (IdAt(i) + 1) % 0x1_0000 == IdAt(i + 1)
  {
  }

  // ---- Reader ----

  class DeviceReader {
    var device: Device?

    constructor ()
      ensures device == null
    {
      device := null;
    }

    ghost predicate Ready()
      reads this, device
    {
      device != null && device.Valid()
    }

    ghost function Input(): seq<Byte>
      requires Ready()
      reads this, device
    {
      device.Remaining()
    }

    /** Fails on a short read, which still consumes what there is. */
    method ReadBytes(length: nat) returns (ok: bool, data: seq<Byte>)
      requires Ready()
      modifies device`pos
      ensures Ready()
      ensures var p := LogBytes.ReadBytes(old(Input()), length);
        ok == p.Got? && Input() == p.rest && (ok ==> data == p.value)
    {
      data := device.Read(length);
      ok := |data| == length;
    }

    method ReadU8() returns (ok: bool, data: Byte)
      requires Ready()
      modifies device`pos
      ensures Ready()
      ensures var p := LogBytes.ReadU8(old(Input()));
        ok == p.Got? && Input() == p.rest && (ok ==> data == p.value)
    {
      var bytes;
      ok, bytes := ReadBytes(1);
      data := if ok then bytes[0] else 0;
    }

    method ReadU64() returns (ok: bool, data: nat)
      requires Ready()
      modifies device`pos
      ensures Ready()
      ensures var p := LogBytes.ReadU64(old(Input()));
        ok == p.Got? && Input() == p.rest && (ok ==> data == p.value)
    {
      var bytes;
      ok, bytes := ReadBytes(8);
      data := if ok then FromLittleEndian(bytes) else 0;
    }

    method Skip(length: nat) returns (ok: bool)
      requires Ready()
      modifies device`pos
      ensures Ready()
      ensures ok == (|old(Input())| >= length)
      ensures ok ==> Input() == old(Input())[length..]
    {
      var bytes := device.Read(length);
      ok := |bytes| == length;
    }

    method ReadVarInt() returns (ok: bool, n: nat)
      requires Ready()
      modifies device`pos
      ensures Ready()
      ensures var p := LogBytes.ReadVarInt(old(Input()));
        ok == p.Got? && Input() == p.rest && (ok ==> n == p.value)
    {
      hide FromLittleEndian;
      // a zeroed buffer of seven bytes, filled as far as the peek reached
      var peeked := device.Peek(7);
      var readLength := |peeked|;
      var bytes := peeked + seq(7 - readLength, i => 0 as Byte);
      ghost var s := Input();
      assert readLength >= 3 ==> bytes[1..3] == s[1..3];
      assert readLength == 7 ==> bytes[3..7] == s[3..7];
      n := 0;

      if bytes[0] != 0xff && readLength >= 1 {
        n := bytes[0];
        ok := Skip(1);
      } else if (bytes[1] != 0xff || bytes[2] != 0xff) && readLength >= 3 {
        n := FromLittleEndian(bytes[1..3]);
        ok := Skip(3);
      } else if readLength == 7 {
        n := FromLittleEndian(bytes[3..7]);
        ok := Skip(7);
      } else {
        ok := false;
      }
    }

    method ReadString() returns (ok: bool, text: seq<Byte>)
      requires Ready()
      modifies device`pos
      ensures Ready()
      ensures var p := LogBytes.ReadString(old(Input()));
        ok == p.Got? && Input() == p.rest && (ok ==> text == p.value)
    {
      hide LogBytes.ReadVarInt;
      var length;
      text := [];
      ok, length := ReadVarInt();
      if ok {
        ok, text := ReadBytes(length);
      }
    }
  }

  class EncodedLogReader {
    const reader: DeviceReader
    const recentMessages: RingBuffer<LogMessage>
    var categories: seq<Category>
    var lastMessageTime: int

    ghost predicate Valid()
      reads this, reader, reader.device, recentMessages, recentMessages.data
    {
      && recentMessages.Valid() && recentMessages.mCapacity == WINDOW_SIZE
      && (reader.device != null ==> reader.device.Valid())
    }

    ghost function State(): ReaderState
      requires recentMessages.Valid()
      reads this, recentMessages, recentMessages.data
    {
      ReaderState(recentMessages.Window(), categories, lastMessageTime)
    }

    constructor ()
      ensures Valid() && State() == FRESH_READER && reader.device == null
      ensures fresh(reader) && fresh(recentMessages) && fresh(recentMessages.data)
    {
      reader := new DeviceReader();
      recentMessages := new RingBuffer(WINDOW_SIZE);
      categories, lastMessageTime := [], FromSecs(0);
    }

    method SetDevice(source: Device)
      requires Valid() && source.Valid()
      modifies reader`device
      ensures Valid() && State() == old(State()) && reader.device == source
    {
      reader.device := source;
    }

    /** The header's version byte must be the reader's own. */
    method ReadHeader() returns (ok: bool, success: bool, version: Byte)
      requires Valid() && reader.Ready()
      modifies reader.device`pos
      ensures Valid() && State() == old(State())
      ensures ok <==> |old(reader.Input())| >= 1
      ensures ok ==> version == old(reader.Input())[0] && reader.Input() == old(reader.Input())[1..]
      ensures success <==> ok && version == 2
    {
      ok, version := reader.ReadU8();
      success := ok && version == LOG_VERSION;
    }

    method RegisterCategory() returns (ok: bool)
      requires reader.Ready()
      modifies this`categories, reader.device`pos
      ensures reader.Ready()
      ensures var p := ReadCategory(old(reader.Input()));
        && ok == p.Got? && reader.Input() == p.rest
        && categories == old(categories) + if ok then [p.value] else []
    {
      hide LogBytes.ReadString, FilterOf;
      var name, flags;
      ok, name := reader.ReadString();
      if !ok {
        return false;
      }
      ok, flags := reader.ReadU8();
      if !ok {
        return false;
      }
      categories := categories + [Category(name, FilterOf(flags))];
    }

    /** The back-reference branch of `Read`, up to the copied message. */
    method ReadCopy(short: bool) returns (ok: bool, copy: LogMessage)
      requires Valid() && reader.Ready()
      modifies this`lastMessageTime, reader.device`pos
      ensures Valid() && reader.Ready()
      ensures var o := ReadRecent(old(State()), short, old(reader.Input()));
        && ok == o.Message? && reader.Input() == o.rest
        && (!ok ==> State() == o.state)
        && (ok ==> o == Deliver(old(State()), copy, o.rest) && lastMessageTime == copy.time)
    {
      hide LogBytes.ReadVarInt, FromSecs, Pushed;
      copy := LogMessage(Debug, [], [], 0);
      var field: Byte, index: nat, secondDelta: nat;
      ok, field := reader.ReadU8();
      if !ok {
        return;
      }
      if short {
        index, secondDelta := field % 16, field / 16;
      } else {
        index := field;
        ok, secondDelta := reader.ReadVarInt();
        if !ok {
          return;
        }
      }

      if index >= recentMessages.mSize {
        return false, copy;
      }
      copy := recentMessages.At(index);
      lastMessageTime := lastMessageTime + FromSecs(secondDelta);
      copy := copy.(time := lastMessageTime);
    }

    /** The type and time field of a message in full. */
    method ReadTypeAndTime() returns (ok: bool, msgType: MsgType, secondDelta: nat)
      requires reader.Ready()
      modifies reader.device`pos
      ensures reader.Ready()
      ensures var p := ReadStamp(old(reader.Input()));
        ok == p.Got? && reader.Input() == p.rest && (ok ==> (msgType, secondDelta) == p.value)
    {
      hide LogBytes.ReadVarInt, LogBytes.ReadU64;
      var field: Byte;
      var needsTimeRead := false;
      msgType, secondDelta := Debug, 0;
      ok, field := reader.ReadU8();
      if !ok {
        return;
      }

      if field == 0xff {
        msgType, needsTimeRead := Fatal, true;
      } else {
        msgType, secondDelta := TypeOfCompressed(field % 8), field / 8;
        if secondDelta == 0x1d {
          ok, secondDelta := reader.ReadVarInt();
          if !ok {
            return;
          }
        } else if secondDelta == 0x1e {
          needsTimeRead := true;
        }
      }

      if needsTimeRead {
        ok, secondDelta := reader.ReadU64();
      }
    }

    /** The branch of `Read` for a message in full. */
    method ReadMessage(categoryId: nat) returns (ok: bool, message: LogMessage)
      requires Valid() && reader.Ready()
      modifies this`lastMessageTime, reader.device`pos
      ensures Valid() && reader.Ready()
      ensures var o := ReadFresh(old(State()), categoryId, old(reader.Input()));
        && ok == o.Message? && reader.Input() == o.rest
        && (!ok ==> State() == o.state)
        && (ok ==> o == Deliver(old(State()), message, o.rest) && lastMessageTime == message.time)
    {
      hide LogBytes.ReadString, ReadStamp, Signed64, FromSecs, Pushed;
      message := LogMessage(Debug, [], [], 0);
      var category := CategoryAt(categories, categoryId);
      var msgType, secondDelta;
      ok, msgType, secondDelta := ReadTypeAndTime();
      if !ok {
        return;
      }

      lastMessageTime := lastMessageTime + FromSecs(Signed64(secondDelta));

      var body;
      ok, body := reader.ReadString();
      if !ok {
        return;
      }
      message := LogMessage(msgType, category.name, body, lastMessageTime, categoryId % 0x1_0000);
    }

    /** Reads one message; on failure `slot` is handed back unchanged. */
    method Read(slot: LogMessage) returns (ok: bool, message: LogMessage)
      requires Valid() && reader.Ready()
      modifies this, recentMessages, recentMessages.data, reader.device`pos
      ensures Valid() && reader.Ready() && recentMessages.data == old(recentMessages.data)
      ensures var o := LogCodec.Read(old(State()), old(reader.Input()));
        && ok == o.Message? && State() == o.state && reader.Input() == o.rest
        && message == if ok then o.m else slot
    {
      hide LogBytes.ReadVarInt, ReadFresh, ReadRecent, ReadCategory, Pushed;
      message := slot;
      var next: nat;
      ok, next := reader.ReadVarInt();
      while ok && next == REGISTER_CATEGORY
        invariant Valid() && reader.Ready() && recentMessages.data == old(recentMessages.data)
        invariant ok ==> LogCodec.Read(old(State()), old(reader.Input())) == AfterOpcode(State(), next, reader.Input())
        invariant !ok ==> LogCodec.Read(old(State()), old(reader.Input())) == Failed(State(), reader.Input())
        decreases |reader.Input()|, ok
      {
        ok := RegisterCategory();
        if ok {
          ok, next := reader.ReadVarInt();
        }
      }
      if !ok {
        return;
      }

      ghost var before, input := State(), reader.Input();
      var got;
      if next < BEGIN_CATEGORIES {
        ok, got := ReadCopy(next == RECENT_MESSAGE_SHORT);
      } else {
        ok, got := ReadMessage(next - BEGIN_CATEGORIES);
      }
      if !ok {
        return;
      }
      message := got;
      var _ := recentMessages.Emplace(got);
    }

    /** Everything there is to read; `clean` when the last, failing read consumed nothing. */
    method ContinueReading() returns (messages: seq<LogMessage>, clean: bool)
      requires Valid() && reader.Ready()
      modifies this, recentMessages, recentMessages.data, reader.device`pos
      ensures Valid() && reader.Ready() && recentMessages.data == old(recentMessages.data)
      ensures var log := LogRoundTrip.ReadAll(old(State()), old(reader.Input()));
        messages == log.messages && clean == log.clean && State() == log.end.state && reader.Input() == log.end.rest
    {
      hide LogCodec.Read, LogRoundTrip.ReadAll, Reading;
      ghost var log := LogRoundTrip.ReadAll(State(), reader.Input());
      messages := [];
      ReadingAtStart(State(), reader.Input());
      var message := LogMessage(Debug, [], [], 0);
      var readCursor := reader.device.pos;
      var ok := true;
      while ok
        invariant Valid() && reader.Ready() && recentMessages.data == old(recentMessages.data)
        invariant ok ==> Reading(log, messages, State(), reader.Input()) && readCursor == reader.device.pos
        invariant !ok ==> log == LogRoundTrip.Log(messages, Failed(State(), reader.Input()), reader.device.pos == readCursor)
        decreases |reader.Input()|, ok
      {
        ReadingStep(log, messages, State(), reader.Input());
        ok, message := Read(message);
        if ok {
          readCursor := reader.device.pos;
          messages := messages + [message];
        }
      }
      clean := reader.device.pos == readCursor;
    }
  }

  /** The messages so far, and what the rest of the input holds, are the log. */
  ghost predicate Reading(log: LogRoundTrip.Log, messages: seq<LogMessage>, rs: ReaderState, s: seq<Byte>) {
    var more := LogRoundTrip.ReadAll(rs, s);
    log == LogRoundTrip.Log(messages + more.messages, more.end, more.clean)
  }

  lemma ReadingAtStart(rs: ReaderState, s: seq<Byte>)
    ensures Reading(LogRoundTrip.ReadAll(rs, s), [], rs, s)
  {
    hide LogRoundTrip.ReadAll;
  }

  lemma {:induction false} ReadingStep(log: LogRoundTrip.Log, messages: seq<LogMessage>, rs: ReaderState, s: seq<Byte>)
    requires Reading(log, messages, rs, s)
    ensures var o := LogCodec.Read(rs, s);
      if o.Message? then Reading(log, messages + [o.m], o.state, o.rest) && |o.rest| < |s|
      else log == LogRoundTrip.Log(messages, Failed(o.state, o.rest), |o.rest| == |s|)
  {
    hide LogCodec.Read;
    var o := LogCodec.Read(rs, s);
    if o.Message? {
      var more := LogRoundTrip.ReadAll(o.state, o.rest);
      assert messages + ([o.m] + more.messages) == messages + [o.m] + more.messages;
    } else {
      assert messages + [] == messages;
    }
  }

  /** The rest of a read once its leading varint is known. */
  ghost function AfterOpcode(rs: ReaderState, next: nat, s: seq<Byte>): Outcome {
    if next == REGISTER_CATEGORY then
      var category := ReadCategory(s);
      if category.Fail? then Failed(rs, category.rest)
      else LogCodec.Read(rs.(categories := rs.categories + [category.value]), category.rest)
    else if next < BEGIN_CATEGORIES then ReadRecent(rs, next == RECENT_MESSAGE_SHORT, s)
    else ReadFresh(rs, next - BEGIN_CATEGORIES, s)
  }
}
