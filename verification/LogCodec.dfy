/** What the detailed log's writer puts on the device and what its reader makes of it,
    as functions of their private states. */
module LogCodec {
  import opened Common
  import opened LogBytes
  import RingBuf

  const REGISTER_CATEGORY := 0
  const RECENT_MESSAGE_SHORT := 1
  const RECENT_MESSAGE_LONG := 2
  const BEGIN_CATEGORIES := 3
  const WINDOW_SIZE := 256
  const LOG_VERSION := 2
  // category ids are 16 bits wide and start after the opcodes
  const MAX_CATEGORIES := 0x1_0000 - BEGIN_CATEGORIES

  datatype MsgType = Debug | Info | Warning | Critical | Fatal

  datatype CategoryFilter = CategoryFilter(debug: bool, info: bool, warn: bool, critical: bool)

  datatype Category = Category(name: seq<Byte>, filter: CategoryFilter)

  /** Times are milliseconds since the epoch. */
  datatype LogMessage = LogMessage(
    msgType: MsgType, category: seq<Byte>, body: seq<Byte>, time: int, readCategoryId: nat := 0)

  /** Message equality does not include the time. */
  predicate Same(a: LogMessage, b: LogMessage) {
    a.msgType == b.msgType && a.category == b.category && a.body == b.body
  }

  // ---- Fields ----

  function CompressedTypeOf(t: MsgType): Byte {
    match t
    case Debug => 0
    case Info => 1
    case Warning => 2
    case Critical => 3
    case Fatal => 3
  }

  function TypeOfCompressed(code: nat): MsgType {
    match code
    case 0 => Debug
    case 1 => Info
    case 2 => Warning
    case 3 => Critical
    case _ => Info
  }

  function FlagsOf(f: CategoryFilter): Byte {
    (if f.debug then 1 else 0) + (if f.info then 2 else 0) + (if f.warn then 4 else 0) + (if f.critical then 8 else 0)
  }

  function FilterOf(flags: Byte): CategoryFilter {
    CategoryFilter(flags % 2 == 1, flags / 2 % 2 == 1, flags / 4 % 2 == 1, flags / 8 % 2 == 1)
  }

  lemma FilterRoundTrip(f: CategoryFilter)
    ensures FilterOf(FlagsOf(f)) == f
  {
  }

  /** Division as in C++, toward zero. */
  function TruncDiv(a: int, n: int): int
    requires n > 0
  {
    if a >= 0 then a / n else -((-a) / n)
  }

  function ToSecs(time: int): int { TruncDiv(time, 1000) }
  function FromSecs(secs: int): int { 1000 * secs }
  function SecsTo(a: int, b: int): int { TruncDiv(b - a, 1000) }

  /** The cast from quint64 to qint64. */
  function Signed64(n: nat): int {
    var low := n % U64;
    if low < U64 / 2 then low else low - U64
  }

  // ---- Writer ----

  datatype WriterState = WriterState(window: seq<LogMessage>, registered: seq<Category>, lastTime: int)

  const FRESH_WRITER := WriterState([], [], FromSecs(0))

  function Find(window: seq<LogMessage>, m: LogMessage): (i: int)
    ensures RingBuf.FirstMatch(window, Same, m, i)
  {
    if window == [] then -1
    else if Same(m, window[0]) then 0
    else
      var i := Find(window[1..], m);
      assert forall k :: 0 < k < |window| ==> window[k] == window[1..][k - 1];
      if i == -1 then -1 else i + 1
  }

  predicate Registered(categories: seq<Category>, name: seq<Byte>) {
    exists c :: c in categories && c.name == name
  }

  function NamesOf(categories: seq<Category>): (names: seq<seq<Byte>>)
    ensures |names| == |categories|
    ensures forall i :: 0 <= i < |names| ==> names[i] == categories[i].name
  {
    seq(|categories|, i requires 0 <= i < |categories| => categories[i].name)
  }

  /** Where a category was registered, or where it is about to be. */
  function Position(categories: seq<Category>, name: seq<Byte>): (i: nat)
    ensures i <= |categories|
    ensures forall k :: 0 <= k < i ==> categories[k].name != name
    ensures i < |categories| ==> categories[i].name == name
    ensures i < |categories| <==> Registered(categories, name)
  {
    PlaceOf(NamesOf(categories), name)
  }

  /** The 16-bit id of the i-th registered category. */
  function IdAt(i: nat): (id: nat)
    ensures id < 0x1_0000
  {
    (BEGIN_CATEGORIES + i) % 0x1_0000
  }

  function Recent(index: nat, delta: int): seq<Byte> {
    if delta < 16 && index < 16 then [RECENT_MESSAGE_SHORT, (index + 16 * delta) % 256]
    else [RECENT_MESSAGE_LONG, index % 256] + VarInt(delta % U32)
  }

  function Registration(name: seq<Byte>, filter: CategoryFilter): seq<Byte> {
    [REGISTER_CATEGORY] + (String(name) + [FlagsOf(filter)])
  }

  /** The first byte of the type and time field: type and delta, or type and how the time follows. */
  function StampByte(t: MsgType, delta: int): Byte {
    if t.Fatal? then 0xff
    else (CompressedTypeOf(t) + 8 * (if delta < 0x1d then delta else if delta < 0xffff then 0x1d else 0x1e)) % 256
  }

  function StampTail(t: MsgType, delta: int, time: int): seq<Byte> {
    if t.Fatal? || delta > 0xffff then LittleEndian(ToSecs(time), 8)
    else if delta >= 0x1d then VarInt(delta)
    else []
  }

  /** The type and time field of a message that is not in the window. */
  function Stamp(t: MsgType, lastTime: int, time: int): seq<Byte> {
    [StampByte(t, SecsTo(lastTime, time))] + StampTail(t, SecsTo(lastTime, time), time)
  }

  function Fresh(ws: WriterState, m: LogMessage): seq<Byte> {
    VarInt(IdAt(Position(ws.registered, m.category))) + (Stamp(m.msgType, ws.lastTime, m.time) + String(m.body))
  }

  /** The bytes of one message; `filter` is the category's filter at this moment. */
  function Encode(ws: WriterState, m: LogMessage, filter: CategoryFilter): seq<Byte> {
    var index := Find(ws.window, m);
    if index != -1 then Recent(index, SecsTo(ws.lastTime, m.time))
    else (if Registered(ws.registered, m.category) then [] else Registration(m.category, filter)) + Fresh(ws, m)
  }

  function AfterWrite(ws: WriterState, m: LogMessage, filter: CategoryFilter): WriterState {
    WriterState(
      RingBuf.Pushed(ws.window, m.(readCategoryId := 0), WINDOW_SIZE),
      if Find(ws.window, m) != -1 || Registered(ws.registered, m.category) then ws.registered
      else ws.registered + [Category(m.category, filter)],
      FromSecs(ToSecs(m.time)))
  }

  // ---- Reader ----

  datatype ReaderState = ReaderState(window: seq<LogMessage>, categories: seq<Category>, lastTime: int)

  const FRESH_READER := ReaderState([], [], FromSecs(0))

  datatype Outcome =
    | Failed(state: ReaderState, rest: seq<Byte>)
    | Message(m: LogMessage, state: ReaderState, rest: seq<Byte>)

  /** A message enters the window as it is returned. */
  function Deliver(rs: ReaderState, m: LogMessage, rest: seq<Byte>): Outcome {
    Message(m, rs.(window := RingBuf.Pushed(rs.window, m, WINDOW_SIZE), lastTime := m.time), rest)
  }

  function ReadCategory(s: seq<Byte>): (p: Parse<Category>)
    ensures |p.rest| <= |s|
  {
    var name := ReadString(s);
    if name.Fail? then Fail(name.rest)
    else
      var flags := ReadU8(name.rest);
      if flags.Fail? then Fail(flags.rest) else Got(Category(name.value, FilterOf(flags.value)), flags.rest)
  }

  function Copied(rs: ReaderState, index: nat, delta: nat, rest: seq<Byte>): Outcome {
    if index >= |rs.window| then Failed(rs, rest)
    else Deliver(rs, rs.window[index].(time := rs.lastTime + FromSecs(delta)), rest)
  }

  function ReadRecent(rs: ReaderState, short: bool, s: seq<Byte>): Outcome {
    var field := ReadU8(s);
    if field.Fail? then Failed(rs, field.rest)
    else if short then Copied(rs, field.value % 16, field.value / 16, field.rest)
    else
      var delta := ReadVarInt(field.rest);
      if delta.Fail? then Failed(rs, delta.rest) else Copied(rs, field.value, delta.value, delta.rest)
  }

  /** The type and the seconds to add to the last time. */
  function ReadStampTail(field: Byte, s: seq<Byte>): (p: Parse<(MsgType, nat)>)
    ensures |p.rest| <= |s|
  {
    if field == 0xff || field / 8 == 0x1e then
      var secs := ReadU64(s);
      if secs.Fail? then Fail(secs.rest)
      else Got((if field == 0xff then Fatal else TypeOfCompressed(field % 8), secs.value), secs.rest)
    else if field / 8 == 0x1d then
      var delta := ReadVarInt(s);
      if delta.Fail? then Fail(delta.rest) else Got((TypeOfCompressed(field % 8), delta.value), delta.rest)
    else Got((TypeOfCompressed(field % 8), field / 8), s)
  }

  function ReadStamp(s: seq<Byte>): (p: Parse<(MsgType, nat)>)
    ensures |p.rest| <= |s|
  {
    var field := ReadU8(s);
    if field.Fail? then Fail(field.rest) else ReadStampTail(field.value, field.rest)
  }

  /** An id that was never registered reads as an empty category. */
  function CategoryAt(categories: seq<Category>, id: nat): Category {
    if id < |categories| then categories[id] else Category([], CategoryFilter(true, true, true, true))
  }

  function Finish(rs: ReaderState, id: nat, t: MsgType, secs: nat, s: seq<Byte>): Outcome {
    var time := rs.lastTime + FromSecs(Signed64(secs));
    var body := ReadString(s);
    if body.Fail? then Failed(rs.(lastTime := time), body.rest)
    else Deliver(rs, LogMessage(t, CategoryAt(rs.categories, id).name, body.value, time, id % 0x1_0000), body.rest)
  }

  function ReadFresh(rs: ReaderState, id: nat, s: seq<Byte>): Outcome {
    var stamp := ReadStamp(s);
    if stamp.Fail? then Failed(rs, stamp.rest)
    else Finish(rs, id, stamp.value.0, stamp.value.1, stamp.rest)
  }

  function Read(rs: ReaderState, s: seq<Byte>): (o: Outcome)
    ensures |o.rest| <= |s| && (o.Message? ==> |o.rest| < |s|)
    decreases |s|
  {
    var next := ReadVarInt(s);
    if next.Fail? then Failed(rs, next.rest)
    else if next.value == REGISTER_CATEGORY then
      var category := ReadCategory(next.rest);
      if category.Fail? then Failed(rs, category.rest)
      else Read(rs.(categories := rs.categories + [category.value]), category.rest)
    else if next.value < BEGIN_CATEGORIES then ReadRecent(rs, next.value == RECENT_MESSAGE_SHORT, next.rest)
    else ReadFresh(rs, next.value - BEGIN_CATEGORIES, next.rest)
  }
}
