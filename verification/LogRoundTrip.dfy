/** The reader, which sees nothing but bytes, stays in lockstep with the writer. */
module LogRoundTrip {
  import opened LogBytes
  import opened LogCodec
  import RingBuf

  /** Writer and reader hold the same messages at the same indexes (times aside) and the same
      categories in registration order, each once. */
  ghost predicate Lockstep(ws: WriterState, rs: ReaderState) {
    && (forall i, j :: 0 <= i < j < |ws.registered| ==> ws.registered[i].name != ws.registered[j].name)
    && |ws.registered| <= MAX_CATEGORIES
    && rs.categories == ws.registered
    && |rs.window| == |ws.window| <= WINDOW_SIZE
    && (forall i :: 0 <= i < |ws.window| ==> Same(ws.window[i], rs.window[i]))
    && (forall i :: 0 <= i < |rs.window| ==> Categorised(rs, rs.window[i]))
  }

  /** The id the reader attaches to a message leads back to the message's own category. */
  predicate Categorised(rs: ReaderState, m: LogMessage) {
    m.readCategoryId < |rs.categories| && rs.categories[m.readCategoryId].name == m.category
  }

  /** The message's numbers fit the fields they are written to. Times may go backwards. */
  predicate Fits(ws: WriterState, m: LogMessage) {
    && -(U64 / 2) <= ws.lastTime < U64 / 2
    && -(U64 / 2) <= m.time < U64 / 2
    && (if Find(ws.window, m) != -1 then SecsTo(ws.lastTime, m.time) < U32
        else
          && |m.body| < U32
          && (Registered(ws.registered, m.category) || (|m.category| < U32 && |ws.registered| < MAX_CATEGORIES)))
  }

  /** The delta is not announced as one kind of field and written as another: 0xffff is tagged
      as an epoch but written as a varint, and a negative delta is cut to five bits that may
      spell either tag. */
  predicate Framed(ws: WriterState, m: LogMessage) {
    var delta := SecsTo(ws.lastTime, m.time);
    Find(ws.window, m) == -1 && !m.msgType.Fatal? ==>
      delta != 0xffff && (delta < 0 ==> delta % 32 != 0x1d && delta % 32 != 0x1e)
  }

  /** The message carries its whole time instead of a delta. */
  predicate FullStamp(ws: WriterState, m: LogMessage) {
    Find(ws.window, m) == -1 && (m.msgType.Fatal? || SecsTo(ws.lastTime, m.time) > 0xffff)
  }

  /** The seconds the reader adds to its last time for this message. */
  function Carried(ws: WriterState, m: LogMessage): int {
    var index, delta := Find(ws.window, m), SecsTo(ws.lastTime, m.time);
    if FullStamp(ws, m) then ToSecs(m.time)
    else if delta >= 0 then delta
    else delta % (if index == -1 then 32 else if index < 16 then 16 else U32)
  }

  /** A time without its milliseconds, which are cut off toward the epoch. */
  function WholeSeconds(time: int): int {
    if time >= 0 then time - time % 1000 else time + (-time) % 1000
  }

  lemma WholeSecondsKept(time: int)
    ensures FromSecs(ToSecs(time)) == WholeSeconds(time)
  {
  }

  /** When the reader's clock follows the writer's: a whole time is added to the last time, so it
      is right only at the epoch; a delta is right unless the clock went back to another second, or
      stands between two seconds before the epoch, where times are rounded up and deltas down. */
  predicate ClockFollows(ws: WriterState, m: LogMessage) {
    if FullStamp(ws, m) then ws.lastTime == 0
    else ws.lastTime == WholeSeconds(m.time) || (ws.lastTime <= m.time && (m.time >= 0 || m.time % 1000 == 0))
  }

  /** The outcome is this message, and exactly `tail` is left. */
  predicate Returns(o: Outcome, m: LogMessage, tail: seq<Byte>) {
    o.Message? && o.m.msgType == m.msgType && o.m.category == m.category && o.m.body == m.body && o.rest == tail
  }

  // ---- One message ----

  lemma StampByteRoundTrip(t: MsgType, delta: int)
    ensures StampByte(t, delta) == 0xff <==> t.Fatal?
    ensures !t.Fatal? ==> TypeOfCompressed(StampByte(t, delta) % 8) == t
    ensures var tag := if delta < 0 then delta % 32 else if delta < 0x1d then delta else if delta < 0xffff then 0x1d else 0x1e;
      !t.Fatal? ==> StampByte(t, delta) / 8 == tag
  {
    if !t.Fatal? {
      var field := if delta < 0x1d then delta else if delta < 0xffff then 0x1d else 0x1e;
      PackedFive(CompressedTypeOf(t), field);
      Unpacked(CompressedTypeOf(t), field % 32);
    }
  }

  lemma Unpacked(low: nat, tag: nat)
    requires low < 8
    ensures (low + 8 * tag) % 8 == low && (low + 8 * tag) / 8 == tag
  {
  }

  lemma StampRoundTrip(t: MsgType, delta: int, time: int, tail: seq<Byte>)
    requires t.Fatal? || (delta != 0xffff && (delta < 0 ==> delta % 32 != 0x1d && delta % 32 != 0x1e))
    ensures ReadStampTail(StampByte(t, delta), StampTail(t, delta, time) + tail)
         == Got((t, if t.Fatal? || delta > 0xffff then ToSecs(time) % U64 else if delta < 0 then delta % 32 else delta), tail)
  {
    hide StampByte, VarInt, ReadVarInt, LittleEndian, FromLittleEndian;
    StampByteRoundTrip(t, delta);
    if t.Fatal? || delta > 0xffff {
      U64RoundTrip(ToSecs(time), tail);
    } else if delta >= 0x1d {
      VarIntRoundTrip(delta, tail);
    } else {
      assert StampTail(t, delta, time) + tail == tail;
    }
  }

  lemma ReadsFresh(rs: ReaderState, s: seq<Byte>, id: nat, rest: seq<Byte>)
    requires ReadVarInt(s) == Got(id, rest) && id >= BEGIN_CATEGORIES
    ensures Read(rs, s) == ReadFresh(rs, id - BEGIN_CATEGORIES, rest)
  {
    hide ReadVarInt, ReadFresh, ReadCategory, ReadRecent;
  }

  lemma FreshSplit(ws: WriterState, m: LogMessage, tail: seq<Byte>)
    requires |ws.registered| <= MAX_CATEGORIES && Registered(ws.registered, m.category)
    ensures var delta := SecsTo(ws.lastTime, m.time);
      forall rs: ReaderState :: Read(rs, Fresh(ws, m) + tail)
        == var stamp := ReadStampTail(StampByte(m.msgType, delta), StampTail(m.msgType, delta, m.time) + (String(m.body) + tail));
           if stamp.Fail? then Failed(rs, stamp.rest)
           else Finish(rs, Position(ws.registered, m.category), stamp.value.0, stamp.value.1, stamp.rest)
  {
    hide LittleEndian, FromLittleEndian, VarInt, ReadVarInt, ReadString, String, StampByte, StampTail, ReadStampTail, Finish, Read, Position, Registered;
    var delta := SecsTo(ws.lastTime, m.time);
    var id, body := IdAt(Position(ws.registered, m.category)), String(m.body);
    var b, more := StampByte(m.msgType, delta), StampTail(m.msgType, delta, m.time);
    var rest := [b] + (more + (body + tail));
    assert Fresh(ws, m) + tail == VarInt(id) + rest;
    VarIntRoundTrip(id, rest);
    U8RoundTrip(b, more + (body + tail));
    forall rs: ReaderState {
      ReadsFresh(rs, Fresh(ws, m) + tail, id, rest);
    }
  }

  lemma SignedRoundTrip(n: int)
    requires -(U64 / 2) <= n < U64 / 2
    ensures Signed64(n % U64) == n
  {
  }

  lemma SmallSigned(delta: int)
    ensures 0 <= delta < U64 / 2 ==> Signed64(delta) == delta
    ensures Signed64(delta % 32) == delta % 32
  {
  }

  lemma FreshRoundTrip(ws: WriterState, rs: ReaderState, m: LogMessage, tail: seq<Byte>)
    requires Find(ws.window, m) == -1 && Fits(ws, m) && Framed(ws, m)
    requires ws.registered == rs.categories && Registered(ws.registered, m.category) && |ws.registered| <= MAX_CATEGORIES
    ensures var time := rs.lastTime + FromSecs(Carried(ws, m));
      Read(rs, Fresh(ws, m) + tail)
      == Deliver(rs, LogMessage(m.msgType, m.category, m.body, time, Position(ws.registered, m.category)), tail)
  {
    hide LittleEndian, FromLittleEndian, VarInt, ReadVarInt, ReadString, String, StampByte, StampTail, ReadStampTail, Read, Deliver, Registered, Fresh, Signed64;
    SignedRoundTrip(ToSecs(m.time));
    SmallSigned(SecsTo(ws.lastTime, m.time));
    FreshSplit(ws, m, tail);
    StampRoundTrip(m.msgType, SecsTo(ws.lastTime, m.time), m.time, String(m.body) + tail);
    StringRoundTrip(m.body, tail);
  }

  lemma RecentRoundTrip(rs: ReaderState, index: nat, delta: int, tail: seq<Byte>)
    requires index < |rs.window| <= WINDOW_SIZE && delta < U32
    ensures var seconds := if delta >= 0 then delta else delta % (if index < 16 then 16 else U32);
      Read(rs, Recent(index, delta) + tail) == Copied(rs, index, seconds, tail)
  {
    hide LittleEndian, FromLittleEndian, VarInt, ReadVarInt, ReadString, String, Copied, FromSecs;
    var s := Recent(index, delta) + tail;
    if delta < 16 && index < 16 {
      var field := (index + 16 * delta) % 256;
      PackedFour(index, delta);
      assert s == [RECENT_MESSAGE_SHORT] + ([field] + tail);
      U8RoundTrip(field, tail);
      OneByteVarInt(RECENT_MESSAGE_SHORT, [field] + tail);
    } else {
      assert s == [RECENT_MESSAGE_LONG] + ([index] + (VarInt(delta % U32) + tail));
      U8RoundTrip(index, VarInt(delta % U32) + tail);
      VarIntRoundTrip(delta % U32, tail);
      OneByteVarInt(RECENT_MESSAGE_LONG, [index] + (VarInt(delta % U32) + tail));
    }
  }

  lemma RegistrationRead(rs: ReaderState, name: seq<Byte>, filter: CategoryFilter, tail: seq<Byte>)
    requires |name| < U32
    ensures Read(rs, Registration(name, filter) + tail)
         == Read(rs.(categories := rs.categories + [Category(name, filter)]), tail)
  {
    hide LittleEndian, FromLittleEndian, VarInt, ReadVarInt, ReadString, String, FlagsOf, FilterOf;
    var flags := [FlagsOf(filter)];
    var s := Registration(name, filter) + tail;
    assert s == [REGISTER_CATEGORY] + (String(name) + (flags + tail));
    OneByteVarInt(REGISTER_CATEGORY, String(name) + (flags + tail));
    StringRoundTrip(name, flags + tail);
    U8RoundTrip(flags[0], tail);
    FilterRoundTrip(filter);
  }

  /** The writer's state once a registration, if one is due, has been written. */
  function Announced(ws: WriterState, m: LogMessage, filter: CategoryFilter): WriterState {
    ws.(registered := AfterWrite(ws, m, filter).registered)
  }

  lemma AnnouncedLockstep(ws: WriterState, rs: ReaderState, m: LogMessage, filter: CategoryFilter)
    requires Lockstep(ws, rs) && Fits(ws, m) && Find(ws.window, m) == -1
    ensures Lockstep(Announced(ws, m, filter), rs.(categories := Announced(ws, m, filter).registered))
    ensures Registered(Announced(ws, m, filter).registered, m.category)
    ensures Position(Announced(ws, m, filter).registered, m.category) == Position(ws.registered, m.category)
  {
    hide Find, ToSecs, SecsTo;
    var registered := Announced(ws, m, filter).registered;
    if !Registered(ws.registered, m.category) {
      assert Category(m.category, filter) in registered;
      assert registered[..|ws.registered|] == ws.registered;
    }
    var rs' := rs.(categories := registered);
    forall i | 0 <= i < |rs.window| ensures Categorised(rs', rs'.window[i]) {
      assert Categorised(rs, rs.window[i]);
    }
  }

  lemma EncodeFresh(ws: WriterState, rs: ReaderState, m: LogMessage, filter: CategoryFilter, tail: seq<Byte>)
    requires Lockstep(ws, rs) && Fits(ws, m) && Find(ws.window, m) == -1
    ensures Read(rs, Encode(ws, m, filter) + tail)
         == Read(rs.(categories := Announced(ws, m, filter).registered), Fresh(Announced(ws, m, filter), m) + tail)
  {
    hide LittleEndian, FromLittleEndian, VarInt, ReadVarInt, ReadString, String, Read, Stamp, Registration, Find, Position;
    AnnouncedLockstep(ws, rs, m, filter);
    var ws' := Announced(ws, m, filter);
    assert Fresh(ws', m) == Fresh(ws, m);
    if !Registered(ws.registered, m.category) {
      assert Encode(ws, m, filter) + tail == Registration(m.category, filter) + (Fresh(ws', m) + tail);
      RegistrationRead(rs, m.category, filter, Fresh(ws', m) + tail);
    } else {
      assert Encode(ws, m, filter) == Fresh(ws, m);
    }
  }

  /** Pushing the same message on both sides keeps the windows equal. */
  lemma DeliverLockstep(ws: WriterState, ws': WriterState, rs: ReaderState, m: LogMessage, got: LogMessage, rest: seq<Byte>)
    requires Lockstep(ws, rs) && Same(m, got) && Categorised(rs, got)
    requires ws'.registered == ws.registered && ws'.window == RingBuf.Pushed(ws.window, m, WINDOW_SIZE)
    ensures Lockstep(ws', Deliver(rs, got, rest).state) && Categorised(Deliver(rs, got, rest).state, got)
  {
    var rs' := Deliver(rs, got, rest).state;
    forall i | 0 <= i < |rs'.window|
      ensures Same(ws'.window[i], rs'.window[i]) && Categorised(rs', rs'.window[i])
    {
      if i > 0 {
        assert Same(ws.window[i - 1], rs.window[i - 1]) && Categorised(rs, rs.window[i - 1]);
      }
    }
  }

  /** One message in lockstep: it decodes to itself from exactly its own bytes, whatever follows,
      and the states stay in lockstep. */
  lemma StepRoundTrip(ws: WriterState, rs: ReaderState, m: LogMessage, filter: CategoryFilter, tail: seq<Byte>)
    requires Lockstep(ws, rs) && Fits(ws, m) && Framed(ws, m)
    ensures var o := Read(rs, Encode(ws, m, filter) + tail);
      && Returns(o, m, tail)
      && Lockstep(AfterWrite(ws, m, filter), o.state)
      && Categorised(o.state, o.m)
      && o.state.lastTime == o.m.time == rs.lastTime + FromSecs(Carried(ws, m))
  {
    hide LittleEndian, FromLittleEndian, VarInt, ReadVarInt, ReadString, String, Read, Registration, Fresh, Recent, ToSecs, SecsTo, FromSecs, Lockstep;
    var index := Find(ws.window, m);
    var pushed, rs' := m.(readCategoryId := 0), rs.(categories := AfterWrite(ws, m, filter).registered);
    var time := rs.lastTime + FromSecs(Carried(ws, m));
    if index == -1 {
      AnnouncedLockstep(ws, rs, m, filter);
      EncodeFresh(ws, rs, m, filter, tail);
      var ws' := Announced(ws, m, filter);
      CategoriesAgree(ws', rs');
      FreshRoundTrip(ws', rs', m, tail);
      var got := LogMessage(m.msgType, m.category, m.body, time, Position(ws'.registered, m.category));
      DeliverLockstep(ws', AfterWrite(ws, m, filter), rs', pushed, got, tail);
    } else {
      CategoriesAgree(ws, rs);
      WindowsAgree(ws, rs, index);
      RecentRoundTrip(rs, index, SecsTo(ws.lastTime, m.time), tail);
      DeliverLockstep(ws, AfterWrite(ws, m, filter), rs, pushed, rs.window[index].(time := time), tail);
    }
  }

  lemma CategoriesAgree(ws: WriterState, rs: ReaderState)
    requires Lockstep(ws, rs)
    ensures ws.registered == rs.categories && |ws.registered| <= MAX_CATEGORIES
  {
  }

  lemma WindowsAgree(ws: WriterState, rs: ReaderState, index: nat)
    requires Lockstep(ws, rs) && index < |ws.window|
    ensures index < |rs.window| <= WINDOW_SIZE && Same(ws.window[index], rs.window[index]) && Categorised(rs, rs.window[index])
  {
  }

  // ---- Deltas with a false tag ----

  /** A string cannot be read from fewer bytes than the writer spent on it. */
  lemma ShortenedString(s: seq<Byte>, body: seq<Byte>)
    requires |body| < U32 && |s| < |String(body)|
    ensures ReadString(s).Got? ==> ReadString(s).value != body
  {
    var p := ReadVarInt(s);
    if p.Got? && p.value == |body| {
      VarIntIsShortest(s);
    }
  }

  /** A false tag makes the reader take bytes of the body for the time. */
  lemma FalseTag(t: MsgType, delta: int, time: int, body: seq<Byte>)
    requires !t.Fatal? && (delta == 0xffff || (delta < 0 && (delta % 32 == 0x1d || delta % 32 == 0x1e)))
    requires |body| > 0
    ensures var p := ReadStampTail(StampByte(t, delta), StampTail(t, delta, time) + body);
      p.Got? ==> |p.rest| < |body|
  {
    hide LittleEndian, FromLittleEndian, StampByte, ReadVarInt, TypeOfCompressed;
    StampByteRoundTrip(t, delta);
    assert |VarInt(0xffff)| == 7;
  }

  /** Exactly when a message can be cut out of the stream again: the framing holds for every
      continuation if and only if the delta is not tagged wrongly. */
  lemma FramingExact(ws: WriterState, rs: ReaderState, m: LogMessage, filter: CategoryFilter)
    requires Lockstep(ws, rs) && Fits(ws, m)
    ensures (forall tail :: Returns(Read(rs, Encode(ws, m, filter) + tail), m, tail)) <==> Framed(ws, m)
    ensures Returns(Read(rs, Encode(ws, m, filter)), m, []) <==> Framed(ws, m)
  {
    hide LittleEndian, FromLittleEndian, VarInt, ReadVarInt, ReadString, String, StampByte, StampTail, ReadStampTail, Read, Fresh, Registration, Encode;
    assert Encode(ws, m, filter) + [] == Encode(ws, m, filter);
    if Framed(ws, m) {
      forall tail ensures Returns(Read(rs, Encode(ws, m, filter) + tail), m, tail) {
        StepRoundTrip(ws, rs, m, filter, tail);
      }
    } else {
      AnnouncedLockstep(ws, rs, m, filter);
      EncodeFresh(ws, rs, m, filter, []);
      var ws' := Announced(ws, m, filter);
      FreshSplit(ws', m, []);
      var body, delta := String(m.body), SecsTo(ws.lastTime, m.time);
      FalseTag(m.msgType, delta, m.time, body);
      assert body + [] == body;
      var stamp := ReadStampTail(StampByte(m.msgType, delta), StampTail(m.msgType, delta, m.time) + body);
      if stamp.Got? {
        ShortenedString(stamp.rest, m.body);
      }
      assert !Returns(Read(rs, Encode(ws, m, filter) + []), m, []);
    }
  }

  // ---- Times ----

  lemma Seconds(last: int, time: int)
    requires last % 1000 == 0
    ensures SecsTo(last, time) >= 0 ==>
      ((last + FromSecs(SecsTo(last, time)) == WholeSeconds(time))
        <==> (last == WholeSeconds(time) || (last <= time && (time >= 0 || time % 1000 == 0))))
    ensures SecsTo(last, time) < 0 ==> WholeSeconds(time) < last && time < last
  {
    var c := last / 1000;
    assert last == 1000 * c;
    if time < last {
      assert SecsTo(last, time) == -((last - time) / 1000);
    } else {
      assert SecsTo(last, time) == time / 1000 - c;
    }
  }

  lemma TimeExact(ws: WriterState, m: LogMessage)
    requires Fits(ws, m) && ws.lastTime % 1000 == 0
    ensures ws.lastTime + FromSecs(Carried(ws, m)) == WholeSeconds(m.time) <==> ClockFollows(ws, m)
  {
    Seconds(ws.lastTime, m.time);
    hide Find, SecsTo, ToSecs;
    assert !FullStamp(ws, m) ==> Carried(ws, m) >= 0;
  }

  // ---- Whole streams ----

  lemma NothingToRead(rs: ReaderState)
    ensures Read(rs, []) == Failed(rs, [])
  {
  }

  datatype Entry = Entry(m: LogMessage, filter: CategoryFilter)

  function StateAfter(ws: WriterState, es: seq<Entry>): WriterState
    decreases |es|
  {
    if es == [] then ws else StateAfter(AfterWrite(ws, es[0].m, es[0].filter), es[1..])
  }

  function EncodeAll(ws: WriterState, es: seq<Entry>): seq<Byte>
    decreases |es|
  {
    if es == [] then []
    else Encode(ws, es[0].m, es[0].filter) + EncodeAll(AfterWrite(ws, es[0].m, es[0].filter), es[1..])
  }

  datatype Log = Log(messages: seq<LogMessage>, end: Outcome, clean: bool)

  /** Reads until a read fails; a clean end is one where the failing read consumed nothing. */
  function ReadAll(rs: ReaderState, s: seq<Byte>): (log: Log)
    ensures log.end.Failed?
    decreases |s|
  {
    var o := Read(rs, s);
    if o.Failed? then Log([], o, |o.rest| == |s|)
    else
      var more := ReadAll(o.state, o.rest);
      Log([o.m] + more.messages, more.end, more.clean)
  }

  predicate StreamFits(ws: WriterState, es: seq<Entry>)
    decreases |es|
  {
    es == [] || (
      && Fits(ws, es[0].m) && Framed(ws, es[0].m)
      && StreamFits(AfterWrite(ws, es[0].m, es[0].filter), es[1..]))
  }

  /** No time stamp misleads the reader. */
  predicate ClocksFollow(ws: WriterState, es: seq<Entry>)
    decreases |es|
  {
    es == [] || (
      && ClockFollows(ws, es[0].m)
      && ClocksFollow(AfterWrite(ws, es[0].m, es[0].filter), es[1..]))
  }

  /** Same type, category and body at every position. */
  predicate SamePayloads(messages: seq<LogMessage>, es: seq<Entry>) {
    |messages| == |es| && forall i :: 0 <= i < |es| ==>
      messages[i].msgType == es[i].m.msgType && messages[i].category == es[i].m.category && messages[i].body == es[i].m.body
  }

  /** Every decoded time is the written one, in whole seconds. */
  predicate SameTimes(messages: seq<LogMessage>, es: seq<Entry>) {
    |messages| == |es| && forall i :: 0 <= i < |es| ==> messages[i].time == WholeSeconds(es[i].m.time)
  }

  lemma SameTimesTail(messages: seq<LogMessage>, es: seq<Entry>)
    requires |messages| == |es| > 0
    ensures SameTimes(messages, es)
      <==> messages[0].time == WholeSeconds(es[0].m.time) && SameTimes(messages[1..], es[1..])
  {
    hide ToSecs;
    assert forall i :: 0 < i < |es| ==> messages[i] == messages[1..][i - 1] && es[i] == es[1..][i - 1];
    if SameTimes(messages, es) {
      forall i | 0 <= i < |es| - 1
        ensures messages[1..][i].time == WholeSeconds(es[1..][i].m.time)
      {
        assert messages[i + 1].time == WholeSeconds(es[i + 1].m.time);
      }
    }
  }

  /** Payload round trip: every message comes back, nothing is left over, and the states agree.
      No assumption on the reader's clock. */
  lemma {:induction false} StreamRoundTrip(ws: WriterState, rs: ReaderState, es: seq<Entry>)
    requires Lockstep(ws, rs) && StreamFits(ws, es)
    ensures var log := ReadAll(rs, EncodeAll(ws, es));
      && SamePayloads(log.messages, es)
      && log.end.rest == [] && log.clean
      && Lockstep(StateAfter(ws, es), log.end.state)
    decreases |es|
  {
    hide Read, Encode, Lockstep, Fits, Framed;
    NothingToRead(rs);
    if es != [] {
      var e := es[0];
      var ws' := AfterWrite(ws, e.m, e.filter);
      StepRoundTrip(ws, rs, e.m, e.filter, EncodeAll(ws', es[1..]));
      var o := Read(rs, EncodeAll(ws, es));
      StreamRoundTrip(ws', o.state, es[1..]);
    }
  }

  /** Among streams that decode, exactly those whose stamps do not mislead keep their times. */
  lemma {:induction false} TimesExact(ws: WriterState, rs: ReaderState, es: seq<Entry>)
    requires Lockstep(ws, rs) && StreamFits(ws, es)
    requires rs.lastTime == ws.lastTime && ws.lastTime % 1000 == 0
    ensures SameTimes(ReadAll(rs, EncodeAll(ws, es)).messages, es) <==> ClocksFollow(ws, es)
    decreases |es|
  {
    hide Read, Encode, Fits, Framed, Lockstep, ClockFollows, ToSecs, Carried;
    NothingToRead(rs);
    StreamRoundTrip(ws, rs, es);
    if es != [] {
      hide SameTimes;
      var e := es[0];
      var ws' := AfterWrite(ws, e.m, e.filter);
      StepRoundTrip(ws, rs, e.m, e.filter, EncodeAll(ws', es[1..]));
      TimeExact(ws, e.m);
      WholeSecondsKept(e.m.time);
      var o := Read(rs, EncodeAll(ws, es));
      SameTimesTail(ReadAll(rs, EncodeAll(ws, es)).messages, es);
      if ClockFollows(ws, e.m) {
        TimesExact(ws', o.state, es[1..]);
      }
    }
  }

  /** The whole log: what a fresh reader makes of a fresh writer's output. */
  lemma LogRoundTrip(es: seq<Entry>)
    requires StreamFits(FRESH_WRITER, es)
    ensures var log := ReadAll(FRESH_READER, EncodeAll(FRESH_WRITER, es));
      && SamePayloads(log.messages, es)
      && log.end.rest == [] && log.clean
      && (SameTimes(log.messages, es) <==> ClocksFollow(FRESH_WRITER, es))
  {
    StreamRoundTrip(FRESH_WRITER, FRESH_READER, es);
    TimesExact(FRESH_WRITER, FRESH_READER, es);
  }

  // ---- Logs in their own terms ----

  /** The message repeats one of the 256 before it. */
  predicate Repeated(es: seq<Entry>, i: nat)
    requires i < |es|
  {
    exists j :: 0 <= j < i && i - j <= 256 && es[i].m.msgType == es[j].m.msgType
      && es[i].m.category == es[j].m.category && es[i].m.body == es[j].m.body
  }

  function Names(es: seq<Entry>): set<seq<Byte>> {
    set e | e in es :: e.m.category
  }

  /** The clock never goes back and everything fits its field. Only the first message may carry its
      whole time: later fatal messages and deltas from 0xffff seconds on must be repeats. */
  predicate PlainAt(es: seq<Entry>, i: nat)
    requires i < |es|
  {
    var m, last := es[i].m, if i == 0 then 0 else es[i - 1].m.time;
    var delta := m.time / 1000 - last / 1000;
    && 0 <= last <= m.time < U64 / 2 && |m.category| < U32 && |m.body| < U32
    && if Repeated(es, i) then delta < U32
       else if i == 0 then m.msgType.Fatal? || delta != 0xffff
       else !m.msgType.Fatal? && delta < 0xffff
  }

  predicate Plain(es: seq<Entry>) {
    |Names(es)| <= 65533 && forall i :: 0 <= i < |es| ==> PlainAt(es, i)
  }

  /** What the writer knows after the first `i` messages. */
  ghost predicate Tracks(ws: WriterState, es: seq<Entry>, i: nat)
    requires i <= |es|
  {
    var names := set c | c in ws.registered :: c.name;
    && |ws.window| == (if i < WINDOW_SIZE then i else WINDOW_SIZE)
    && (forall k :: 0 <= k < |ws.window| ==> Same(es[i - 1 - k].m, ws.window[k]))
    && ws.lastTime == (if i == 0 then 0 else FromSecs(ToSecs(es[i - 1].m.time)))
    && |names| == |ws.registered| && names <= Names(es)
  }

  lemma TracksFind(ws: WriterState, es: seq<Entry>, i: nat)
    requires i < |es| && Tracks(ws, es, i)
    ensures Find(ws.window, es[i].m) != -1 <==> Repeated(es, i)
  {
    var index := Find(ws.window, es[i].m);
    if index != -1 {
      assert Same(es[i].m, es[i - 1 - index].m);
    }
    if Repeated(es, i) {
      var j :| 0 <= j < i && i - j <= 256 && es[i].m.msgType == es[j].m.msgType
        && es[i].m.category == es[j].m.category && es[i].m.body == es[j].m.body;
      assert Same(es[i - 1 - (i - 1 - j)].m, ws.window[i - 1 - j]);
    }
  }

  lemma TracksDelta(ws: WriterState, es: seq<Entry>, i: nat)
    requires i < |es| && Tracks(ws, es, i) && PlainAt(es, i)
    ensures 0 <= ws.lastTime <= es[i].m.time && (i == 0 ==> ws.lastTime == 0)
    ensures 0 <= SecsTo(ws.lastTime, es[i].m.time) == es[i].m.time / 1000 - (if i == 0 then 0 else es[i - 1].m.time) / 1000
  {
    hide Repeated, Find, Names;
    var last, time := if i == 0 then 0 else es[i - 1].m.time, es[i].m.time;
    assert ws.lastTime == 1000 * (last / 1000);
  }

  lemma TracksRoom(ws: WriterState, es: seq<Entry>, i: nat)
    requires i < |es| && Tracks(ws, es, i) && |Names(es)| <= MAX_CATEGORIES
    ensures Registered(ws.registered, es[i].m.category) || |ws.registered| < MAX_CATEGORIES
  {
    var names := set c | c in ws.registered :: c.name;
    if !Registered(ws.registered, es[i].m.category) {
      assert es[i].m.category in Names(es) - names;
      Smaller(names, Names(es), es[i].m.category);
    }
  }

  lemma Smaller(a: set<seq<Byte>>, b: set<seq<Byte>>, x: seq<Byte>)
    requires a <= b && x in b && x !in a
    ensures |a| < |b|
  {
    assert a <= b - {x};
    SubsetSize(a, b - {x});
  }

  lemma SubsetSize(a: set<seq<Byte>>, b: set<seq<Byte>>)
    requires a <= b
    ensures |a| <= |b|
  {
    assert b == a + (b - a);
  }

  lemma TracksOn(ws: WriterState, es: seq<Entry>, i: nat)
    requires i < |es| && Tracks(ws, es, i)
    ensures Tracks(AfterWrite(ws, es[i].m, es[i].filter), es, i + 1)
  {
    hide Find, ToSecs;
    var ws' := AfterWrite(ws, es[i].m, es[i].filter);
    forall k | 0 <= k < |ws'.window| ensures Same(es[i - k].m, ws'.window[k]) {
      if k > 0 {
        assert Same(es[i - 1 - (k - 1)].m, ws.window[k - 1]);
      }
    }
    var names, names' := set c | c in ws.registered :: c.name, set c | c in ws'.registered :: c.name;
    assert es[i].m.category in Names(es);
    if ws'.registered != ws.registered {
      assert ws'.registered == ws.registered + [Category(es[i].m.category, es[i].filter)];
      assert names' == names + {es[i].m.category};
    }
  }

  lemma {:induction false} PlainFits(ws: WriterState, es: seq<Entry>, i: nat)
    requires i <= |es| && Plain(es) && Tracks(ws, es, i)
    ensures StreamFits(ws, es[i..]) && ClocksFollow(ws, es[i..])
    decreases |es| - i
  {
    hide Find, ToSecs, SecsTo, Tracks, Registered, AfterWrite;
    if i < |es| {
      assert PlainAt(es, i);
      hide Repeated, Names;
      TracksFind(ws, es, i);
      TracksDelta(ws, es, i);
      TracksRoom(ws, es, i);
      TracksOn(ws, es, i);
      PlainFits(AfterWrite(ws, es[i].m, es[i].filter), es, i + 1);
      assert es[i..][0] == es[i] && es[i..][1..] == es[i + 1..];
    }
  }

  /** A fresh reader gets back every plain log from a fresh writer: types, categories, bodies and
      whole-second times. */
  lemma PlainLogRoundTrip(es: seq<Entry>)
    requires Plain(es)
    ensures var log := ReadAll(FRESH_READER, EncodeAll(FRESH_WRITER, es));
      SamePayloads(log.messages, es) && SameTimes(log.messages, es) && log.end.rest == [] && log.clean
  {
    assert Tracks(FRESH_WRITER, es, 0) by {
      assert (set c | c in FRESH_WRITER.registered :: c.name) == {};
    }
    PlainFits(FRESH_WRITER, es, 0);
    assert es[0..] == es;
    LogRoundTrip(es);
  }

  // ---- Concrete failures ----

  const ALL_ON := CategoryFilter(true, true, true, true)

  /** A first message 0xffff seconds after the epoch is lost. */
  lemma EpochTagLosesMessage()
    ensures var m := LogMessage(Info, [], [], FromSecs(0xffff));
      !Returns(Read(FRESH_READER, Encode(FRESH_WRITER, m, ALL_ON)), m, [])
  {
    hide Read, Encode;
    FramingExact(FRESH_WRITER, FRESH_READER, LogMessage(Info, [], [], FromSecs(0xffff)), ALL_ON);
  }

  /** A fatal message after the first comes back with the last time added to its own. */
  lemma FatalTimeDrifts()
    ensures var es := [Entry(LogMessage(Info, [], [], 1000), ALL_ON), Entry(LogMessage(Fatal, [], [], 2000), ALL_ON)];
      var messages := ReadAll(FRESH_READER, EncodeAll(FRESH_WRITER, es)).messages;
      |messages| == 2 && messages[1].time == 3000
  {
    hide Read, Encode;
    var es := [Entry(LogMessage(Info, [], [], 1000), ALL_ON), Entry(LogMessage(Fatal, [], [], 2000), ALL_ON)];
    var ws := AfterWrite(FRESH_WRITER, es[0].m, ALL_ON);
    var ws' := AfterWrite(ws, es[1].m, ALL_ON);
    assert es[1..] == [es[1]] && es[1..][1..] == [];
    assert EncodeAll(ws, es[1..]) == Encode(ws, es[1].m, ALL_ON) + [];
    StepRoundTrip(FRESH_WRITER, FRESH_READER, es[0].m, ALL_ON, EncodeAll(ws, es[1..]));
    var o := Read(FRESH_READER, EncodeAll(FRESH_WRITER, es));
    StepRoundTrip(ws, o.state, es[1].m, ALL_ON, []);
    NothingToRead(Read(o.state, o.rest).state);
    assert ReadAll(o.state, o.rest).messages == [Read(o.state, o.rest).m];
  }
}
