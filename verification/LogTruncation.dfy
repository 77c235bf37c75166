/** What a reader makes of a log that ends too early. */
module LogTruncation {
  import opened LogBytes
  import opened LogCodec
  import opened LogRoundTrip

  // ---- Input that goes on changes nothing that was read ----

  lemma VarIntExtends(s: seq<Byte>, t: seq<Byte>)
    ensures var p := ReadVarInt(s); p.Got? ==> ReadVarInt(s + t) == Got(p.value, p.rest + t)
  {
    if |s| >= 3 {
      assert (s + t)[1..3] == s[1..3];
    }
    if |s| >= 7 {
      assert (s + t)[3..7] == s[3..7];
    }
  }

  lemma BytesExtend(s: seq<Byte>, t: seq<Byte>, count: nat)
    ensures var p := ReadBytes(s, count); p.Got? ==> ReadBytes(s + t, count) == Got(p.value, p.rest + t)
  {
    if |s| >= count {
      assert (s + t)[..count] == s[..count] && (s + t)[count..] == s[count..] + t;
    }
  }

  lemma U8Extends(s: seq<Byte>, t: seq<Byte>)
    ensures var p := ReadU8(s); p.Got? ==> ReadU8(s + t) == Got(p.value, p.rest + t)
  {
  }

  lemma U64Extends(s: seq<Byte>, t: seq<Byte>)
    ensures var p := ReadU64(s); p.Got? ==> ReadU64(s + t) == Got(p.value, p.rest + t)
  {
    if |s| >= 8 {
      assert (s + t)[..8] == s[..8];
    }
  }

  lemma StringExtends(s: seq<Byte>, t: seq<Byte>)
    ensures var p := ReadString(s); p.Got? ==> ReadString(s + t) == Got(p.value, p.rest + t)
  {
    hide ReadVarInt, ReadBytes;
    VarIntExtends(s, t);
    var length := ReadVarInt(s);
    if length.Got? {
      BytesExtend(length.rest, t, length.value);
    }
  }

  lemma CategoryExtends(s: seq<Byte>, t: seq<Byte>)
    ensures var p := ReadCategory(s); p.Got? ==> ReadCategory(s + t) == Got(p.value, p.rest + t)
  {
    hide ReadString, ReadU8;
    StringExtends(s, t);
    var name := ReadString(s);
    if name.Got? {
      U8Extends(name.rest, t);
    }
  }

  lemma StampExtends(s: seq<Byte>, t: seq<Byte>)
    ensures var p := ReadStamp(s); p.Got? ==> ReadStamp(s + t) == Got(p.value, p.rest + t)
  {
    hide ReadVarInt, ReadU8, ReadU64;
    U8Extends(s, t);
    var field := ReadU8(s);
    if field.Got? {
      U64Extends(field.rest, t);
      VarIntExtends(field.rest, t);
    }
  }

  lemma FreshExtends(rs: ReaderState, id: nat, s: seq<Byte>, t: seq<Byte>)
    ensures Extends(ReadFresh(rs, id, s), ReadFresh(rs, id, s + t), t)
  {
    hide ReadStamp, ReadString;
    StampExtends(s, t);
    var stamp := ReadStamp(s);
    if stamp.Got? {
      StringExtends(stamp.rest, t);
    }
  }

  lemma RecentExtends(rs: ReaderState, short: bool, s: seq<Byte>, t: seq<Byte>)
    ensures Extends(ReadRecent(rs, short, s), ReadRecent(rs, short, s + t), t)
  {
    hide ReadVarInt, ReadU8;
    U8Extends(s, t);
    var field := ReadU8(s);
    if field.Got? {
      VarIntExtends(field.rest, t);
    }
  }

  /** The second outcome is the first with `t` left over as well, if the first is a message. */
  predicate Extends(o: Outcome, o': Outcome, t: seq<Byte>) {
    o.Message? ==> o' == Message(o.m, o.state, o.rest + t)
  }

  /** A message that could be read from what there was is read alike when there is more. */
  lemma {:induction false} ReadExtends(rs: ReaderState, s: seq<Byte>, t: seq<Byte>)
    ensures Extends(Read(rs, s), Read(rs, s + t), t)
    decreases |s|
  {
    hide ReadVarInt, ReadCategory, ReadRecent, ReadFresh;
    VarIntExtends(s, t);
    var next := ReadVarInt(s);
    if next.Got? {
      if next.value == REGISTER_CATEGORY {
        CategoryExtends(next.rest, t);
        var category := ReadCategory(next.rest);
        if category.Got? {
          ReadExtends(rs.(categories := rs.categories + [category.value]), category.rest, t);
        }
      } else {
        RecentExtends(rs, next.value == RECENT_MESSAGE_SHORT, next.rest, t);
        if next.value >= BEGIN_CATEGORIES {
          FreshExtends(rs, next.value - BEGIN_CATEGORIES, next.rest, t);
        }
      }
    }
  }

  // ---- One message cut off ----

  /** No message is read from a part of its bytes. */
  lemma {:induction false} CutMessageFails(ws: WriterState, rs: ReaderState, m: LogMessage, filter: CategoryFilter, n: nat)
    requires Lockstep(ws, rs) && Fits(ws, m) && Framed(ws, m) && n < |Encode(ws, m, filter)|
    ensures Read(rs, Encode(ws, m, filter)[..n]).Failed?
  {
    hide Read, Encode, Lockstep, Fits, Framed;
    var bytes := Encode(ws, m, filter);
    StepRoundTrip(ws, rs, m, filter, []);
    ReadExtends(rs, bytes[..n], bytes[n..]);
    assert bytes + [] == bytes == bytes[..n] + bytes[n..];
  }

  /** The length of the number a message's bytes begin with: an opcode or a category's id. */
  function LeadLength(ws: WriterState, m: LogMessage): nat {
    if Find(ws.window, m) != -1 || !Registered(ws.registered, m.category) then 1
    else if Position(ws.registered, m.category) < 252 then 1
    else if Position(ws.registered, m.category) < 65532 then 3
    else 7
  }

  lemma LeadingNumber(ws: WriterState, m: LogMessage, filter: CategoryFilter) returns (lead: nat)
    requires |ws.registered| <= MAX_CATEGORIES
    ensures lead < U32 && |VarInt(lead)| == LeadLength(ws, m) && VarInt(lead) <= Encode(ws, m, filter)
  {
    hide LittleEndian, String, FlagsOf, StampByte, StampTail, Find, SecsTo, Position, Registered;
    var index, p := Find(ws.window, m), Position(ws.registered, m.category);
    var delta := SecsTo(ws.lastTime, m.time);
    if index != -1 {
      lead := if delta < 16 && index < 16 then RECENT_MESSAGE_SHORT else RECENT_MESSAGE_LONG;
      assert VarInt(lead) <= Recent(index, delta);
    } else if !Registered(ws.registered, m.category) {
      lead := REGISTER_CATEGORY;
      assert VarInt(lead) <= Registration(m.category, filter);
    } else {
      lead := IdAt(p);
      assert lead == BEGIN_CATEGORIES + p;
      assert Encode(ws, m, filter) == Fresh(ws, m);
    }
  }

  lemma CutNumberFails(x: nat, n: nat)
    requires x < U32 && n < |VarInt(x)|
    ensures ReadVarInt(VarInt(x)[..n]).Fail?
  {
    hide VarInt, ReadVarInt;
    var bytes := VarInt(x);
    VarIntRoundTrip(x, []);
    VarIntExtends(bytes[..n], bytes[n..]);
    assert bytes + [] == bytes == bytes[..n] + bytes[n..];
  }

  /** A read consumes nothing exactly if it finds no number to begin with. */
  lemma {:induction false} ConsumesNothing(rs: ReaderState, s: seq<Byte>)
    ensures Read(rs, s).Failed? ==> (|Read(rs, s).rest| == |s| <==> ReadVarInt(s).Fail?)
  {
    hide ReadVarInt, ReadCategory, ReadStamp, ReadString;
  }

  /** A cut message is noticed exactly if its leading number is whole. */
  lemma {:induction false} CutMessageNoticed(ws: WriterState, rs: ReaderState, m: LogMessage, filter: CategoryFilter, n: nat)
    requires Lockstep(ws, rs) && Fits(ws, m) && Framed(ws, m) && n < |Encode(ws, m, filter)|
    ensures var o := Read(rs, Encode(ws, m, filter)[..n]);
      o.Failed? && (|o.rest| == n <==> n < LeadLength(ws, m))
  {
    var bytes := Encode(ws, m, filter);
    var cut := bytes[..n];
    CategoriesAgree(ws, rs);
    hide *;
    CutMessageFails(ws, rs, m, filter, n);
    ConsumesNothing(rs, cut);
    var lead := LeadingNumber(ws, m, filter);
    var number := VarInt(lead);
    if n < |number| {
      CutNumberFails(lead, n);
      assert cut == number[..n];
    } else {
      VarIntRoundTrip(lead, cut[|number|..]);
      assert cut == number + cut[|number|..];
    }
  }

  // ---- A log cut off ----

  lemma {:induction false} CutMessages(ws: WriterState, rs: ReaderState, es: seq<Entry>, n: nat, k: nat)
    requires Lockstep(ws, rs) && StreamFits(ws, es) && n <= |EncodeAll(ws, es)|
    requires k <= |es| && |EncodeAll(ws, es[..k])| <= n
    requires k < |es| ==> n < |EncodeAll(ws, es[..k + 1])|
    ensures var log := ReadAll(rs, EncodeAll(ws, es)[..n]);
      && |log.messages| == k && log.messages <= ReadAll(rs, EncodeAll(ws, es)).messages
      && (log.clean <==> k == |es| || n < |EncodeAll(ws, es[..k])| + LeadLength(StateAfter(ws, es[..k]), es[k].m))
    decreases |es|
  {
    hide Read, Encode, Lockstep, Fits, Framed, LeadLength, AfterWrite;
    NothingToRead(rs);
    var all := EncodeAll(ws, es);
    if k == 0 {
      assert es[..0] == [];
      if es != [] {
        var e := es[0];
        assert es[..1][0] == e && es[..1][1..] == [];
        CutMessageNoticed(ws, rs, e.m, e.filter, n);
        assert all[..n] == Encode(ws, e.m, e.filter)[..n];
      } else {
        assert all[..n] == [];
      }
    } else {
      var e, more := es[0], es[1..];
      var ws', first := AfterWrite(ws, e.m, e.filter), Encode(ws, e.m, e.filter);
      var rest := EncodeAll(ws', more);
      assert es[..k][0] == e && es[..k][1..] == more[..k - 1];
      assert k < |es| ==> es[..k + 1][0] == e && es[..k + 1][1..] == more[..k];
      assert all == first + rest && all[..n] == first + rest[..n - |first|];
      StepRoundTrip(ws, rs, e.m, e.filter, rest);
      SameOutcome(ws, rs, e.m, e.filter, rest, rest[..n - |first|]);
      CutMessages(ws', Read(rs, all).state, more, n - |first|, k - 1);
    }
  }

  lemma FirstPayloads(messages: seq<LogMessage>, all: seq<LogMessage>, es: seq<Entry>)
    requires messages <= all && SamePayloads(all, es)
    ensures SamePayloads(messages, es[..|messages|])
  {
    assert forall i :: 0 <= i < |messages| ==> messages[i] == all[i];
  }

  /** A log cut anywhere yields exactly the messages whose bytes are all there, and the cut goes
      unnoticed exactly if nothing, or only a part of the next message's leading number, is left. */
  lemma {:induction false} CutLog(ws: WriterState, rs: ReaderState, es: seq<Entry>, n: nat, k: nat)
    requires Lockstep(ws, rs) && StreamFits(ws, es) && n <= |EncodeAll(ws, es)|
    requires k <= |es| && |EncodeAll(ws, es[..k])| <= n
    requires k < |es| ==> n < |EncodeAll(ws, es[..k + 1])|
    ensures var log := ReadAll(rs, EncodeAll(ws, es)[..n]);
      && log.messages <= ReadAll(rs, EncodeAll(ws, es)).messages && SamePayloads(log.messages, es[..k])
      && (log.clean <==> k == |es| || n < |EncodeAll(ws, es[..k])| + LeadLength(StateAfter(ws, es[..k]), es[k].m))
  {
    hide *;
    CutMessages(ws, rs, es, n, k);
    StreamRoundTrip(ws, rs, es);
    FirstPayloads(ReadAll(rs, EncodeAll(ws, es)[..n]).messages, ReadAll(rs, EncodeAll(ws, es)).messages, es);
  }

  /** There is always such a number of whole messages. */
  lemma {:induction false} SomeAreWhole(ws: WriterState, es: seq<Entry>, n: nat) returns (k: nat)
    requires n <= |EncodeAll(ws, es)|
    ensures k <= |es| && |EncodeAll(ws, es[..k])| <= n
    ensures k < |es| ==> n < |EncodeAll(ws, es[..k + 1])|
  {
    hide EncodeAll;
    NoBytes(ws);
    k := 0;
    while k < |es| && |EncodeAll(ws, es[..k + 1])| <= n
      invariant k <= |es| && |EncodeAll(ws, es[..k])| <= n
    {
      k := k + 1;
    }
  }

  lemma NoBytes(ws: WriterState)
    ensures EncodeAll(ws, []) == []
  {
  }

  /** What follows a whole message does not matter to it. */
  lemma {:induction false} SameOutcome(
    ws: WriterState, rs: ReaderState, m: LogMessage, filter: CategoryFilter, a: seq<Byte>, b: seq<Byte>)
    requires Lockstep(ws, rs) && Fits(ws, m) && Framed(ws, m)
    ensures var bytes := Encode(ws, m, filter);
      Read(rs, bytes + a).Message? && Read(rs, bytes + b) == Message(Read(rs, bytes + a).m, Read(rs, bytes + a).state, b)
  {
    hide Read, Encode, Lockstep, Fits, Framed;
    var bytes := Encode(ws, m, filter);
    StepRoundTrip(ws, rs, m, filter, []);
    assert bytes + [] == bytes;
    ReadExtends(rs, bytes, a);
    ReadExtends(rs, bytes, b);
    assert [] + a == a && [] + b == b;
  }

  // ---- A device that runs out of room ----

  /** What a log's messages leave on a device with this much room, each written as far as it fits. */
  function Written(ws: WriterState, es: seq<Entry>, room: nat): seq<Byte>
    decreases |es|
  {
    if es == [] then []
    else
      var bytes := Fitting(Encode(ws, es[0].m, es[0].filter), room);
      bytes + Written(AfterWrite(ws, es[0].m, es[0].filter), es[1..], room - |bytes|)
  }

  /** A log cut where the room ends, however many messages are written after that. */
  lemma {:induction false} WrittenIsCut(ws: WriterState, es: seq<Entry>, room: nat)
    ensures var all := EncodeAll(ws, es);
      Written(ws, es, room) == if |all| <= room then all else all[..room]
    decreases |es|
  {
    hide Encode, AfterWrite;
    if es != [] {
      var first := Encode(ws, es[0].m, es[0].filter);
      var ws' := AfterWrite(ws, es[0].m, es[0].filter);
      WrittenIsCut(ws', es[1..], room - |Fitting(first, room)|);
    }
  }
}
