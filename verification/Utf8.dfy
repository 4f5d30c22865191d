/** pj_ansi_to_unicode of wide_char/make_complex_chinese.c, against the UTF-8 of section 3 of RFC 3629.
    Bytes and code units are numbers; masks and shifts are written as quotients and remainders. */
module Utf8 {
  import opened CTypes

  const QUESTION: nat := 0x3F
  const BOM: nat := 0xFEFF

  // ----- The standard

  predicate CodePoint(c: nat) {
    1 <= c <= 0x10FFFF
  }

  function Encode(c: nat): seq<Byte>
    requires CodePoint(c)
  {
    if c < 0x80 then [c]
    else if c < 0x800 then [0xC0 + c / 0x40, 0x80 + c % 0x40]
    else if c < 0x1_0000 then [0xE0 + c / 0x1000, 0x80 + c / 0x40 % 0x40, 0x80 + c % 0x40]
    else [0xF0 + c / 0x4_0000, 0x80 + c / 0x1000 % 0x40, 0x80 + c / 0x40 % 0x40, 0x80 + c % 0x40]
  }

  function EncodeAll(cs: seq<nat>): seq<Byte>
    requires forall i :: 0 <= i < |cs| ==> CodePoint(cs[i])
  {
    if cs == [] then [] else Encode(cs[0]) + EncodeAll(cs[1..])
  }

  // ----- What the decoder makes of any bytes

  /** Whether the buffer is returned at all, and the units written to it. */
  datatype Decoded = Decoded(ok: bool, units: seq<nat>)

  function Then(v: nat, d: Decoded): Decoded {
    Decoded(d.ok, [v] + d.units)
  }

  function Two(b: Byte, c: Byte): nat {
    b % 0x20 * 0x40 + c % 0x40
  }

  function Three(b: Byte, c: Byte, d: Byte): nat {
    b % 0x10 * 0x1000 + c % 0x40 * 0x40 + d % 0x40
  }

  /** What the loop body does with the bytes at hand. */
  datatype Token = Unit(v: nat, used: nat) | Skip(used: nat) | Stop | Truncated | Invalid

  function Next(s: seq<Byte>, start: bool): (t: Token)
    requires s != []
    ensures t.Unit? || t.Skip? ==> 0 < t.used <= |s|
  {
    var b := s[0];
    if b == 0 then Stop
    else if b < 0x80 then Unit(b, 1)
    else if 0xC0 <= b < 0xE0 then
      if |s| < 2 then Truncated else Unit(Two(b, s[1]), 2)
    else if 0xE0 <= b < 0xF0 then
      if |s| < 3 then Truncated
      else if Three(b, s[1], s[2]) == BOM && start then Skip(3)
      else Unit(Three(b, s[1], s[2]), 3)
    else if 0xF0 <= b < 0xF8 && |s| < 4 then Truncated
    else Invalid
  }

  /** The loop from some point on: `start` while nothing has been written, `room` units still to fill. */
  function Decode(bytes: seq<Byte>, start: bool, room: int): Decoded
    decreases |bytes|
  {
    if bytes == [] || room <= 0 then Decoded(true, [])
    else match Next(bytes, start)
      case Unit(v, used) => Then(v, Decode(bytes[used..], false, room - 1))
      case Skip(used) => Decode(bytes[used..], start, room)
      case Stop => Decoded(true, [])
      case Truncated => Decoded(true, [QUESTION])
      case Invalid => Decoded(false, [])
  }

  // ----- Decoding undoes encoding

  function SkipBoms(cs: seq<nat>): seq<nat> {
    if cs != [] && cs[0] == BOM then SkipBoms(cs[1..]) else cs
  }

  /** Units are wide enough for the code points that there is room for. */
  predicate AllNarrow(cs: seq<nat>, room: int) {
    forall i :: 0 <= i < |cs| && i < room ==> cs[i] < 0x1_0000
  }

  /** The first token of an encoded code point. */
  lemma NextOfEncoded(c: nat, rest: seq<Byte>, start: bool)
    requires CodePoint(c)
    ensures Next(Encode(c) + rest, start) ==
            if c >= 0x1_0000 then Invalid
            else if c == BOM && start then Skip(|Encode(c)|)
            else Unit(c, |Encode(c)|)
  {
    var e := Encode(c);
    var s := e + rest;
    assert s[0] == e[0];
    if c >= 0x1_0000 {
      assert |s| >= 4 && 0xF0 <= s[0] < 0xF8;
    } else if c >= 0x800 {
      assert s[1] == e[1] && s[2] == e[2] && 0xE0 <= s[0] < 0xF0;
      ThreeInverse(c);
    } else if c >= 0x80 {
      assert s[1] == e[1] && 0xC0 <= s[0] < 0xE0;
      TwoInverse(c);
    }
  }

  lemma DecodeFront(c: nat, rest: seq<Byte>, start: bool, room: int)
    requires CodePoint(c) && room > 0
    ensures Decode(Encode(c) + rest, start, room) ==
            if c >= 0x1_0000 then Decoded(false, [])
            else if c == BOM && start then Decode(rest, start, room)
            else Then(c, Decode(rest, false, room - 1))
  {
    NextOfEncoded(c, rest, start);
    assert (Encode(c) + rest)[|Encode(c)|..] == rest;
  }

  lemma TwoInverse(c: nat)
    requires 0x80 <= c < 0x800
    ensures Two(0xC0 + c / 0x40, 0x80 + c % 0x40) == c
  {
    assert (0xC0 + c / 0x40) % 0x20 == c / 0x40;
    assert (0x80 + c % 0x40) % 0x40 == c % 0x40;
  }

  lemma ThreeInverse(c: nat)
    requires 0x800 <= c < 0x1_0000
    ensures Three(0xE0 + c / 0x1000, 0x80 + c / 0x40 % 0x40, 0x80 + c % 0x40) == c
  {
    assert (0xE0 + c / 0x1000) % 0x10 == c / 0x1000;
    assert (0x80 + c / 0x40 % 0x40) % 0x40 == c / 0x40 % 0x40;
    assert (0x80 + c % 0x40) % 0x40 == c % 0x40;
    assert c / 0x40 == c / 0x1000 * 0x40 + c / 0x40 % 0x40;
  }

  lemma NarrowStep(cs: seq<nat>, room: int)
    requires cs != [] && room > 0
    ensures AllNarrow(cs, room) <==> cs[0] < 0x1_0000 && AllNarrow(cs[1..], room - 1)
    ensures cs[..Min(room, |cs|)] == [cs[0]] + cs[1..][..Min(room - 1, |cs| - 1)]
  {
    if AllNarrow(cs[1..], room - 1) {
      forall i | 0 < i < |cs| && i < room
        ensures cs[i] < 0x1_0000
      {
        assert cs[1..][i - 1] == cs[i];
      }
    }
  }

  /** d is what code points should decode to in the room there is. */
  ghost predicate GivesBack(d: Decoded, cs: seq<nat>, room: int) {
    && (d.ok <==> AllNarrow(cs, room))
    && (d.ok ==> d.units == if room <= 0 then [] else cs[..Min(room, |cs|)])
  }

  lemma GivesBackStep(d: Decoded, rest: Decoded, cs: seq<nat>, room: int)
    requires cs != [] && room > 0 && GivesBack(rest, cs[1..], room - 1)
    requires d == if cs[0] >= 0x1_0000 then Decoded(false, []) else Then(cs[0], rest)
    ensures GivesBack(d, cs, room)
  {
    NarrowStep(cs, room);
  }

  lemma {:induction false} DecodeAll(cs: seq<nat>, room: int)
    requires forall i :: 0 <= i < |cs| ==> CodePoint(cs[i])
    ensures GivesBack(Decode(EncodeAll(cs), false, room), cs, room)
    decreases |cs|
  {
    if cs != [] && room > 0 {
      var tail := EncodeAll(cs[1..]);
      DecodeAll(cs[1..], room - 1);
      DecodeFront(cs[0], tail, false, room);
      GivesBackStep(Decode(EncodeAll(cs), false, room), Decode(tail, false, room - 1), cs, room);
    }
  }

  /** Decoding the encoding of any code points gives them back, without the byte order marks in front and
      cut to the room there is; it gives nothing exactly when a code point it gets to needs four bytes. */
  lemma {:induction false} RoundTrip(cs: seq<nat>, room: int)
    requires forall i :: 0 <= i < |cs| ==> CodePoint(cs[i])
    ensures GivesBack(Decode(EncodeAll(cs), true, room), SkipBoms(cs), room)
    decreases |cs|
  {
    if cs != [] && room > 0 {
      DecodeFront(cs[0], EncodeAll(cs[1..]), true, room);
      if cs[0] == BOM {
        RoundTrip(cs[1..], room);
      } else {
        DecodeFront(cs[0], EncodeAll(cs[1..]), false, room);
        DecodeAll(cs, room);
      }
    }
  }

  // ----- Bytes that are no encoding

  /** The examples of section 7 of RFC 3629 and its byte order mark. */
  lemma EncodeExamples()
    ensures Encode(0x41) == [0x41] && Encode(0x391) == [0xCE, 0x91] && Encode(0x2262) == [0xE2, 0x89, 0xA2]
    ensures Encode(0x65E5) == [0xE6, 0x97, 0xA5] && Encode(0x2_33B4) == [0xF0, 0xA3, 0x8E, 0xB4]
    ensures Encode(0xFEFF) == [0xEF, 0xBB, 0xBF] && Encode(0x10_FFFF) == [0xF4, 0x8F, 0xBF, 0xBF]
  {
  }

  /** The mark is passed over only as long as nothing has been written. */
  lemma MarkAtStart(tail: seq<Byte>, room: int)
    requires room > 0
    ensures Decode([0xEF, 0xBB, 0xBF] + tail, true, room) == Decode(tail, true, room)
    ensures Decode([0xEF, 0xBB, 0xBF] + tail, false, room) == Then(0xFEFF, Decode(tail, false, room - 1))
  {
    EncodeExamples();
    DecodeFront(0xFEFF, tail, true, room);
    DecodeFront(0xFEFF, tail, false, room);
  }

  /** A byte that starts no sequence refuses the text, one that starts a sequence that is cut off gives a question mark
      and ends it, and a zero ends it; the bytes behind the first one are not looked at as to their kind. */
  lemma OddByte(b: Byte, tail: seq<Byte>, start: bool, room: int)
    requires room > 0
    ensures 0x80 <= b < 0xC0 || b >= 0xF8 ==> Decode([b] + tail, start, room) == Decoded(false, [])
    ensures 0xF0 <= b < 0xF8 && |tail| >= 3 ==> Decode([b] + tail, start, room) == Decoded(false, [])
    ensures (0xC0 <= b < 0xE0 && |tail| < 1) || (0xE0 <= b < 0xF0 && |tail| < 2) || (0xF0 <= b < 0xF8 && |tail| < 3) ==>
              Decode([b] + tail, start, room) == Decoded(true, [0x3F])
    ensures b == 0 ==> Decode([b] + tail, start, room) == Decoded(true, [])
    ensures 0xC0 <= b < 0xE0 && |tail| >= 1 ==>
              Decode([b] + tail, start, room)
              == Then((b - 0xC0) * 0x40 + tail[0] % 0x40, Decode(tail[1..], false, room - 1))
  {
    var s := [b] + tail;
    assert s[0] == b && |s| == |tail| + 1;
    if 0xC0 <= b < 0xE0 && |tail| >= 1 {
      assert s[1] == tail[0] && s[2..] == tail[1..];
    }
  }

  /** What follows the encoding of code points that the decoder takes is decoded as it would be on its own. */
  lemma {:induction false} DecodePrefix(cs: seq<nat>, tail: seq<Byte>, room: int)
    requires forall i :: 0 <= i < |cs| ==> CodePoint(cs[i]) && cs[i] < 0x1_0000
    requires |cs| < room
    ensures var d := Decode(tail, false, room - |cs|);
            Decode(EncodeAll(cs) + tail, false, room) == Decoded(d.ok, cs + d.units)
    decreases |cs|
  {
    if cs == [] {
      assert EncodeAll(cs) + tail == tail;
    } else {
      var d := Decode(tail, false, room - |cs|);
      Regroup(Encode(cs[0]), EncodeAll(cs[1..]), tail);
      DecodeFront(cs[0], EncodeAll(cs[1..]) + tail, false, room);
      DecodePrefix(cs[1..], tail, room - 1);
      Regroup([cs[0]], cs[1..], d.units);
      assert [cs[0]] + cs[1..] == cs;
    }
  }

  lemma Regroup<T>(a: seq<T>, b: seq<T>, c: seq<T>)
    ensures (a + b) + c == a + (b + c)
  {
  }

  /** So a text with a stray byte, or a byte from 0xF8 on, is refused wherever it stands. */
  lemma StrayRefused(cs: seq<nat>, b: Byte, tail: seq<Byte>, start: bool, room: int)
    requires forall i :: 0 <= i < |cs| ==> CodePoint(cs[i]) && cs[i] < 0x1_0000
    requires |cs| < room && (0x80 <= b < 0xC0 || b >= 0xF8) && (start ==> cs == [] || cs[0] != 0xFEFF)
    ensures !Decode(EncodeAll(cs) + ([b] + tail), start, room).ok
  {
    if start && cs != [] {
      var more := EncodeAll(cs[1..]) + ([b] + tail);
      assert EncodeAll(cs) + ([b] + tail) == Encode(cs[0]) + more;
      DecodeFront(cs[0], more, true, room);
      OddByte(b, tail, false, room - |cs|);
      DecodePrefix(cs[1..], [b] + tail, room - 1);
    } else {
      OddByte(b, tail, start, room - |cs|);
      if cs == [] {
        assert EncodeAll(cs) + ([b] + tail) == [b] + tail;
      } else {
        DecodePrefix(cs, [b] + tail, room);
      }
    }
  }

  // ----- The code

  /** The part of the loop body that reads. */
  method ReadToken(utf8: seq<Byte>, pc0: nat, start: bool) returns (t: Token)
    requires pc0 < |utf8|
    ensures t == Next(utf8[pc0..], start)
  {
    var pc, last := pc0, |utf8|;
    var b: nat := utf8[pc];
    pc := pc + 1;
    if b == 0 {
      return Stop;
    }
    if b < 0x80 {
    } else if 0xC0 <= b < 0xE0 {
      if pc == last {
        return Truncated;
      }
      b := Two(b, utf8[pc]);
      pc := pc + 1;
    } else if 0xE0 <= b < 0xF0 {
      if pc >= last - 1 {
        return Truncated;
      }
      b := Three(b, utf8[pc], utf8[pc + 1]);
      pc := pc + 2;
      if b == BOM && start {
        return Skip(pc - pc0);
      }
    } else if 0xF0 <= b < 0xF8 {
      if pc >= last - 2 {
        return Truncated;
      }
      return Invalid;
    } else {
      return Invalid;
    }
    return Unit(b, pc - pc0);
  }

  /** What has been written, and what decoding from pc on would add, make up the whole. */
  ghost predicate Progress(whole: Decoded, units: seq<nat>, utf8: seq<Byte>, pc: nat, room: int)
    requires pc <= |utf8|
  {
    var d := Decode(utf8[pc..], units == [], room);
    whole == Decoded(d.ok, units + d.units)
  }

  lemma ProgressStep(whole: Decoded, units: seq<nat>, utf8: seq<Byte>, pc: nat, room: int)
    requires pc < |utf8| && room > 0 && Progress(whole, units, utf8, pc, room)
    ensures var t := Next(utf8[pc..], units == []);
            && (t.Unit? ==> Progress(whole, units + [t.v], utf8, pc + t.used, room - 1))
            && (t.Skip? ==> Progress(whole, units, utf8, pc + t.used, room))
            && (t == Stop ==> whole == Decoded(true, units))
            && (t == Truncated ==> whole == Decoded(true, units + [QUESTION]))
            && (t == Invalid ==> whole == Decoded(false, units))
  {
    var t := Next(utf8[pc..], units == []);
    if t.Unit? {
      assert utf8[pc..][t.used..] == utf8[pc + t.used..];
      var d := Decode(utf8[pc + t.used..], false, room - 1);
      assert units + ([t.v] + d.units) == (units + [t.v]) + d.units;
    } else if t.Skip? {
      assert utf8[pc..][t.used..] == utf8[pc + t.used..];
    }
  }

  lemma ProgressEnd(whole: Decoded, units: seq<nat>, utf8: seq<Byte>, pc: nat, room: int)
    requires pc <= |utf8| && Progress(whole, units, utf8, pc, room) && (pc == |utf8| || room <= 0)
    ensures whole == Decoded(true, units)
  {
  }

  /** The buffer holds the units, and zeros after them. */
  ghost predicate Holds(buf: seq<nat>, units: seq<nat>) {
    units <= buf && forall k :: |units| <= k < |buf| ==> buf[k] == 0
  }

  method Put(outbuf: array<nat>, i: nat, v: nat, ghost units: seq<nat>)
    requires i == |units| < outbuf.Length && Holds(outbuf[..], units)
    modifies outbuf
    ensures Holds(outbuf[..], units + [v])
  {
    outbuf[i] := v;
  }

  /** Reading a token, seen from the decoding as a whole. */
  method TakeToken(utf8: seq<Byte>, pc: nat, start: bool, ghost whole: Decoded, ghost units: seq<nat>, ghost room: int)
    returns (t: Token)
    requires pc < |utf8| && room > 0 && Progress(whole, units, utf8, pc, room) && start == (units == [])
    ensures t.Unit? ==> 0 < t.used <= |utf8| - pc && Progress(whole, units + [t.v], utf8, pc + t.used, room - 1)
    ensures t.Skip? ==> 0 < t.used <= |utf8| - pc && Progress(whole, units, utf8, pc + t.used, room)
    ensures t == Stop ==> whole == Decoded(true, units)
    ensures t == Truncated ==> whole == Decoded(true, units + [QUESTION])
    ensures t == Invalid ==> whole == Decoded(false, units)
  {
    ProgressStep(whole, units, utf8, pc, room);
    t := ReadToken(utf8, pc, start);
  }

  /** What holds whenever the loop test is made. */
  ghost predicate AtTest(whole: Decoded, utf8: seq<Byte>, pc: nat, i: nat, wlen: int, buf: seq<nat>, units: seq<nat>) {
    && pc <= |utf8| && i == |units| && (i == 0 || i <= wlen) && wlen == |buf| - 1
    && Holds(buf, units) && Progress(whole, units, utf8, pc, wlen - i)
  }

  /** What holds when the loop has been left. */
  ghost predicate Finished(whole: Decoded, found: bool, wlen: int, buf: seq<nat>) {
    found == whole.ok && Holds(buf, whole.units) && (wlen >= 0 ==> |whole.units| <= wlen)
  }

  /** The loop body. */
  method DecodeOne(utf8: seq<Byte>, outbuf: array<nat>, pc: nat, i: nat, wlen: int,
                   ghost whole: Decoded, ghost units: seq<nat>)
    returns (go: bool, found: bool, pc': nat, i': nat, ghost units': seq<nat>)
    requires AtTest(whole, utf8, pc, i, wlen, outbuf[..], units) && pc < |utf8| && i < wlen
    modifies outbuf
    ensures go ==> pc' > pc && AtTest(whole, utf8, pc', i', wlen, outbuf[..], units')
    ensures !go ==> Finished(whole, found, wlen, outbuf[..])
  {
    go, found, pc', i', units' := true, true, pc, i, units;
    var t := TakeToken(utf8, pc, i == 0, whole, units, wlen - i);
    if t.Unit? {
      Put(outbuf, i, t.v, units);
      units' := units + [t.v];
      pc', i' := pc + t.used, i + 1;
    } else if t.Skip? {
      pc' := pc + t.used;
    } else {
      go, found := false, t != Invalid;
      if t == Truncated {
        Put(outbuf, i, QUESTION, units);
      }
    }
  }

  lemma AtEnd(whole: Decoded, utf8: seq<Byte>, pc: nat, i: nat, wlen: int, buf: seq<nat>, units: seq<nat>)
    requires AtTest(whole, utf8, pc, i, wlen, buf, units) && (pc == |utf8| || i >= wlen)
    ensures Finished(whole, true, wlen, buf)
  {
    ProgressEnd(whole, units, utf8, pc, wlen - i);
  }

  lemma AtStart(utf8: seq<Byte>, wlen: int, buf: seq<nat>)
    requires wlen == |buf| - 1 && Holds(buf, [])
    ensures AtTest(Decode(utf8, true, wlen), utf8, 0, 0, wlen, buf, [])
  {
    assert utf8[0..] == utf8;
  }

  /** The decoding loop. */
  method DecodeInto(utf8: seq<Byte>, outbuf: array<nat>, wlen: int, ghost whole: Decoded) returns (found: bool)
    requires wlen == outbuf.Length - 1 && Holds(outbuf[..], []) && whole == Decode(utf8, true, wlen)
    modifies outbuf
    ensures Finished(whole, found, wlen, outbuf[..])
  {
    var pc: nat, i: nat := 0, 0;
    ghost var units: seq<nat> := [];
    AtStart(utf8, wlen, outbuf[..]);
    while pc < |utf8| && i < wlen
      invariant AtTest(whole, utf8, pc, i, wlen, outbuf[..], units)
      decreases |utf8| - pc
    {
      var go;
      go, found, pc, i, units := DecodeOne(utf8, outbuf, pc, i, wlen, whole, units);
      if !go {
        return;
      }
    }
    AtEnd(whole, utf8, pc, i, wlen, outbuf[..], units);
    return true;
  }

  /** pj_ansi_to_unicode.  The buffer has count / 4 units; the last one is never written, so that what is
      returned ends in a zero.  found is false where the source returns a null pointer. */
  method AnsiToUnicode(utf8: seq<Byte>, count: nat) returns (found: bool, outbuf: array<nat>)
    ensures outbuf.Length == count / 4
    ensures var d := Decode(utf8, true, count / 4 - 1);
            && found == (utf8 != [] && d.ok)
            && Holds(outbuf[..], d.units) && (count >= 4 ==> |d.units| < outbuf.Length)
  {
    outbuf := new nat[count / 4](_ => 0);
    if |utf8| == 0 {
      return false, outbuf;
    }
    var wlen := count / 4 - 1;
    found := DecodeInto(utf8, outbuf, wlen, Decode(utf8, true, wlen));
  }

  /** Decoding what has been encoded, into a buffer of any size. */
  method DecodeEncoded(cs: seq<nat>, count: nat) returns (found: bool, outbuf: array<nat>)
    requires cs != [] && forall i :: 0 <= i < |cs| ==> CodePoint(cs[i])
    ensures outbuf.Length == count / 4
    ensures found <==> AllNarrow(SkipBoms(cs), outbuf.Length - 1)
    ensures found && count >= 4 ==>
              var t := SkipBoms(cs); var n := Min(outbuf.Length - 1, |t|);
              outbuf[..n] == t[..n] && forall k :: n <= k < outbuf.Length ==> outbuf[k] == 0
  {
    RoundTrip(cs, count / 4 - 1);
    assert Encode(cs[0]) != [];
    found, outbuf := AnsiToUnicode(EncodeAll(cs), count);
  }

  /** The first code point that is refused, and the last one that is not. */
  lemma FirstRefused()
    ensures !Decode(EncodeAll([0x1_0000]), true, 1).ok
    ensures Decode(EncodeAll([0xFFFF]), true, 1) == Decoded(true, [0xFFFF])
  {
    RoundTrip([0x1_0000], 1);
    RoundTrip([0xFFFF], 1);
  }
}
