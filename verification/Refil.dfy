/** The refillable character source with one-character pushback of wide_char/make_complex_chinese.c. */
module Refil {

  /** What mxml_refil_getc returns: a character, or MXML_EOF. */
  datatype Chr = Eof | Chr(c: char)

  datatype Status = Ok | Error

  /** What one fread of the refill function gives: at least one character, or an error that stays. */
  datatype Chunk = Data(text: string) | IoError

  /** The characters that can be read before the input ends or fails. */
  function Before(chunks: seq<Chunk>): string {
    if chunks == [] || chunks[0].IoError? then "" else chunks[0].text + Before(chunks[1..])
  }

  /** Whether reading on runs into an error rather than the end. */
  predicate Fails(chunks: seq<Chunk>) {
    chunks != [] && (chunks[0].IoError? || Fails(chunks[1..]))
  }

  predicate Proper(chunks: seq<Chunk>) {
    forall i :: 0 <= i < |chunks| ==> chunks[i].Data? ==> chunks[i].text != ""
  }

  class Source {
    var status: Status
    var buffer: string
    var bufpos: nat
    var sparechar: Chr
    /** What the stream behind the source has still to give. */
    var chunks: seq<Chunk>

    ghost predicate Valid()
      reads this
    {
      && bufpos <= |buffer| && Proper(chunks)
      && (status == Error ==> bufpos == |buffer| && chunks != [] && chunks[0].IoError?)
    }

    /** What will be read once nothing is pushed back any more. */
    ghost function Under(): string
      requires Valid()
      reads this
    {
      buffer[bufpos..] + Before(chunks)
    }

    /** The plain stream: everything that will still be read, in order. */
    ghost function Rest(): string
      requires Valid()
      reads this
    {
      (if sparechar.Chr? then [sparechar.c] else "") + Under()
    }

    constructor (buffer: string, chunks: seq<Chunk>)
      requires Proper(chunks)
      ensures Valid() && Rest() == buffer + Before(chunks)
      ensures status == Ok && this.chunks == chunks && sparechar == Eof
    {
      status, this.buffer, bufpos, sparechar, this.chunks := Ok, buffer, 0, Eof, chunks;
    }

    /** mxml_refill_from_stream_func: a failing read leaves the buffer alone. */
    method Refill()
      requires Valid() && bufpos == |buffer|
      modifies this
      ensures Valid() && sparechar == old(sparechar)
      ensures Under() == old(Under()) && Fails(chunks) == Fails(old(chunks))
      ensures if Under() == "" then bufpos == |buffer| && (status == Ok ==> buffer == "") else bufpos == 0 < |buffer|
      ensures status == if Under() == "" && Fails(chunks) then Error else old(status)
    {
      if chunks == [] {
        buffer, bufpos := "", 0;
      } else if chunks[0].IoError? {
        status := Error;
      } else {
        buffer, bufpos, chunks := chunks[0].text, 0, chunks[1..];
      }
    }

    /** mxml_refil_getc: the next character of the plain stream, end-of-file exactly when there is none;
        at the end the status tells a failure from the end of the input. */
    method GetC() returns (r: Chr)
      requires Valid()
      modifies this
      ensures Valid() && Fails(chunks) == Fails(old(chunks)) && sparechar == Eof && Rest() == Under()
      ensures if old(Rest()) == "" then
                r == Eof && Rest() == "" && status == if Fails(chunks) then Error else old(status)
              else
                r == Chr(old(Rest())[0]) && Rest() == old(Rest())[1..] && status == old(status)
    {
      if sparechar != Eof {
        r := sparechar;
        sparechar := Eof;
        return;
      }
      if bufpos >= |buffer| {
        Refill();
        if status != Ok || |buffer| == 0 {
          return Eof;
        }
      }
      assert Under()[0] == buffer[bufpos];
      r := Chr(buffer[bufpos]);
      bufpos := bufpos + 1;
    }

    /** mxml_refil_ungetc: the character is read next; one pushed back before is forgotten. */
    method UngetC(c: Chr)
      requires Valid()
      modifies this`sparechar
      ensures Valid() && Under() == old(Under()) && sparechar == c
      ensures old(sparechar) == Eof && c.Chr? ==> Rest() == [c.c] + old(Rest())
    {
      sparechar := c;
    }
  }

  // ----- Interleaved reading and pushing back

  datatype Op = Get | Unget(c: Chr)

  /** A plain stream with a slot for one pushed-back character. */
  datatype Plain = Plain(slot: Chr, text: string)

  function Read(p: Plain): (r: (Chr, Plain)) {
    if p.slot.Chr? then (p.slot, Plain(Eof, p.text))
    else if p.text == "" then (Eof, p)
    else (Chr(p.text[0]), Plain(Eof, p.text[1..]))
  }

  /** What the reads of a run return on a plain stream. */
  function PlainRun(p: Plain, ops: seq<Op>): seq<Chr>
    decreases |ops|
  {
    if ops == [] then []
    else match ops[0]
      case Get => [Read(p).0] + PlainRun(Read(p).1, ops[1..])
      case Unget(c) => PlainRun(Plain(c, p.text), ops[1..])
  }

  /** Looking at a character by reading it and pushing it back changes nothing, provided that the next
      operation is not another pushback. */
  lemma PeekIsTransparent(p: Plain, ops: seq<Op>)
    requires p.slot == Eof && p.text != "" && (ops == [] || ops[0] == Get)
    ensures PlainRun(p, [Get, Unget(Chr(p.text[0]))] + ops) == [Chr(p.text[0])] + PlainRun(p, ops)
  {
    var c := Chr(p.text[0]);
    var all := [Get, Unget(c)] + ops;
    assert all[1..] == [Unget(c)] + ops && all[1..][1..] == ops;
    assert PlainRun(Plain(c, p.text[1..]), ops) == PlainRun(p, ops);
  }

  /** Any run over the source, however its input is cut into chunks, reads what the plain stream gives. */
  method RunOps(src: Source, ops: seq<Op>) returns (seen: seq<Chr>)
    requires src.Valid()
    modifies src
    ensures src.Valid() && seen == PlainRun(Plain(old(src.sparechar), old(src.Under())), ops)
  {
    seen := [];
    ghost var p := Plain(src.sparechar, src.Under());
    ghost var goal := PlainRun(p, ops);
    for i := 0 to |ops|
      invariant src.Valid() && p == Plain(src.sparechar, src.Under())
      invariant seen + PlainRun(p, ops[i..]) == goal
    {
      assert ops[i..][0] == ops[i] && ops[i..][1..] == ops[i + 1..];
      match ops[i]
      case Get =>
        var c := src.GetC();
        assert c == Read(p).0;
        seen := seen + [c];
        p := Read(p).1;
      case Unget(c) =>
        src.UngetC(c);
        p := Plain(c, p.text);
    }
  }
}
