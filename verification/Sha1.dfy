/** The streaming context of mozilla-sha1/sha1.c, proved to compute the digest of Sha1Standard
    for every way of cutting a message into updates. */
module Sha1 {
  import opened Sha1Standard

  // ----- The rewritten logical functions and the byte shifting, on single words

  /** The code's shorter forms of the first and third logical functions. */
  function Choose(b: Word, c: Word, d: Word): Word {
    ((c ^ d) & b) ^ d
  }

  function Majority(b: Word, c: Word, d: Word): Word {
    (b & c) | (d & (b | c))
  }

  function Parity(b: Word, c: Word, d: Word): Word {
    b ^ c ^ d
  }

  lemma ChooseAgrees(b: Word, c: Word, d: Word)
    ensures Choose(b, c, d) == (b & c) | (!b & d)
  {
  }

  lemma MajorityAgrees(b: Word, c: Word, d: Word)
    ensures Majority(b, c, d) == (b & c) | (b & d) | (c & d)
  {
  }

  /** Each pass of the code's four round loops is the standard's round. */
  lemma ChoosePass(r: Quintet, t: nat, w: Word)
    requires t < 20
    ensures Turn(r, Choose(r.b, r.c, r.d), w, 0x5a827999) == Round(r, t, w)
  {
    ChooseAgrees(r.b, r.c, r.d);
  }

  lemma ParityPass(r: Quintet, t: nat, w: Word)
    requires 20 <= t < 40 || 60 <= t < 80
    ensures Turn(r, Parity(r.b, r.c, r.d), w, if t < 40 then 0x6ed9eba1 else 0xca62c1d6) == Round(r, t, w)
  {
  }

  lemma MajorityPass(r: Quintet, t: nat, w: Word)
    requires 40 <= t < 60
    ensures Turn(r, Majority(r.b, r.c, r.d), w, 0x8f1bbcdc) == Round(r, t, w)
  {
    MajorityAgrees(r.b, r.c, r.d);
  }

  /** What shifting one byte into a word leaves: the old top byte is gone. */
  function ShiftIn(w: Word, x: Byte): Word {
    (w << 8) | (x as Word)
  }

  /** Whatever a word held before, after four bytes it holds exactly those four. */
  lemma FourBytesFillAWord(stale: Word, b0: Byte, b1: Byte, b2: Byte, b3: Byte)
    ensures ShiftIn(ShiftIn(ShiftIn(ShiftIn(stale, b0), b1), b2), b3) == WordOf(b0, b1, b2, b3)
  {
  }

  /** The word that results from shifting a list of bytes into it. */
  function ShiftAll(w: Word, s: seq<Byte>): Word {
    if s == [] then w else ShiftIn(ShiftAll(w, s[..|s| - 1]), s[|s| - 1])
  }

  /** Finished words are right whatever they held before. */
  ghost predicate Finished(words: seq<Word>, p: seq<Byte>)
    requires |words| == 80 && |p| <= 64
  {
    forall i :: 0 <= i < |p| / 4 ==> words[i] == WordOf(p[4 * i], p[4 * i + 1], p[4 * i + 2], p[4 * i + 3])
  }

  /** A started word is right up to its stale high bits. */
  ghost predicate Started(word: Word, part: seq<Byte>) {
    exists stale :: word == ShiftAll(stale, part)
  }

  ghost predicate Buffered(words: seq<Word>, p: seq<Byte>)
    requires |words| == 80 && |p| < 64
  {
    Finished(words, p) && Started(words[|p| / 4], p[4 * (|p| / 4)..])
  }

  lemma StartedStep(word: Word, part: seq<Byte>, x: Byte)
    requires Started(word, part)
    ensures Started(ShiftIn(word, x), part + [x])
    ensures |part| == 3 ==> ShiftIn(word, x) == WordOf(part[0], part[1], part[2], x)
  {
    var stale :| word == ShiftAll(stale, part);
    assert (part + [x])[..|part|] == part;
    assert ShiftIn(word, x) == ShiftAll(stale, part + [x]);
    if |part| == 3 {
      assert part == [part[0], part[1], part[2]];
      ShiftThree(stale, part[0], part[1], part[2]);
      FourBytesFillAWord(stale, part[0], part[1], part[2], x);
    }
  }

  lemma ShiftThree(stale: Word, b0: Byte, b1: Byte, b2: Byte)
    ensures ShiftAll(stale, [b0, b1, b2]) == ShiftIn(ShiftIn(ShiftIn(stale, b0), b1), b2)
  {
    assert [b0, b1, b2][..2] == [b0, b1];
    assert [b0, b1][..1] == [b0];
    assert [b0][..0] == [];
    assert ShiftAll(stale, [b0]) == ShiftIn(ShiftAll(stale, []), b0);
    assert ShiftAll(stale, [b0, b1]) == ShiftIn(ShiftAll(stale, [b0]), b1);
  }

  lemma FinishedStep(words: seq<Word>, p: seq<Byte>, x: Byte, word: Word)
    requires |words| == 80 && |p| < 64 && Finished(words, p)
    requires |p| % 4 == 3 ==> word == WordOf(p[|p| - 3], p[|p| - 2], p[|p| - 1], x)
    ensures Finished(words[|p| / 4 := word], p + [x])
  {
    var q, after := p + [x], words[|p| / 4 := word];
    forall i | 0 <= i < |q| / 4
      ensures after[i] == WordOf(q[4 * i], q[4 * i + 1], q[4 * i + 2], q[4 * i + 3])
    {
      if 4 * i + 3 < |p| {
        assert i < |p| / 4;
      } else {
        assert 4 * i + 3 == |p| && |p| / 4 == i;
      }
    }
  }

  /** Shifting the next byte into the buffer keeps it right, and the 64th byte completes the block. */
  lemma BufferStep(words: seq<Word>, p: seq<Byte>, x: Byte)
    requires |words| == 80 && |p| < 64 && Buffered(words, p)
    ensures var after := words[|p| / 4 := ShiftIn(words[|p| / 4], x)];
            && (|p| < 63 ==> Buffered(after, p + [x]))
            && (|p| == 63 ==> after[..16] == WordsOf(p + [x]))
  {
    var w, q := |p| / 4, p + [x];
    var after := words[w := ShiftIn(words[w], x)];
    StartedStep(words[w], p[4 * w..], x);
    assert q[4 * w..] == p[4 * w..] + [x];
    FinishedStep(words, p, x, after[w]);
    if |p| % 4 == 3 {
      assert |q| / 4 == w + 1 && q[4 * (w + 1)..] == [];
      assert |p| < 63 ==> after[w + 1] == ShiftAll(after[w + 1], []);
    } else {
      assert |q| / 4 == w;
    }
  }

  // ----- Absorbing block by block

  lemma {:induction false} AbsorbAppend(h: Quintet, s: seq<Byte>, block: seq<Byte>)
    requires |s| % 64 == 0 && |block| == 64
    ensures Absorb(h, s + block) == Compress(Absorb(h, s), WordsOf(block))
    decreases |s|
  {
    if |s| == 0 {
      assert s + block == block;
      assert block[..64] == block;
      assert block[64..] == [];
    } else {
      var t := s + block;
      assert t[..64] == s[..64];
      assert t[64..] == s[64..] + block;
      AbsorbAppend(Compress(h, WordsOf(s[..64])), s[64..], block);
    }
  }

  /** The length of the part of a message that fills whole blocks. */
  function Whole(n: nat): (r: nat)
    ensures r <= n && r % 64 == 0 && n - r == n % 64
  {
    n - n % 64
  }

  lemma TakeStep<T>(s: seq<T>, i: nat)
    requires i < |s|
    ensures s[..i + 1] == s[..i] + [s[i]]
  {
  }

  lemma FullAt64(n: nat)
    requires 0 < n <= 64
    ensures n % 64 == 0 <==> n == 64
  {
  }

  /** The unfinished block at the end of a message. */
  function Tail(m: seq<Byte>): (r: seq<Byte>)
    ensures |r| < 64
  {
    m[Whole(|m|)..]
  }

  lemma TailLength(m: seq<Byte>)
    ensures |Tail(m)| == |m| % 64
  {
  }

  /** The words chained from the whole blocks of a message, starting from h. */
  function Chained(h: Quintet, m: seq<Byte>): Quintet {
    Absorb(h, m[..Whole(|m|)])
  }

  /** What one more byte does to the whole blocks of a message and to its unfinished tail. */
  lemma MessageStep(h: Quintet, m: seq<Byte>, x: Byte)
    ensures if |Tail(m)| < 63 then
              Chained(h, m + [x]) == Chained(h, m) && Tail(m + [x]) == Tail(m) + [x]
            else
              Chained(h, m + [x]) == Compress(Chained(h, m), WordsOf(Tail(m) + [x])) && Tail(m + [x]) == []
  {
    var front, tail := m[..Whole(|m|)], Tail(m);
    assert m == front + tail;
    assert m + [x] == front + (tail + [x]);
    if |tail| < 63 {
      Cut(front, tail + [x]);
    } else {
      NoTail(h, front + (tail + [x]));
      AbsorbAppend(h, front, tail + [x]);
    }
  }

  lemma NoTail(h: Quintet, m: seq<Byte>)
    requires |m| % 64 == 0
    ensures Chained(h, m) == Absorb(h, m) && Tail(m) == []
  {
    assert m[..|m|] == m;
  }

  lemma Cut(front: seq<Byte>, tail: seq<Byte>)
    requires |front| % 64 == 0 && |tail| < 64
    ensures Whole(|front + tail|) == |front|
    ensures (front + tail)[..|front|] == front && (front + tail)[|front|..] == tail
  {
    var n := |front| + |tail|;
    assert n % 64 == |tail|;
  }

  /** The bit count of n bytes in 64-bit arithmetic. */
  function BitCount(n: nat): (r: nat)
    ensures r < TWO_64
  {
    if n == 0 then 0 else (BitCount(n - 1) + 8) % TWO_64
  }

  lemma {:induction false} BitCountQuotient(n: nat) returns (k: nat)
    ensures 8 * n == k * TWO_64 + BitCount(n)
  {
    k := 0;
    if n > 0 {
      k := BitCountQuotient(n - 1);
      if BitCount(n - 1) + 8 >= TWO_64 {
        k := k + 1;
      }
    }
  }

  lemma BitCountIsExact(n: nat)
    ensures BitCount(n) == (8 * n) % TWO_64
  {
    var k := BitCountQuotient(n);
  }

  /** Adding eight to a 64-bit count held as two 32-bit halves. */
  lemma CarryStep(hi: nat, lo: nat, n: nat)
    requires hi < TWO_32 && lo < TWO_32 && hi * TWO_32 + lo == BitCount(n)
    ensures var lo' := (lo + 8) % TWO_32;
            var hi' := (hi + if lo' < 8 then 1 else 0) % TWO_32;
            hi' * TWO_32 + lo' == BitCount(n + 1)
  {
    if lo + 8 < TWO_32 {
      assert (lo + 8) % TWO_32 == lo + 8;
    } else {
      assert (lo + 8) % TWO_32 == lo + 8 - TWO_32;
      if hi + 1 < TWO_32 {
        assert (hi + 1) % TWO_32 == hi + 1;
      } else {
        assert (hi + 1) % TWO_32 == 0;
      }
    }
  }

  // ----- The context

  class Context {
    const H: array<Word>
    const W: array<Word>
    var lenW: nat
    var sizeHi: nat
    var sizeLo: nat
    /** Every byte fed in since initialisation. */
    ghost var message: seq<Byte>

    ghost predicate Shape()
    {
      H.Length == 5 && W.Length == 80 && H != W
    }

    ghost function Chain(): Quintet
      requires Shape()
      reads H
    {
      Quintet(H[0], H[1], H[2], H[3], H[4])
    }

    /** The words chained so far and the buffer are those of message m. */
    ghost predicate Holds(m: seq<Byte>)
      reads this`lenW, H, W
    {
      && Shape()
      && lenW == |Tail(m)|
      && Chain() == Chained(INITIAL, m)
      && Buffered(W[..], Tail(m))
    }

    /** sizeHi:sizeLo is the exact bit count of n bytes, modulo 2^64. */
    ghost predicate Counts(n: nat)
      reads this`sizeHi, this`sizeLo
    {
      sizeHi < TWO_32 && sizeLo < TWO_32 && sizeHi * TWO_32 + sizeLo == BitCount(n)
    }

    ghost predicate Valid()
      reads this, H, W
    {
      Holds(message) && Counts(|message|)
    }

    /** The first loop of shaHashBlock: fills words 16 to 79 over whatever they held. */
    method ExtendSchedule()
      requires Shape()
      modifies W
      ensures forall u :: 0 <= u < 80 ==> W[u] == Schedule(old(W[..16]), u)
    {
      ghost var words := W[..16];
      for t := 16 to 80
        invariant forall u :: 0 <= u < t ==> W[u] == Schedule(words, u)
      {
        W[t] := Mix(W[t - 3], W[t - 8], W[t - 14], W[t - 16]);
      }
    }

    /** The first round loop of shaHashBlock, and the three that follow it. */
    method First(r0: Quintet, ghost h: Quintet) returns (r: Quintet)
      requires Shape() && r0 == Rounds(h, W[..0])
      ensures r == Rounds(h, W[..20])
    {
      r := r0;
      for t := 0 to 20
        invariant r == Rounds(h, W[..t])
      {
        ChoosePass(r, t, W[t]);
        assert W[..t + 1][..t] == W[..t];
        r := Turn(r, Choose(r.b, r.c, r.d), W[t], 0x5a827999);
      }
    }

    method Second(r0: Quintet, ghost h: Quintet) returns (r: Quintet)
      requires Shape() && r0 == Rounds(h, W[..20])
      ensures r == Rounds(h, W[..40])
    {
      r := r0;
      for t := 20 to 40
        invariant r == Rounds(h, W[..t])
      {
        ParityPass(r, t, W[t]);
        assert W[..t + 1][..t] == W[..t];
        r := Turn(r, Parity(r.b, r.c, r.d), W[t], 0x6ed9eba1);
      }
    }

    method Third(r0: Quintet, ghost h: Quintet) returns (r: Quintet)
      requires Shape() && r0 == Rounds(h, W[..40])
      ensures r == Rounds(h, W[..60])
    {
      r := r0;
      for t := 40 to 60
        invariant r == Rounds(h, W[..t])
      {
        MajorityPass(r, t, W[t]);
        assert W[..t + 1][..t] == W[..t];
        r := Turn(r, Majority(r.b, r.c, r.d), W[t], 0x8f1bbcdc);
      }
    }

    method Fourth(r0: Quintet, ghost h: Quintet) returns (r: Quintet)
      requires Shape() && r0 == Rounds(h, W[..60])
      ensures r == Rounds(h, W[..80])
    {
      r := r0;
      for t := 60 to 80
        invariant r == Rounds(h, W[..t])
      {
        ParityPass(r, t, W[t]);
        assert W[..t + 1][..t] == W[..t];
        r := Turn(r, Parity(r.b, r.c, r.d), W[t], 0xca62c1d6);
      }
    }

    /** The four round loops of shaHashBlock. */
    method RunRounds(h: Quintet) returns (r: Quintet)
      requires Shape()
      ensures r == Rounds(h, W[..])
    {
      r := First(h, h);
      r := Second(r, h);
      r := Third(r, h);
      r := Fourth(r, h);
      assert W[..80] == W[..];
    }

    method Store(h: Quintet)
      requires Shape()
      modifies H
      ensures Chain() == h
    {
      H[0], H[1], H[2], H[3], H[4] := h.a, h.b, h.c, h.d, h.e;
    }

    /** shaHashBlock. */
    method HashBlock()
      requires Shape()
      modifies H, W
      ensures Chain() == Compress(old(Chain()), old(W[..16]))
    {
      ghost var words := W[..16];
      var h := Quintet(H[0], H[1], H[2], H[3], H[4]);
      ExtendSchedule();
      assert W[..] == FullSchedule(words);
      var r := RunRounds(h);
      Store(Plus(h, r));
    }

    /** SHA1_Init. */
    constructor ()
      ensures Valid() && message == [] && fresh(H) && fresh(W)
    {
      H := new Word[5];
      W := new Word[80];
      new;
      Reset();
    }

    method Reset()
      requires Shape()
      modifies this, H, W
      ensures Valid() && message == []
    {
      lenW, sizeHi, sizeLo := 0, 0, 0;
      message := [];
      NoTail(INITIAL, []);
      Store(Quintet(0x67452301, 0xefcdab89, 0x98badcfe, 0x10325476, 0xc3d2e1f0));
      Clear();
      assert W[0] == ShiftAll(W[0], []);
      assert Started(W[..][0], []);
    }

    method Clear()
      requires Shape()
      modifies W
      ensures forall i :: 0 <= i < 80 ==> W[i] == 0
    {
      for i := 0 to 80
        invariant forall j :: 0 <= j < i ==> W[j] == 0
      {
        W[i] := 0;
      }
    }

    method ShiftByte(x: Byte, ghost tail: seq<Byte>)
      requires Shape() && lenW == |tail| < 64 && Buffered(W[..], tail)
      modifies this`lenW, W
      ensures Shape() && lenW == |tail| + 1
      ensures |tail| < 63 ==> Buffered(W[..], tail + [x])
      ensures |tail| == 63 ==> W[..16] == WordsOf(tail + [x])
    {
      ghost var words := W[..];
      BufferStep(words, tail, x);
      W[lenW / 4] := ShiftIn(W[lenW / 4], x);
      assert W[..] == words[|tail| / 4 := ShiftIn(words[|tail| / 4], x)];
      assert W[..16] == W[..][..16];
      lenW := lenW + 1;
    }

    /** The first half of a pass of the loop in SHA1_Update: the byte goes into W, a full block is hashed. */
    method PlaceByte(x: Byte, ghost m: seq<Byte>)
      requires Holds(m)
      modifies this`lenW, H, W
      ensures Holds(m + [x])
    {
      MessageStep(INITIAL, m, x);
      ShiftByte(x, Tail(m));
      FullAt64(lenW);
      if lenW % 64 == 0 {
        HashBlock();
        lenW := 0;
        assert W[0] == ShiftAll(W[0], []);
        assert Started(W[..][0], []);
      }
    }

    /** The second half: the carry from sizeLo into sizeHi. */
    method CountByte(ghost m: seq<Byte>)
      requires Holds(m) && m != [] && Counts(|m| - 1)
      modifies this`sizeHi, this`sizeLo
      ensures Holds(m) && Counts(|m|)
    {
      CarryStep(sizeHi, sizeLo, |m| - 1);
      sizeLo := (sizeLo + 8) % TWO_32;
      sizeHi := (sizeHi + if sizeLo < 8 then 1 else 0) % TWO_32;
    }

    /** The byte is on record. */
    ghost method Note(m: seq<Byte>)
      requires Holds(m) && Counts(|m|)
      modifies this`message
      ensures Valid() && message == m
    {
      message := m;
    }

    method PushByte(x: Byte)
      requires Valid()
      modifies this, H, W
      ensures Valid() && message == old(message) + [x]
    {
      ghost var m := message + [x];
      PlaceByte(x, message);
      CountByte(m);
      Note(m);
    }

    /** SHA1_Update: the message grows by the data, whatever its length. */
    method Update(data: seq<Byte>)
      requires Valid()
      modifies this, H, W
      ensures Valid() && message == old(message) + data
    {
      for i := 0 to |data|
        invariant Valid() && message == old(message) + data[..i]
      {
        TakeStep(data, i);
        PushByte(data[i]);
      }
      assert data[..|data|] == data;
    }

    method FeedZero()
      requires Valid()
      modifies this, H, W
      ensures Valid() && message == old(message) + [0]
      ensures lenW == if old(lenW) == 63 then 0 else old(lenW) + 1
    {
      NextFill(|message|);
      TailLength(message);
      TailLength(message + [0]);
      Update([0]);
    }

    /** Any number of SHA1_Update calls. */
    method UpdateAll(chunks: seq<seq<Byte>>)
      requires Valid()
      modifies this, H, W
      ensures Valid() && message == old(message) + Flatten(chunks)
    {
      for i := 0 to |chunks|
        invariant Valid() && message == old(message) + Flatten(chunks[..i])
      {
        FlattenStep(old(message), chunks, i);
        Update(chunks[i]);
      }
      assert chunks[..|chunks|] == chunks;
    }

    /** The loop of SHA1_Final that feeds in zero bytes.  It ends after at most 63 of them. */
    method PadZeros(ghost start: seq<Byte>)
      requires Valid() && message == start
      modifies this, H, W
      ensures Valid() && message == start + Zeros(ToBoundary(old(lenW)))
    {
      ghost var zeros, fed := ToBoundary(lenW), 0;
      while lenW != 56
        invariant Valid() && fed + ToBoundary(lenW) == zeros
        invariant message == start + Zeros(fed)
        decreases ToBoundary(lenW)
      {
        ZerosStep(start, fed);
        FeedZero();
        fed := fed + 1;
      }
    }

    method LengthField() returns (padlen: seq<Byte>)
      requires Counts(|message|)
      ensures padlen == BigEndian64((8 * |message|) % TWO_64)
    {
      BitCountIsExact(|message|);
      LengthBytesAreBigEndian(sizeHi, sizeLo, (8 * |message|) % TWO_64);
      padlen := LengthBytes(sizeHi, sizeLo);
    }

    method FeedMark()
      requires Valid()
      modifies this, H, W
      ensures Valid() && message == old(message) + [0x80]
      ensures ToBoundary(lenW) == ZeroCount(|old(message)|)
    {
      BoundaryStart(|message|);
      TailLength(message + [0x80]);
      Update([0x80]);
    }

    method PadToBoundary(ghost m: seq<Byte>)
      requires Valid() && message == m
      modifies this, H, W
      ensures Valid() && message == m + [0x80] + Zeros(ZeroCount(|m|))
    {
      FeedMark();
      PadZeros(m + [0x80]);
    }

    /** The padding of SHA1_Final. */
    method Pad(ghost m: seq<Byte>)
      requires Valid() && message == m
      modifies this, H, W
      ensures Shape() && Chain() == Absorb(INITIAL, m + Padding(|m|, (8 * |m|) % TWO_64))
    {
      PaddedIsWhole(m, ZeroCount(|m|), (8 * |m|) % TWO_64);
      var padlen := LengthField();
      PadToBoundary(m);
      Update(padlen);
    }

    /** One pass of the output loop of SHA1_Final: the top byte of a word of H goes out. */
    method EmitByte(k: nat) returns (x: Byte)
      requires Shape() && k < 5
      modifies H
      ensures x == LowByte(old(H[k]) >> 24) && H[..] == old(H[..])[k := old(H[k]) << 8]
    {
      x := LowByte(H[k] >> 24);
      H[k] := H[k] << 8;
    }

    /** The four passes of that loop which empty one word. */
    method EmitWord(k: nat) returns (bytes: seq<Byte>)
      requires Shape() && k < 5
      modifies H
      ensures bytes == BytesOf(old(H[k]))
      ensures forall i :: 0 <= i < 5 && i != k ==> H[i] == old(H[i])
    {
      TopBytes(H[k]);
      var x0 := EmitByte(k);
      var x1 := EmitByte(k);
      var x2 := EmitByte(k);
      var x3 := EmitByte(k);
      bytes := [x0, x1, x2, x3];
    }

    /** The output loop of SHA1_Final, four passes at a time. */
    method Emit(hashout: array<Byte>)
      requires Shape() && hashout.Length == 20
      modifies H, hashout
      ensures hashout[..] == old(Serialise(Chain()))
    {
      ghost var h := H[..];
      for k := 0 to 5
        invariant forall i :: k <= i < 5 ==> H[i] == h[i]
        invariant hashout[..4 * k] == Bytes(h[..k])
      {
        assert h[..k + 1][..k] == h[..k];
        var bytes := EmitWord(k);
        PutFour(hashout, 4 * k, bytes);
      }
      assert h[..5] == Words(old(Chain()));
    }

    static method PutFour(hashout: array<Byte>, at: nat, bytes: seq<Byte>)
      requires at + 4 <= hashout.Length && |bytes| == 4
      modifies hashout
      ensures hashout[..at + 4] == old(hashout[..at]) + bytes
    {
      hashout[at], hashout[at + 1], hashout[at + 2], hashout[at + 3] := bytes[0], bytes[1], bytes[2], bytes[3];
    }

    /** SHA1_Final: the digest of everything fed in since initialisation; the context starts afresh. */
    method Final(hashout: array<Byte>)
      requires Valid() && hashout.Length == 20
      modifies this, H, W, hashout
      ensures hashout[..] == DigestWith(old(message), (8 * |old(message)|) % TWO_64)
      ensures 8 * |old(message)| < TWO_64 ==> hashout[..] == Digest(old(message))
      ensures Valid() && message == []
    {
      if 8 * |message| < TWO_64 {
        Unwrapped(message, 8 * |message|);
      }
      Pad(message);
      Emit(hashout);
      Reset();
    }
  }

  /** The eight bytes SHA1_Final takes from sizeHi and sizeLo. */
  function LengthBytes(hi: nat, lo: nat): seq<Byte>
    requires hi < TWO_32 && lo < TWO_32
  {
    [ ((hi / 0x100_0000) % 256) as Byte, ((hi / 0x1_0000) % 256) as Byte,
      ((hi / 0x100) % 256) as Byte, (hi % 256) as Byte,
      ((lo / 0x100_0000) % 256) as Byte, ((lo / 0x1_0000) % 256) as Byte,
      ((lo / 0x100) % 256) as Byte, (lo % 256) as Byte ]
  }

  lemma HighHalf(hi: nat, lo: nat, n: nat)
    requires lo < TWO_32 && n == hi * TWO_32 + lo
    ensures n / 0x1_0000_0000 == hi
    ensures n / 0x100_0000_0000 == hi / 0x100
    ensures n / 0x1_0000_0000_0000 == hi / 0x1_0000
    ensures n / 0x100_0000_0000_0000 == hi / 0x100_0000
  {
  }

  lemma DropMultiple(k: nat, x: nat)
    ensures (256 * k + x) % 256 == x % 256
  {
  }

  lemma LowHalf(hi: nat, lo: nat, n: nat)
    requires lo < TWO_32 && n == hi * TWO_32 + lo
    ensures n % 256 == lo % 256
    ensures (n / 0x100) % 256 == (lo / 0x100) % 256
    ensures (n / 0x1_0000) % 256 == (lo / 0x1_0000) % 256
    ensures (n / 0x100_0000) % 256 == (lo / 0x100_0000) % 256
  {
    DropMultiple(hi * 0x100_0000, lo);
    assert n / 0x100 == hi * 0x100_0000 + lo / 0x100;
    DropMultiple(hi * 0x1_0000, lo / 0x100);
    assert n / 0x1_0000 == hi * 0x1_0000 + lo / 0x1_0000;
    DropMultiple(hi * 0x100, lo / 0x1_0000);
    assert n / 0x100_0000 == hi * 0x100 + lo / 0x100_0000;
    DropMultiple(hi, lo / 0x100_0000);
  }

  lemma LengthBytesAreBigEndian(hi: nat, lo: nat, n: nat)
    requires hi < TWO_32 && lo < TWO_32 && n == hi * TWO_32 + lo
    ensures n < TWO_64 && LengthBytes(hi, lo) == BigEndian64(n)
  {
    HighHalf(hi, lo, n);
    LowHalf(hi, lo, n);
  }

  /** How many bytes bring the buffer fill to 56. */
  function ToBoundary(lenW: nat): nat
    requires lenW < 64
  {
    if lenW <= 56 then 56 - lenW else 120 - lenW
  }

  lemma BoundaryStart(n: nat)
    ensures ToBoundary((n + 1) % 64) == ZeroCount(n)
  {
    NextFill(n);
  }

  lemma Unwrapped(m: seq<Byte>, bits: nat)
    requires bits == 8 * |m| < TWO_64
    ensures DigestWith(m, bits % TWO_64) == Digest(m)
  {
    assert bits % TWO_64 == bits;
  }

  lemma ZerosStep(s: seq<Byte>, k: nat)
    ensures (s + Zeros(k)) + [0] == s + Zeros(k + 1)
  {
  }

  lemma PaddedIsWhole(m: seq<Byte>, zeros: nat, bits: nat)
    requires bits < TWO_64 && zeros == ZeroCount(|m|)
    ensures var n := m + [0x80] + Zeros(zeros) + BigEndian64(bits);
            n == m + Padding(|m|, bits) && Whole(|n|) == |n| && n[..|n|] == n
  {
    var n := m + [0x80] + Zeros(zeros) + BigEndian64(bits);
    assert n == m + Padding(|m|, bits);
  }

  lemma NextFill(n: nat)
    ensures (n + 1) % 64 == if n % 64 == 63 then 0 else n % 64 + 1
  {
  }

  lemma TopOfOne(w: Word)
    ensures LowByte((w << 8) >> 24) == LowByte(w >> 16)
  {
    assert ((w << 8) >> 24) & 0xFF == (w >> 16) & 0xFF;
  }

  lemma TopOfTwo(w: Word)
    ensures LowByte(((w << 8) << 8) >> 24) == LowByte(w >> 8)
  {
    assert (((w << 8) << 8) >> 24) & 0xFF == (w >> 8) & 0xFF;
  }

  lemma TopOfThree(w: Word)
    ensures LowByte((((w << 8) << 8) << 8) >> 24) == LowByte(w)
  {
    assert ((((w << 8) << 8) << 8) >> 24) & 0xFF == w & 0xFF;
  }

  /** Shifting a word left a byte at a time brings out its four bytes in order. */
  lemma TopBytes(w: Word)
    ensures [LowByte(w >> 24), LowByte((w << 8) >> 24), LowByte(((w << 8) << 8) >> 24),
             LowByte((((w << 8) << 8) << 8) >> 24)] == BytesOf(w)
  {
    TopOfOne(w);
    TopOfTwo(w);
    TopOfThree(w);
  }

  // ----- Whole runs

  function Flatten(chunks: seq<seq<Byte>>): seq<Byte> {
    if chunks == [] then [] else Flatten(chunks[..|chunks| - 1]) + chunks[|chunks| - 1]
  }

  lemma FlattenStep(m: seq<Byte>, chunks: seq<seq<Byte>>, i: nat)
    requires i < |chunks|
    ensures m + Flatten(chunks[..i + 1]) == (m + Flatten(chunks[..i])) + chunks[i]
  {
    assert chunks[..i + 1][..i] == chunks[..i];
  }

  /** SHA1_Init, any number of SHA1_Update calls, SHA1_Final. */
  method HashChunks(chunks: seq<seq<Byte>>) returns (hash: seq<Byte>)
    ensures var m := Flatten(chunks); 8 * |m| < TWO_64 ==> hash == Digest(m)
  {
    var hashout := new Byte[20];
    var ctx := new Context();
    ctx.UpdateAll(chunks);
    ghost var m := ctx.message;
    assert m == Flatten(chunks);
    ctx.Final(hashout);
    hash := hashout[..];
    assert 8 * |m| < TWO_64 ==> hash == Digest(m);
  }
}
