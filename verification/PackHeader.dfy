/** gitpack_parse/parse_pack.c: the header of a packed object, its type and a variable-length size. */
module PackHeader {
  import opened CTypes

  // ----- The format

  /** Seven bits at a time, low ones first; the high bit says that more follow. */
  function EncodeRest(size: nat): seq<Byte> {
    if size < 128 then [size] else [128 + size % 128] + EncodeRest(size / 128)
  }

  /** The type and the low four bits of the size come first. */
  function Encode(kind: nat, size: nat): seq<Byte>
    requires kind < 8
  {
    if size < 16 then [kind * 16 + size] else [128 + kind * 16 + size % 16] + EncodeRest(size / 16)
  }

  function Pow2(n: nat): (r: nat)
    ensures r > 0
  {
    if n == 0 then 1 else 2 * Pow2(n - 1)
  }

  lemma Pow2Seven(n: nat)
    ensures Pow2(n + 7) == 128 * Pow2(n)
  {
    assert Pow2(n + 7) == 2 * Pow2(n + 6) == 4 * Pow2(n + 5);
    assert Pow2(n + 5) == 2 * Pow2(n + 4) == 4 * Pow2(n + 3);
    assert Pow2(n + 3) == 2 * Pow2(n + 2) == 4 * Pow2(n + 1) == 8 * Pow2(n);
  }

  // ----- What the decoding loop computes

  /** The high bit is set in all but the last of the bytes of a header. */
  predicate Ends(s: seq<Byte>) {
    exists i :: 0 <= i < |s| && s[i] < 128
  }

  /** The loop from some point on: what it adds to the size, and how many bytes it takes. */
  function Decoded(s: seq<Byte>, shift: nat): (r: (nat, nat))
    requires Ends(s)
    ensures 0 < r.1 <= |s|
    decreases |s|
  {
    var v := s[0] % 128 * Pow2(shift);
    if s[0] < 128 then (v, 1)
    else
      assert Ends(s[1..]) by {
        var i :| 0 <= i < |s| && s[i] < 128;
        assert s[1..][i - 1] == s[i];
      }
      var (w, n) := Decoded(s[1..], shift + 7);
      (v + w, n + 1)
  }

  lemma {:induction false} EncodeRestEnds(size: nat, tail: seq<Byte>)
    ensures Ends(EncodeRest(size) + tail)
    decreases size
  {
    var e := EncodeRest(size);
    if size < 128 {
      assert (e + tail)[0] < 128;
    } else {
      EncodeRestEnds(size / 128, tail);
      var s := EncodeRest(size / 128) + tail;
      var i :| 0 <= i < |s| && s[i] < 128;
      assert (e + tail)[i + 1] == s[i];
    }
  }

  lemma DecodedStep(s: seq<Byte>, rest: seq<Byte>, low: nat, shift: nat)
    requires low < 128 && s == [128 + low] + rest && Ends(s) && Ends(rest)
    ensures Decoded(s, shift) == (low * Pow2(shift) + Decoded(rest, shift + 7).0, Decoded(rest, shift + 7).1 + 1)
  {
    assert s[1..] == rest;
  }

  /** Decoding undoes encoding and takes exactly the bytes of the encoding. */
  lemma {:induction false} DecodedRest(size: nat, tail: seq<Byte>, shift: nat)
    ensures Ends(EncodeRest(size) + tail)
    ensures Decoded(EncodeRest(size) + tail, shift) == (size * Pow2(shift), |EncodeRest(size)|)
    decreases size
  {
    EncodeRestEnds(size, tail);
    var s := EncodeRest(size) + tail;
    if size < 128 {
      assert s[0] == size;
    } else {
      var q, r := size / 128, size % 128;
      var rest := EncodeRest(q) + tail;
      assert s == [128 + r] + rest;
      DecodedRest(q, tail, shift + 7);
      DecodedStep(s, rest, r, shift);
      Pow2Seven(shift);
      Distribute(q, r, Pow2(shift));
    }
  }

  lemma Distribute(q: nat, r: nat, p: nat)
    ensures (128 * q + r) * p == q * (128 * p) + r * p
  {
  }

  // ----- The int in the loop

  /** The loop from some point on finds the end of the header, and every one of its shifts is defined: by fewer
      places than an int has bits, and to a value an int can hold. */
  predicate Safe(s: seq<Byte>, shift: nat) {
    s != [] && shift < 32 && s[0] % 128 * Pow2(shift) < INT_END && (s[0] >= 128 ==> Safe(s[1..], shift + 7))
  }

  lemma {:induction false} SafeEnds(s: seq<Byte>, shift: nat)
    requires Safe(s, shift)
    ensures Ends(s)
    decreases |s|
  {
    if s[0] >= 128 {
      SafeEnds(s[1..], shift + 7);
      var i :| 0 <= i < |s[1..]| && s[1..][i] < 128;
      assert s[i + 1] < 128;
    }
  }

  lemma {:induction false} Pow2Sum(a: nat, b: nat)
    ensures Pow2(a + b) == Pow2(a) * Pow2(b)
    decreases b
  {
    if b > 0 {
      Pow2Sum(a, b - 1);
      Doubles(Pow2(a), Pow2(b - 1));
    }
  }

  lemma Doubles(p: nat, q: nat)
    ensures 2 * (p * q) == p * (2 * q)
  {
  }

  lemma Pow2Fourteen(n: nat)
    ensures Pow2(n + 14) == 16384 * Pow2(n)
  {
    Pow2Seven(n);
    Pow2Seven(n + 7);
  }

  lemma IntEnd(n: nat)
    requires n == 31
    ensures Pow2(n) == INT_END
  {
    Pow2Fourteen(n - 14);
    Pow2Fourteen(n - 28);
    assert Pow2(3) == 8;
  }

  lemma {:induction false} MultiplesGrow(a: nat, b: nat, d: nat)
    requires a <= b
    ensures a * d <= b * d
    decreases b
  {
    if a < b {
      MultiplesGrow(a, b - 1, d);
      assert (b - 1) * d == b * d - d;
    }
  }

  /** What is below a multiple of d has its multiples of d below it. */
  lemma RoundedBelow(q: nat, r: nat, d: nat, k: nat)
    requires r < d
    ensures q * d + r < k * d <==> q * d < k * d
  {
    if q < k {
      MultiplesGrow(q + 1, k, d);
      assert (q + 1) * d == q * d + d;
    } else {
      MultiplesGrow(k, q, d);
    }
  }

  /** The same for the numbers of the loop: the high bits decide whether a number fits an int. */
  lemma HighBitsDecide(q: nat, r: nat, bits: nat)
    requires bits < 32 && r < Pow2(bits)
    ensures q * Pow2(bits) + r < INT_END <==> q * Pow2(bits) < INT_END
  {
    Pow2Sum(31 - bits, bits);
    IntEnd(31 - bits + bits);
    RoundedBelow(q, r, Pow2(bits), Pow2(31 - bits));
  }

  lemma Places(q: nat, r: nat, p: nat)
    requires p > 0 && r < 128
    ensures q >= 1 ==> q * p >= p
    ensures r * p < 128 * p
  {
  }

  lemma {:induction false} Pow2Grows(a: nat, b: nat)
    requires a <= b
    ensures Pow2(a) <= Pow2(b)
    decreases b
  {
    if a < b {
      Pow2Grows(a, b - 1);
    }
  }

  lemma Unfold(size: nat, tail: seq<Byte>, shift: nat)
    requires size >= 128
    ensures Safe(EncodeRest(size) + tail, shift) <==>
            shift < 32 && size % 128 * Pow2(shift) < INT_END && Safe(EncodeRest(size / 128) + tail, shift + 7)
  {
    var s := EncodeRest(size) + tail;
    assert s[0] == 128 + size % 128 && s[1..] == EncodeRest(size / 128) + tail;
  }

  /** An encoded number is safe to read from a place if and only if it fits an int there. */
  lemma {:induction false} SafeRestIff(size: nat, tail: seq<Byte>, shift: nat)
    requires shift < 32
    ensures Safe(EncodeRest(size) + tail, shift) <==> size * Pow2(shift) < INT_END
    decreases size
  {
    if size < 128 {
      assert (EncodeRest(size) + tail)[0] == size;
    } else {
      var q, r := size / 128, size % 128;
      Unfold(size, tail, shift);
      if shift + 7 < 32 {
        SafeRestIff(q, tail, shift + 7);
      }
      FitsIff(q, r, shift);
    }
  }

  /** A number fits an int at its place if its low bits do and its high bits do at theirs. */
  lemma FitsIff(q: nat, r: nat, shift: nat)
    requires q >= 1 && r < 128 && shift < 32
    ensures r * Pow2(shift) < INT_END && shift + 7 < 32 && q * Pow2(shift + 7) < INT_END
       <==> (128 * q + r) * Pow2(shift) < INT_END
  {
    var p := Pow2(shift);
    Pow2Seven(shift);
    Distribute(q, r, p);
    Places(q, r, p);
    if shift + 7 < 32 {
      HighBitsDecide(q, r * p, shift + 7);
    } else {
      TooHigh(q, shift);
    }
  }

  lemma TooHigh(q: nat, shift: nat)
    requires q >= 1 && 32 <= shift + 7
    ensures q * (128 * Pow2(shift)) >= INT_END
  {
    Pow2Seven(shift);
    Pow2Grows(31, shift + 7);
    IntEnd(31);
    Places(q, 0, Pow2(shift + 7));
  }

  /** The whole header can be read: it ends among the bytes, and no shift overflows. */
  predicate SafeHeader(data: seq<Byte>) {
    data != [] && (data[0] >= 128 ==> Safe(data[1..], 4))
  }

  lemma SafeHighBits(q: nat, r: nat, tail: seq<Byte>, shift: nat)
    requires shift < 32 && r < Pow2(shift)
    ensures Safe(EncodeRest(q) + tail, shift) <==> q * Pow2(shift) + r < INT_END
  {
    SafeRestIff(q, tail, shift);
    HighBitsDecide(q, r, shift);
  }

  /** An encoded header can be read if and only if its size fits an int. */
  lemma SafeHeaderIff(kind: nat, size: nat, tail: seq<Byte>)
    requires kind < 8
    ensures SafeHeader(Encode(kind, size) + tail) <==> size < INT_END
  {
    var data := Encode(kind, size) + tail;
    if size >= 16 {
      assert Pow2(4) == 16;
      assert data[1..] == EncodeRest(size / 16) + tail;
      SafeHighBits(size / 16, size % 16, tail, 4);
    }
  }

  /** The smallest size that the source cannot read. */
  lemma TooLarge(kind: nat, tail: seq<Byte>)
    requires kind < 8
    ensures !SafeHeader(Encode(kind, 0x8000_0000) + tail)
  {
    SafeHeaderIff(kind, 0x8000_0000, tail);
  }

  /** Headers written out: a blob of 10 bytes, a blob of 300 and a commit of 2000. */
  lemma EncodeExamples()
    ensures Encode(3, 10) == [0x3A] && Encode(3, 300) == [0xBC, 0x12] && Encode(1, 2000) == [0x90, 0x7D]
  {
  }

  // ----- The code

  lemma SafeStep(s: seq<Byte>, shift: nat)
    requires Safe(s, shift)
    ensures Ends(s)
    ensures s[0] < 128 ==> Decoded(s, shift) == (s[0] % 128 * Pow2(shift), 1)
    ensures s[0] >= 128 ==> Ends(s[1..]) && Decoded(s, shift).1 == 1 + Decoded(s[1..], shift + 7).1
                            && Decoded(s, shift).0 == s[0] % 128 * Pow2(shift) + Decoded(s[1..], shift + 7).0
  {
    SafeEnds(s, shift);
    if s[0] >= 128 {
      SafeEnds(s[1..], shift + 7);
    }
  }

  /** The state of the loop before a pass: the size so far, and what the rest of the bytes will add. */
  ghost predicate Pending(data: seq<Byte>, used: nat, size0: nat, size: nat, shift: nat) {
    && used <= |data|
    && (Safe(data, 4) <==> Safe(data[used..], shift))
    && (Safe(data, 4) ==>
          && Ends(data) && Ends(data[used..])
          && size0 + Decoded(data, 4).0 == size + Decoded(data[used..], shift).0
          && Decoded(data, 4).1 == used + Decoded(data[used..], shift).1)
  }

  /** What the loop has to give. */
  ghost predicate Sum(data: seq<Byte>, used: nat, size0: nat, size: nat) {
    Safe(data, 4) && Ends(data) && size == size0 + Decoded(data, 4).0 && used == Decoded(data, 4).1
  }

  /** One pass: seven more bits, from a higher place. */
  method DecodeByte(data: seq<Byte>, used0: nat, ghost first: nat, size0: nat, shift: nat)
    returns (defined: bool, oneByte: Byte, size: nat, used: nat)
    requires Pending(data, used0, first, size0, shift)
    ensures !defined ==> !Safe(data, 4)
    ensures defined ==> used == used0 + 1 && used <= |data|
    ensures defined && oneByte >= 128 ==> Pending(data, used, first, size, shift + 7)
    ensures defined && oneByte < 128 ==> Sum(data, used, first, size)
  {
    oneByte, size, used := 0, size0, used0;
    if used == |data| || shift >= 32 {
      return false, oneByte, size, used;
    }
    oneByte := data[used];
    var addend := oneByte % 128 * Pow2(shift);
    if addend >= INT_END {
      return false, oneByte, size, used;
    }
    ghost var left := data[used..];
    assert left[0] == oneByte && left[1..] == data[used + 1..];
    if Safe(left, shift) {
      SafeStep(left, shift);
    }
    used := used + 1;
    size := size + addend;
    defined := true;
  }

  /** The loop: whether it finds the end and all its shifts are defined, the size and the bytes taken. */
  method DecodeRest(data: seq<Byte>, size0: nat) returns (defined: bool, size: nat, used: nat)
    ensures defined <==> Safe(data, 4)
    ensures defined ==> Sum(data, used, size0, size)
  {
    size, used := size0, 0;
    var oneByte: Byte, shift := 128, 4;
    assert data[0..] == data;
    if Safe(data, 4) {
      SafeEnds(data, 4);
    }
    defined := true;
    while oneByte >= 128
      invariant used <= |data|
      invariant if oneByte >= 128 then Pending(data, used, size0, size, shift) else Sum(data, used, size0, size)
      decreases |data| - used
    {
      defined, oneByte, size, used := DecodeByte(data, used, size0, size, shift);
      if !defined {
        return;
      }
      shift := shift + 7;
    }
  }

  /** The type, the size and the length of the header at the start of some bytes. */
  ghost predicate IsHeader(data: seq<Byte>, kind: nat, size: nat, used: nat) {
    && Ends(data) && kind == data[0] / 16 % 8
    && if data[0] < 128 then size == data[0] % 16 && used == 1
       else Ends(data[1..]) && size == data[0] % 16 + Decoded(data[1..], 4).0 && used == 1 + Decoded(data[1..], 4).1
  }

  /** The decoding at the start of an object. */
  method DecodeHeader(data: seq<Byte>) returns (defined: bool, kind: nat, size: nat, used: nat)
    ensures defined <==> SafeHeader(data)
    ensures defined ==> IsHeader(data, kind, size, used) && 0 < used <= |data|
  {
    kind, size, used := 0, 0, 0;
    if |data| == 0 {
      return false, kind, size, used;
    }
    var oneByte := data[0];
    kind, size, used := oneByte / 16 % 8, oneByte % 16, 1;
    defined := true;
    if oneByte >= 128 {
      var n;
      defined, size, n := DecodeRest(data[1..], size);
      used := 1 + n;
      if defined {
        var i :| 0 <= i < |data[1..]| && data[1..][i] < 128;
        assert data[i + 1] < 128;
      }
    }
  }

  lemma FirstByte(kind: nat, low: nat)
    requires kind < 8 && low < 16
    ensures (kind * 16 + low) / 16 % 8 == kind && (kind * 16 + low) % 16 == low && kind * 16 + low < 128
    ensures (128 + kind * 16 + low) / 16 % 8 == kind && (128 + kind * 16 + low) % 16 == low
  {
    assert (kind * 16 + low) / 16 == kind && (128 + kind * 16 + low) / 16 == 8 + kind;
  }

  /** The header of any type and size, whatever follows it, has one meaning, and exactly its bytes are taken. */
  lemma RoundTrip(kind: nat, size: nat, tail: seq<Byte>, kind': nat, size': nat, used: nat)
    requires kind < 8
    requires IsHeader(Encode(kind, size) + tail, kind', size', used)
    ensures kind' == kind && size' == size && used == |Encode(kind, size)|
  {
    var data := Encode(kind, size) + tail;
    FirstByte(kind, size % 16);
    if size < 16 {
      assert data[0] == kind * 16 + size;
    } else {
      assert data[0] == 128 + kind * 16 + size % 16;
      assert data[1..] == EncodeRest(size / 16) + tail;
      DecodedHigh(size / 16, tail, 4);
    }
  }

  lemma DecodedHigh(q: nat, tail: seq<Byte>, shift: nat)
    requires shift == 4 && Ends(EncodeRest(q) + tail)
    ensures Decoded(EncodeRest(q) + tail, shift) == (q * 16, |EncodeRest(q)|)
  {
    DecodedRest(q, tail, shift);
    assert Pow2(shift) == 16;
  }

  /** Encoding a header and decoding it, whatever bytes follow: defined exactly for sizes below 2^31. */
  method DecodeEncoded(kind: nat, size: nat, tail: seq<Byte>)
    returns (defined: bool, kind': nat, size': nat, used: nat)
    requires kind < 8
    ensures defined <==> size < 0x8000_0000
    ensures defined ==> kind' == kind && size' == size && used == |Encode(kind, size)|
  {
    SafeHeaderIff(kind, size, tail);
    defined, kind', size', used := DecodeHeader(Encode(kind, size) + tail);
    if defined {
      RoundTrip(kind, size, tail, kind', size', used);
    }
  }
}
