/** The first published example of FIPS PUB 180-1, its Appendix A: the digest of "abc".  The tables are the words W(t)
    and the values that register A takes, sixteen at a time. */
module Sha1Example {
  import opened Sha1Standard
  import Sha1

  // ----- What the tables follow

  /** Step b of section 7 for one t. */
  predicate WordAt(w: seq<Word>, t: nat)
    requires 16 <= t < |w|
  {
    w[t] == Mix(w[t - 3], w[t - 8], w[t - 14], w[t - 16])
  }

  /** The registers after t rounds, from the values that A has had, the last five of which tell all. */
  function Registers(a: seq<Word>, t: nat): Quintet
    requires t + 4 < |a|
  {
    Quintet(a[t + 4], a[t + 3], S30(a[t + 2]), S30(a[t + 1]), S30(a[t]))
  }

  /** Step d of section 7 for one t, as far as A goes. */
  predicate ValueAt(a: seq<Word>, w: seq<Word>, t: nat)
    requires t < |w| == ROUNDS && t + 5 < |a|
  {
    a[t + 5] == Temp(a[t + 4], F(t, a[t + 3], S30(a[t + 2]), S30(a[t + 1])), S30(a[t]), w[t], K(t))
  }

  lemma ValueIsOfRound(a: seq<Word>, w: seq<Word>, t: nat)
    requires t < |w| == ROUNDS && t + 5 < |a| && a[t + 5] == Round(Registers(a, t), t, w[t]).a
    ensures ValueAt(a, w, t)
  {
  }

  /** The values of A during the rounds; the first five stand for the registers before them. */
  function Values(first: seq<Word>, w: seq<Word>, t: nat): (a: seq<Word>)
    requires |first| == 5 && t <= |w| == ROUNDS
    ensures |a| == t + 5
  {
    if t == 0 then first
    else
      var a := Values(first, w, t - 1);
      a + [Round(Registers(a, t - 1), t - 1, w[t - 1]).a]
  }

  lemma {:induction false} ValuesTell(first: seq<Word>, w: seq<Word>, t: nat)
    requires |first| == 5 && t <= |w| == ROUNDS
    ensures Rounds(Registers(first, 0), w[..t]) == Registers(Values(first, w, t), t)
  {
    if t > 0 {
      ValuesTell(first, w, t - 1);
      assert w[..t][..t - 1] == w[..t - 1];
    }
  }

  lemma {:induction false} ValuesFront(first: seq<Word>, w: seq<Word>, t: nat, n: nat)
    requires |first| == 5 && t <= n <= |w| == ROUNDS
    ensures Values(first, w, n)[..t + 5] == Values(first, w, t)
    decreases n
  {
    if t < n {
      ValuesFront(first, w, t, n - 1);
      assert Values(first, w, n)[..t + 5] == Values(first, w, n - 1)[..t + 5];
    }
  }

  lemma SameRegisters(a: seq<Word>, b: seq<Word>, t: nat)
    requires t + 5 <= |b| <= |a| && a[..|b|] == b
    ensures Registers(a, t) == Registers(b, t)
  {
    assert forall i :: 0 <= i < |b| ==> a[i] == a[..|b|][i];
  }

  lemma AllValues(first: seq<Word>, w: seq<Word>, t: nat, n: nat)
    requires |first| == 5 && t < n <= |w| == ROUNDS
    ensures ValueAt(Values(first, w, n), w, t)
  {
    var a, b, c := Values(first, w, n), Values(first, w, t + 1), Values(first, w, t);
    ValuesFront(first, w, t + 1, n);
    ValuesFront(first, w, t, t + 1);
    SameRegisters(b, c, t);
    SameRegisters(a, b, t);
    assert a[t + 5] == a[..t + 6][t + 5] == b[t + 5];
    ValueIsOfRound(a, w, t);
  }

  // ----- The tables

  predicate Words0(w: seq<Word>)
    requires |w| == ROUNDS
  {
    && w[0] == 0x61626380 && w[1] == 0x00000000 && w[2] == 0x00000000 && w[3] == 0x00000000
    && w[4] == 0x00000000 && w[5] == 0x00000000 && w[6] == 0x00000000 && w[7] == 0x00000000
    && w[8] == 0x00000000 && w[9] == 0x00000000 && w[10] == 0x00000000 && w[11] == 0x00000000
    && w[12] == 0x00000000 && w[13] == 0x00000000 && w[14] == 0x00000000 && w[15] == 0x00000018
  }

  predicate Words16(w: seq<Word>)
    requires |w| == ROUNDS
  {
    && w[16] == 0xc2c4c700 && w[17] == 0x00000000 && w[18] == 0x00000030 && w[19] == 0x85898e01
    && w[20] == 0x00000000 && w[21] == 0x00000060 && w[22] == 0x0b131c03 && w[23] == 0x00000030
    && w[24] == 0x85898ec1 && w[25] == 0x16263806 && w[26] == 0x00000000 && w[27] == 0x00000180
    && w[28] == 0x2c4c700c && w[29] == 0x000000f0 && w[30] == 0x93afb507 && w[31] == 0x5898e048
  }

  predicate Words32(w: seq<Word>)
    requires |w| == ROUNDS
  {
    && w[32] == 0x8e9a9202 && w[33] == 0x00000600 && w[34] == 0xb131c0f0 && w[35] == 0x16263bc6
    && w[36] == 0x4ebed41e && w[37] == 0x626380a1 && w[38] == 0x16263806 && w[39] == 0x000018c0
    && w[40] == 0xd2e138c4 && w[41] == 0x00000f00 && w[42] == 0x3afb5079 && w[43] == 0x898e04e5
    && w[44] == 0xe2ba3c2b && w[45] == 0x000060c0 && w[46] == 0x053a37cd && w[47] == 0x74458547
  }

  predicate Words48(w: seq<Word>)
    requires |w| == ROUNDS
  {
    && w[48] == 0xda9415ed && w[49] == 0x26380a16 && w[50] == 0x626383a1 && w[51] == 0x4ebf54de
    && w[52] == 0x3835b44b && w[53] == 0x0000f600 && w[54] == 0x1e84c7a3 && w[55] == 0x98e04d98
    && w[56] == 0x651d16a0 && w[57] == 0x62658ca1 && w[58] == 0x458544d6 && w[59] == 0x44584cb7
    && w[60] == 0x7ba06619 && w[61] == 0x6380aea2 && w[62] == 0x0ae55269 && w[63] == 0x627b49a1
  }

  predicate Words64(w: seq<Word>)
    requires |w| == ROUNDS
  {
    && w[64] == 0x7cd45c9d && w[65] == 0x000f0000 && w[66] == 0xfb50753a && w[67] == 0xec6765e8
    && w[68] == 0xba3c2be2 && w[69] == 0x0060c000 && w[70] == 0x3a37cd05 && w[71] == 0x458546f4
    && w[72] == 0xb8599dd6 && w[73] == 0x380a1a26 && w[74] == 0x01e02203 && w[75] == 0xe7cc3456
    && w[76] == 0xe6e60b69 && w[77] == 0x00f60a00 && w[78] == 0x5795ef4f && w[79] == 0x822e0879
  }

  predicate Start(a: seq<Word>)
    requires |a| >= 5
  {
    && a[0] == 0x0f4b87c3 && a[1] == 0x40c951d8 && a[2] == 0x62eb73fa && a[3] == 0xefcdab89
    && a[4] == 0x67452301
  }

  predicate Values0(a: seq<Word>)
    requires |a| == ROUNDS + 5
  {
    && a[5] == 0x0116fc33 && a[6] == 0x8990536d && a[7] == 0xa1390f08 && a[8] == 0xcdd8e11b
    && a[9] == 0xcfd499de && a[10] == 0x3fc7ca40 && a[11] == 0x993e30c1 && a[12] == 0x9e8c07d4
  }

  predicate Values8(a: seq<Word>)
    requires |a| == ROUNDS + 5
  {
    && a[13] == 0x4b6ae328 && a[14] == 0x8351f929 && a[15] == 0xfbda9e89 && a[16] == 0x63188fe4
    && a[17] == 0x4607b664 && a[18] == 0x9128f695 && a[19] == 0x196bee77 && a[20] == 0x20bdd62f
  }

  predicate Values16(a: seq<Word>)
    requires |a| == ROUNDS + 5
  {
    && a[21] == 0x4e925823 && a[22] == 0x82aa6728 && a[23] == 0xdc64901d && a[24] == 0xfd9e1d7d
    && a[25] == 0x1a37b0ca && a[26] == 0x33a23bfc && a[27] == 0x21283486 && a[28] == 0xd541f12d
  }

  predicate Values24(a: seq<Word>)
    requires |a| == ROUNDS + 5
  {
    && a[29] == 0xc7567dc6 && a[30] == 0x48413ba4 && a[31] == 0xbe35fbd5 && a[32] == 0x4aa84d97
    && a[33] == 0x8370b52e && a[34] == 0xc5fbaf5d && a[35] == 0x1267b407 && a[36] == 0x3b845d33
  }

  predicate Values32(a: seq<Word>)
    requires |a| == ROUNDS + 5
  {
    && a[37] == 0x046faa0a && a[38] == 0x2c0ebc11 && a[39] == 0x21796ad4 && a[40] == 0xdcbbb0cb
    && a[41] == 0x0f511fd8 && a[42] == 0xdc63973f && a[43] == 0x4c986405 && a[44] == 0x32de1cba
  }

  predicate Values40(a: seq<Word>)
    requires |a| == ROUNDS + 5
  {
    && a[45] == 0xfc87dedf && a[46] == 0x970a0d5c && a[47] == 0x7f193dc5 && a[48] == 0xee1b1aaf
    && a[49] == 0x40f28e09 && a[50] == 0x1c51e1f2 && a[51] == 0xa01b846c && a[52] == 0xbead02ca
  }

  predicate Values48(a: seq<Word>)
    requires |a| == ROUNDS + 5
  {
    && a[53] == 0xbaf39337 && a[54] == 0x120731c5 && a[55] == 0x641db2ce && a[56] == 0x3847ad66
    && a[57] == 0xe490436d && a[58] == 0x27e9f1d8 && a[59] == 0x7b71f76d && a[60] == 0x5e6456af
  }

  predicate Values56(a: seq<Word>)
    requires |a| == ROUNDS + 5
  {
    && a[61] == 0xc846093f && a[62] == 0xd262ff50 && a[63] == 0x09d785fd && a[64] == 0x3f52de5a
    && a[65] == 0xd756c147 && a[66] == 0x548c9cb2 && a[67] == 0xb66c020b && a[68] == 0x6b61c9e1
  }

  predicate Values64(a: seq<Word>)
    requires |a| == ROUNDS + 5
  {
    && a[69] == 0x19dfa7ac && a[70] == 0x101655f9 && a[71] == 0x0c3df2b4 && a[72] == 0x78dd4d2b
    && a[73] == 0x497093c0 && a[74] == 0x3f2588c2 && a[75] == 0xc199f8c7 && a[76] == 0x39859de7
  }

  predicate Values72(a: seq<Word>)
    requires |a| == ROUNDS + 5
  {
    && a[77] == 0xedb42de4 && a[78] == 0x11793f6f && a[79] == 0x5ee76897 && a[80] == 0x63f7dab7
    && a[81] == 0xa079b7d9 && a[82] == 0x860d21cc && a[83] == 0x5738d5e1 && a[84] == 0x42541b35
  }

  // ----- Each follows from the one before

  lemma NextWords16(w: seq<Word>)
    requires |w| == ROUNDS && Words0(w) && forall t {:trigger WordAt(w, t)} :: 16 <= t < 32 ==> WordAt(w, t)
    ensures Words16(w)
  {
    assert WordAt(w, 16) && WordAt(w, 17) && WordAt(w, 18) && WordAt(w, 19);
    assert WordAt(w, 20) && WordAt(w, 21) && WordAt(w, 22) && WordAt(w, 23);
    assert WordAt(w, 24) && WordAt(w, 25) && WordAt(w, 26) && WordAt(w, 27);
    assert WordAt(w, 28) && WordAt(w, 29) && WordAt(w, 30) && WordAt(w, 31);
  }

  lemma NextWords32(w: seq<Word>)
    requires |w| == ROUNDS && Words16(w) && forall t {:trigger WordAt(w, t)} :: 32 <= t < 48 ==> WordAt(w, t)
    ensures Words32(w)
  {
    assert WordAt(w, 32) && WordAt(w, 33) && WordAt(w, 34) && WordAt(w, 35);
    assert WordAt(w, 36) && WordAt(w, 37) && WordAt(w, 38) && WordAt(w, 39);
    assert WordAt(w, 40) && WordAt(w, 41) && WordAt(w, 42) && WordAt(w, 43);
    assert WordAt(w, 44) && WordAt(w, 45) && WordAt(w, 46) && WordAt(w, 47);
  }

  lemma NextWords48(w: seq<Word>)
    requires |w| == ROUNDS && Words32(w) && forall t {:trigger WordAt(w, t)} :: 48 <= t < 64 ==> WordAt(w, t)
    ensures Words48(w)
  {
    assert WordAt(w, 48) && WordAt(w, 49) && WordAt(w, 50) && WordAt(w, 51);
    assert WordAt(w, 52) && WordAt(w, 53) && WordAt(w, 54) && WordAt(w, 55);
    assert WordAt(w, 56) && WordAt(w, 57) && WordAt(w, 58) && WordAt(w, 59);
    assert WordAt(w, 60) && WordAt(w, 61) && WordAt(w, 62) && WordAt(w, 63);
  }

  lemma NextWords64(w: seq<Word>)
    requires |w| == ROUNDS && Words48(w) && forall t {:trigger WordAt(w, t)} :: 64 <= t < 80 ==> WordAt(w, t)
    ensures Words64(w)
  {
    assert WordAt(w, 64) && WordAt(w, 65) && WordAt(w, 66) && WordAt(w, 67);
    assert WordAt(w, 68) && WordAt(w, 69) && WordAt(w, 70) && WordAt(w, 71);
    assert WordAt(w, 72) && WordAt(w, 73) && WordAt(w, 74) && WordAt(w, 75);
    assert WordAt(w, 76) && WordAt(w, 77) && WordAt(w, 78) && WordAt(w, 79);
  }

  lemma NextValues0(a: seq<Word>, w: seq<Word>)
    requires |w| == ROUNDS && |a| == ROUNDS + 5 && Start(a) && Words0(w)
    requires forall t {:trigger ValueAt(a, w, t)} :: 0 <= t < 8 ==> ValueAt(a, w, t)
    ensures Values0(a)
  {
    assert ValueAt(a, w, 0) && ValueAt(a, w, 1) && ValueAt(a, w, 2) && ValueAt(a, w, 3);
    assert ValueAt(a, w, 4) && ValueAt(a, w, 5) && ValueAt(a, w, 6) && ValueAt(a, w, 7);
  }

  lemma NextValues8(a: seq<Word>, w: seq<Word>)
    requires |w| == ROUNDS && |a| == ROUNDS + 5 && Values0(a) && Words0(w)
    requires forall t {:trigger ValueAt(a, w, t)} :: 8 <= t < 16 ==> ValueAt(a, w, t)
    ensures Values8(a)
  {
    assert ValueAt(a, w, 8) && ValueAt(a, w, 9) && ValueAt(a, w, 10) && ValueAt(a, w, 11);
    assert ValueAt(a, w, 12) && ValueAt(a, w, 13) && ValueAt(a, w, 14) && ValueAt(a, w, 15);
  }

  lemma NextValues16(a: seq<Word>, w: seq<Word>)
    requires |w| == ROUNDS && |a| == ROUNDS + 5 && Values8(a) && Words16(w)
    requires forall t {:trigger ValueAt(a, w, t)} :: 16 <= t < 24 ==> ValueAt(a, w, t)
    ensures Values16(a)
  {
    assert ValueAt(a, w, 16) && ValueAt(a, w, 17) && ValueAt(a, w, 18) && ValueAt(a, w, 19);
    assert ValueAt(a, w, 20) && ValueAt(a, w, 21) && ValueAt(a, w, 22) && ValueAt(a, w, 23);
  }

  lemma NextValues24(a: seq<Word>, w: seq<Word>)
    requires |w| == ROUNDS && |a| == ROUNDS + 5 && Values16(a) && Words16(w)
    requires forall t {:trigger ValueAt(a, w, t)} :: 24 <= t < 32 ==> ValueAt(a, w, t)
    ensures Values24(a)
  {
    assert ValueAt(a, w, 24) && ValueAt(a, w, 25) && ValueAt(a, w, 26) && ValueAt(a, w, 27);
    assert ValueAt(a, w, 28) && ValueAt(a, w, 29) && ValueAt(a, w, 30) && ValueAt(a, w, 31);
  }

  lemma NextValues32(a: seq<Word>, w: seq<Word>)
    requires |w| == ROUNDS && |a| == ROUNDS + 5 && Values24(a) && Words32(w)
    requires forall t {:trigger ValueAt(a, w, t)} :: 32 <= t < 40 ==> ValueAt(a, w, t)
    ensures Values32(a)
  {
    assert ValueAt(a, w, 32) && ValueAt(a, w, 33) && ValueAt(a, w, 34) && ValueAt(a, w, 35);
    assert ValueAt(a, w, 36) && ValueAt(a, w, 37) && ValueAt(a, w, 38) && ValueAt(a, w, 39);
  }

  lemma NextValues40(a: seq<Word>, w: seq<Word>)
    requires |w| == ROUNDS && |a| == ROUNDS + 5 && Values32(a) && Words32(w)
    requires forall t {:trigger ValueAt(a, w, t)} :: 40 <= t < 48 ==> ValueAt(a, w, t)
    ensures Values40(a)
  {
    assert ValueAt(a, w, 40) && ValueAt(a, w, 41) && ValueAt(a, w, 42) && ValueAt(a, w, 43);
    assert ValueAt(a, w, 44) && ValueAt(a, w, 45) && ValueAt(a, w, 46) && ValueAt(a, w, 47);
  }

  lemma NextValues48(a: seq<Word>, w: seq<Word>)
    requires |w| == ROUNDS && |a| == ROUNDS + 5 && Values40(a) && Words48(w)
    requires forall t {:trigger ValueAt(a, w, t)} :: 48 <= t < 56 ==> ValueAt(a, w, t)
    ensures Values48(a)
  {
    assert ValueAt(a, w, 48) && ValueAt(a, w, 49) && ValueAt(a, w, 50) && ValueAt(a, w, 51);
    assert ValueAt(a, w, 52) && ValueAt(a, w, 53) && ValueAt(a, w, 54) && ValueAt(a, w, 55);
  }

  lemma NextValues56(a: seq<Word>, w: seq<Word>)
    requires |w| == ROUNDS && |a| == ROUNDS + 5 && Values48(a) && Words48(w)
    requires forall t {:trigger ValueAt(a, w, t)} :: 56 <= t < 64 ==> ValueAt(a, w, t)
    ensures Values56(a)
  {
    assert ValueAt(a, w, 56) && ValueAt(a, w, 57) && ValueAt(a, w, 58) && ValueAt(a, w, 59);
    assert ValueAt(a, w, 60) && ValueAt(a, w, 61) && ValueAt(a, w, 62) && ValueAt(a, w, 63);
  }

  lemma NextValues64(a: seq<Word>, w: seq<Word>)
    requires |w| == ROUNDS && |a| == ROUNDS + 5 && Values56(a) && Words64(w)
    requires forall t {:trigger ValueAt(a, w, t)} :: 64 <= t < 72 ==> ValueAt(a, w, t)
    ensures Values64(a)
  {
    assert ValueAt(a, w, 64) && ValueAt(a, w, 65) && ValueAt(a, w, 66) && ValueAt(a, w, 67);
    assert ValueAt(a, w, 68) && ValueAt(a, w, 69) && ValueAt(a, w, 70) && ValueAt(a, w, 71);
  }

  lemma NextValues72(a: seq<Word>, w: seq<Word>)
    requires |w| == ROUNDS && |a| == ROUNDS + 5 && Values64(a) && Words64(w)
    requires forall t {:trigger ValueAt(a, w, t)} :: 72 <= t < 80 ==> ValueAt(a, w, t)
    ensures Values72(a)
  {
    assert ValueAt(a, w, 72) && ValueAt(a, w, 73) && ValueAt(a, w, 74) && ValueAt(a, w, 75);
    assert ValueAt(a, w, 76) && ValueAt(a, w, 77) && ValueAt(a, w, 78) && ValueAt(a, w, 79);
  }

  // ----- The block

  lemma AllWords(words: seq<Word>, w: seq<Word>)
    requires |words| == 16 && w == FullSchedule(words)
    ensures w[..16] == words && forall t {:trigger WordAt(w, t)} :: 16 <= t < ROUNDS ==> WordAt(w, t)
  {
    forall t | 16 <= t < ROUNDS
      ensures WordAt(w, t)
    {
      assert w[t] == Schedule(words, t);
    }
  }

  lemma TableOfWords(w: seq<Word>)
    requires |w| == ROUNDS && Words0(w) && forall t {:trigger WordAt(w, t)} :: 16 <= t < ROUNDS ==> WordAt(w, t)
    ensures Words16(w) && Words32(w) && Words48(w) && Words64(w)
  {
    NextWords16(w);
    NextWords32(w);
    NextWords48(w);
    NextWords64(w);
  }

  lemma TableOfValues(a: seq<Word>, w: seq<Word>)
    requires |w| == ROUNDS && |a| == ROUNDS + 5 && Start(a)
    requires Words0(w) && Words16(w) && Words32(w) && Words48(w) && Words64(w)
    requires forall t {:trigger ValueAt(a, w, t)} :: 0 <= t < ROUNDS ==> ValueAt(a, w, t)
    ensures Values72(a)
  {
    NextValues0(a, w);
    NextValues8(a, w);
    NextValues16(a, w);
    NextValues24(a, w);
    NextValues32(a, w);
    NextValues40(a, w);
    NextValues48(a, w);
    NextValues56(a, w);
    NextValues64(a, w);
    NextValues72(a, w);
  }

  lemma Ends(a: seq<Word>, n: nat)
    requires |a| == ROUNDS + 5 && Values72(a) && n == ROUNDS
    ensures Plus(INITIAL, Registers(a, n)) == Quintet(0xa9993e36, 0x4706816a, 0xba3e2571, 0x7850c26c, 0x9cd0d89d)
  {
  }

  lemma Starts(a: seq<Word>)
    requires |a| >= 5 && Start(a)
    ensures Registers(a, 0) == INITIAL
  {
  }

  lemma RoundsExample(w: seq<Word>, first: seq<Word>, n: nat)
    requires |w| == ROUNDS && Words0(w) && |first| == 5 && Start(first) && n == ROUNDS
    requires forall t {:trigger WordAt(w, t)} :: 16 <= t < ROUNDS ==> WordAt(w, t)
    ensures Plus(INITIAL, Rounds(INITIAL, w))
         == Quintet(0xa9993e36, 0x4706816a, 0xba3e2571, 0x7850c26c, 0x9cd0d89d)
  {
    var a := Values(first, w, n);
    TableOfWords(w);
    forall t | 0 <= t < ROUNDS
      ensures ValueAt(a, w, t)
    {
      AllValues(first, w, t, n);
    }
    FirstValues(first, w, n);
    TableOfValues(a, w);
    ValuesTell(first, w, n);
    Starts(first);
    assert w[..n] == w;
    Ends(a, n);
  }

  lemma FirstValues(first: seq<Word>, w: seq<Word>, n: nat)
    requires |first| == 5 && n <= |w| == ROUNDS && Start(first)
    ensures Start(Values(first, w, n))
  {
    ValuesFront(first, w, 0, n);
    assert forall i :: 0 <= i < 5 ==> Values(first, w, n)[i] == Values(first, w, n)[..0 + 5][i];
  }

  lemma CompressExample(words: seq<Word>)
    requires |words| == 16 && Words0(FullSchedule(words))
    ensures Compress(INITIAL, words) == Quintet(0xa9993e36, 0x4706816a, 0xba3e2571, 0x7850c26c, 0x9cd0d89d)
  {
    AllWords(words, FullSchedule(words));
    RoundsExample(FullSchedule(words), [0x0f4b87c3, 0x40c951d8, 0x62eb73fa, 0xefcdab89, 0x67452301], ROUNDS);
  }

  // ----- The message

  /** "abc" is one block with its padding. */
  predicate IsBlock(block: seq<Byte>) {
    && |block| == 64
    && block[0] == 0x61 && block[1] == 0x62 && block[2] == 0x63 && block[3] == 0x80 && block[63] == 24
    && forall i :: 4 <= i < 63 ==> block[i] == 0
  }

  lemma PaddedExample(m: seq<Byte>)
    requires m == [0x61, 0x62, 0x63]
    ensures IsBlock(m + Padding(|m|, 8 * |m|))
  {
    var bits := 8 * |m|;
    LengthExample(bits);
    assert ZeroCount(|m|) == 52;
    assert m + Padding(|m|, bits) == m + [0x80] + Zeros(52) + [0, 0, 0, 0, 0, 0, 0, 24];
  }

  lemma LengthExample(bits: nat)
    requires bits == 24
    ensures BigEndian64(bits) == [0, 0, 0, 0, 0, 0, 0, 24]
  {
    NoByte(bits, 0x100);
    NoByte(bits, 0x1_0000);
    NoByte(bits, 0x100_0000);
    NoByte(bits, 0x1_0000_0000);
    NoByte(bits, 0x100_0000_0000);
    NoByte(bits, 0x1_0000_0000_0000);
    NoByte(bits, 0x100_0000_0000_0000);
    assert bits % 256 == 24;
  }

  lemma NoByte(n: nat, d: nat)
    requires n < d
    ensures (n / d) % 256 == 0
  {
  }

  lemma FirstWords(block: seq<Byte>)
    requires IsBlock(block)
    ensures Words0(FullSchedule(WordsOf(block)))
  {
    var w := FullSchedule(WordsOf(block));
    forall i | 0 <= i < 16
      ensures w[i] == WordOf(block[4 * i], block[4 * i + 1], block[4 * i + 2], block[4 * i + 3])
    {
    }
  }

  lemma OneBlock(h: Quintet, block: seq<Byte>)
    requires |block| == 64
    ensures Absorb(h, block) == Compress(h, WordsOf(block))
  {
    assert block[..64] == block && block[64..] == [];
  }

  lemma SerialiseExample(h: Quintet)
    requires h == Quintet(0xa9993e36, 0x4706816a, 0xba3e2571, 0x7850c26c, 0x9cd0d89d)
    ensures Serialise(h) == [
              0xa9, 0x99, 0x3e, 0x36, 0x47, 0x06, 0x81, 0x6a, 0xba, 0x3e, 0x25, 0x71,
              0x78, 0x50, 0xc2, 0x6c, 0x9c, 0xd0, 0xd8, 0x9d]
  {
    FiveWords();
    Four(h, 0, 0xa9, 0x99, 0x3e, 0x36);
    Four(h, 1, 0x47, 0x06, 0x81, 0x6a);
    Four(h, 2, 0xba, 0x3e, 0x25, 0x71);
    Four(h, 3, 0x78, 0x50, 0xc2, 0x6c);
    Four(h, 4, 0x9c, 0xd0, 0xd8, 0x9d);
  }

  lemma FiveWords()
    ensures BytesOf(0xa9993e36) == [0xa9, 0x99, 0x3e, 0x36]
    ensures BytesOf(0x4706816a) == [0x47, 0x06, 0x81, 0x6a]
    ensures BytesOf(0xba3e2571) == [0xba, 0x3e, 0x25, 0x71]
    ensures BytesOf(0x7850c26c) == [0x78, 0x50, 0xc2, 0x6c]
    ensures BytesOf(0x9cd0d89d) == [0x9c, 0xd0, 0xd8, 0x9d]
  {
  }

  lemma Four(h: Quintet, k: nat, b0: Byte, b1: Byte, b2: Byte, b3: Byte)
    requires k < 5 && BytesOf(Words(h)[k]) == [b0, b1, b2, b3]
    ensures Serialise(h)[4 * k] == b0 && Serialise(h)[4 * k + 1] == b1
    ensures Serialise(h)[4 * k + 2] == b2 && Serialise(h)[4 * k + 3] == b3
  {
    BytesAt(Words(h), k);
    var piece := Serialise(h)[4 * k..4 * k + 4];
    assert piece[0] == b0 && piece[1] == b1 && piece[2] == b2 && piece[3] == b3;
  }

  lemma {:induction false} BytesAt(v: seq<Word>, k: nat)
    requires k < |v|
    ensures Bytes(v)[4 * k..4 * k + 4] == BytesOf(v[k])
  {
    if k < |v| - 1 {
      BytesAt(v[..|v| - 1], k);
      assert Bytes(v)[4 * k..4 * k + 4] == Bytes(v[..|v| - 1])[4 * k..4 * k + 4];
    }
  }

  /** The example of the standard. */
  lemma DigestOfAbc(m: seq<Byte>)
    requires m == [0x61, 0x62, 0x63]
    ensures Digest(m) == [
              0xa9, 0x99, 0x3e, 0x36, 0x47, 0x06, 0x81, 0x6a, 0xba, 0x3e, 0x25, 0x71,
              0x78, 0x50, 0xc2, 0x6c, 0x9c, 0xd0, 0xd8, 0x9d]
  {
    var block := m + Padding(|m|, 8 * |m|);
    PaddedExample(m);
    FirstWords(block);
    CompressExample(WordsOf(block));
    OneBlock(INITIAL, block);
    SerialiseExample(Absorb(INITIAL, block));
  }

  /** The code gives it however the three bytes are cut into updates. */
  method HashAbc(chunks: seq<seq<Byte>>) returns (hash: seq<Byte>)
    requires Sha1.Flatten(chunks) == [0x61, 0x62, 0x63]
    ensures hash == [
              0xa9, 0x99, 0x3e, 0x36, 0x47, 0x06, 0x81, 0x6a, 0xba, 0x3e, 0x25, 0x71,
              0x78, 0x50, 0xc2, 0x6c, 0x9c, 0xd0, 0xd8, 0x9d]
  {
    DigestOfAbc(Sha1.Flatten(chunks));
    hash := Sha1.HashChunks(chunks);
  }
}
