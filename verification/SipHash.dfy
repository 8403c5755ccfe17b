/** The keyed hash of src/ext/csiphash.c, and SipHash-2-4 as the paper "SipHash: a fast
    short-input PRF", section 2, defines it. */
module SipHash {

  type Bytes = seq<bv8>

  /** The four words of the internal state. */
  datatype State = State(v0: bv64, v1: bv64, v2: bv64, v3: bv64)

  /** `ROTATE` */
  function Rotate(x: bv64, b: bv64): bv64
    requires 0 < b < 64
  {
    (x << b) | (x >> (64 - b))
  }

  function Add(x: bv64, y: bv64): bv64 { x + y }
  function Sub(x: bv64, y: bv64): bv64 { x - y }
  function Xor(x: bv64, y: bv64): bv64 { x ^ y }

  // ----- the paper

  /** One SipRound. */
  function SipRound(s: State): State {
    var v0 := Add(s.v0, s.v1);
    var v1 := Xor(Rotate(s.v1, 13), v0);
    var v2 := Add(s.v2, s.v3);
    var v3 := Xor(Rotate(s.v3, 16), v2);
    var w0 := Add(Rotate(v0, 32), v3);
    var w3 := Xor(Rotate(v3, 21), w0);
    var w2 := Add(v2, v1);
    var w1 := Xor(Rotate(v1, 17), w2);
    State(w0, w1, Rotate(w2, 32), w3)
  }

  /** A SipRound can be undone. */
  function Unround(s: State): State {
    var w2 := Rotate(s.v2, 32);
    var v1 := Rotate(Xor(s.v1, w2), 47);
    var v2 := Sub(w2, v1);
    var v3 := Rotate(Xor(s.v3, s.v0), 43);
    var v0 := Rotate(Sub(s.v0, v3), 32);
    var u1 := Rotate(Xor(v1, v0), 51);
    var u3 := Rotate(Xor(v3, v2), 48);
    State(Sub(v0, u1), u1, Sub(v2, u3), u3)
  }

  lemma Back13(x: bv64)
    ensures Rotate(Rotate(x, 13), 51) == x && Rotate(Rotate(x, 51), 13) == x
  {
  }

  lemma Back16(x: bv64)
    ensures Rotate(Rotate(x, 16), 48) == x && Rotate(Rotate(x, 48), 16) == x
  {
  }

  lemma Back17(x: bv64)
    ensures Rotate(Rotate(x, 17), 47) == x && Rotate(Rotate(x, 47), 17) == x
  {
  }

  lemma Back21(x: bv64)
    ensures Rotate(Rotate(x, 21), 43) == x && Rotate(Rotate(x, 43), 21) == x
  {
  }

  lemma Back32(x: bv64)
    ensures Rotate(Rotate(x, 32), 32) == x
  {
  }

  lemma XorBack(x: bv64, y: bv64)
    ensures Xor(Xor(x, y), y) == x
  {
  }

  lemma SubOfSum(x: bv64, y: bv64)
    ensures Sub(x + y, y) == x
  {
  }

  lemma AddOfDifference(x: bv64, y: bv64)
    ensures Add(x - y, y) == x
  {
  }

  lemma SubBack(x: bv64, y: bv64)
    ensures Sub(Add(x, y), y) == x
  {
    hide Sub;
    SubOfSum(x, y);
    assert Add(x, y) == x + y;
  }

  lemma AddBack(x: bv64, y: bv64)
    ensures Add(Sub(x, y), y) == x
  {
    hide Add;
    AddOfDifference(x, y);
    assert Sub(x, y) == x - y;
  }

  lemma UnroundOfRound(s: State)
    ensures Unround(SipRound(s)) == s
  {
    hide Rotate, Add, Sub, Xor;
    var v0 := Add(s.v0, s.v1);
    var v1 := Xor(Rotate(s.v1, 13), v0);
    var v2 := Add(s.v2, s.v3);
    var v3 := Xor(Rotate(s.v3, 16), v2);
    var w0 := Add(Rotate(v0, 32), v3);
    var w2 := Add(v2, v1);
    Back32(w2);
    Back32(v0);
    Back17(v1);
    Back21(v3);
    Back13(s.v1);
    Back16(s.v3);
    XorBack(Rotate(v1, 17), w2);
    XorBack(Rotate(v3, 21), w0);
    XorBack(Rotate(s.v1, 13), v0);
    XorBack(Rotate(s.v3, 16), v2);
    SubBack(v2, v1);
    SubBack(Rotate(v0, 32), v3);
    SubBack(s.v0, s.v1);
    SubBack(s.v2, s.v3);
  }

  lemma RoundOfUnround(s: State)
    ensures SipRound(Unround(s)) == s
  {
    hide Rotate, Add, Sub, Xor;
    var w2 := Rotate(s.v2, 32);
    var v1 := Rotate(Xor(s.v1, w2), 47);
    var v2 := Sub(w2, v1);
    var v3 := Rotate(Xor(s.v3, s.v0), 43);
    var v0' := Sub(s.v0, v3);
    var v0 := Rotate(v0', 32);
    var u1 := Rotate(Xor(v1, v0), 51);
    var u3 := Rotate(Xor(v3, v2), 48);
    Back32(s.v2);
    Back17(Xor(s.v1, w2));
    Back21(Xor(s.v3, s.v0));
    Back32(v0');
    Back13(Xor(v1, v0));
    Back16(Xor(v3, v2));
    AddBack(v0, u1);
    XorBack(v1, v0);
    AddBack(v2, u3);
    XorBack(v3, v2);
    AddBack(s.v0, v3);
    XorBack(s.v3, s.v0);
    AddBack(w2, v1);
    XorBack(s.v1, w2);
  }

  /** Eight bytes as a little-endian word. */
  function Word(b: Bytes): bv64
    requires |b| == 8
  {
    (b[0] as bv64) | (b[1] as bv64 << 8) | (b[2] as bv64 << 16) | (b[3] as bv64 << 24) |
    (b[4] as bv64 << 32) | (b[5] as bv64 << 40) | (b[6] as bv64 << 48) | (b[7] as bv64 << 56)
  }

  /** The message with zeros up to one byte short of a multiple of 8, and its length mod 256. */
  function Padded(m: Bytes): (p: Bytes)
    ensures |p| % 8 == 0 && |p| == |m| - |m| % 8 + 8
  {
    m + seq(7 - |m| % 8, _ => 0) + [(|m| % 256) as bv8]
  }

  function WordAt(p: Bytes, i: nat): bv64
    requires 8 * i + 8 <= |p|
  {
    Word(p[8 * i..8 * i + 8])
  }

  function Start(k0: bv64, k1: bv64): State {
    State(Xor(k0, 0x736f6d6570736575), Xor(k1, 0x646f72616e646f6d), Xor(k0, 0x6c7967656e657261), Xor(k1, 0x7465646279746573))
  }

  /** A word is absorbed, with two rounds. */
  function Compressed(s: State, w: bv64): State {
    var t := SipRound(SipRound(s.(v3 := Xor(s.v3, w))));
    t.(v0 := Xor(t.v0, w))
  }

  /** The state after the first n words. */
  function Absorbed(k0: bv64, k1: bv64, p: Bytes, n: nat): State
    requires 8 * n <= |p|
  {
    if n == 0 then Start(k0, k1) else Compressed(Absorbed(k0, k1, p, n - 1), WordAt(p, n - 1))
  }

  /** The result, after four more rounds. */
  function Finished(s: State): bv64 {
    var t := SipRound(SipRound(SipRound(SipRound(s.(v2 := Xor(s.v2, 0xff))))));
    Xor(Xor(Xor(t.v0, t.v1), t.v2), t.v3)
  }

  /** SipHash-2-4. */
  function SipHash24(k0: bv64, k1: bv64, m: Bytes): bv64 {
    Finished(Absorbed(k0, k1, Padded(m), |Padded(m)| / 8))
  }

  /** The test vector of the paper's Appendix A. */
  lemma TestVector()
    ensures SipHash24(0x0706050403020100, 0x0f0e0d0c0b0a0908, [0, 1, 2, 3, 4, 5, 6, 7, 8, 9, 10, 11, 12, 13, 14]) == 0xa129ca6149be45e5
  {
    hide Compressed, Padded, Word, Finished, Start;
    TestWords();
    TestRounds();
    var k0: bv64, k1: bv64 := 0x0706050403020100, 0x0f0e0d0c0b0a0908;
    var p := Padded([0, 1, 2, 3, 4, 5, 6, 7, 8, 9, 10, 11, 12, 13, 14]);
    assert Absorbed(k0, k1, p, 1) == Compressed(Absorbed(k0, k1, p, 0), WordAt(p, 0));
    assert Absorbed(k0, k1, p, 2) == Compressed(Absorbed(k0, k1, p, 1), WordAt(p, 1));
  }

  lemma TestWords()
    ensures var p := Padded([0, 1, 2, 3, 4, 5, 6, 7, 8, 9, 10, 11, 12, 13, 14]);
            |p| == 16 && WordAt(p, 0) == 0x0706050403020100 && WordAt(p, 1) == 0x0f0e0d0c0b0a0908
  {
    var p := Padded([0, 1, 2, 3, 4, 5, 6, 7, 8, 9, 10, 11, 12, 13, 14]);
    assert p[8 * 0..8 * 0 + 8] == [0, 1, 2, 3, 4, 5, 6, 7];
    assert p[8 * 1..8 * 1 + 8] == [8, 9, 10, 11, 12, 13, 14, 15];
    assert Word([0, 1, 2, 3, 4, 5, 6, 7]) == 0x0706050403020100 && Word([8, 9, 10, 11, 12, 13, 14, 15]) == 0x0f0e0d0c0b0a0908;
  }

  lemma TestRounds()
    ensures Start(0x0706050403020100, 0x0f0e0d0c0b0a0908) == State(0x7469686173716475, 0x6b617f6d656e6665, 0x6b7f62616d677361, 0x7b6b696e727e6c7b)
    ensures Compressed(State(0x7469686173716475, 0x6b617f6d656e6665, 0x6b7f62616d677361, 0x7b6b696e727e6c7b), 0x706050403020100) ==
            State(0x4a017198de0a59e0, 0xd52f6f62a4f59a4, 0x634cb3577b01fd3d, 0xa5224d6f55c7d9c8)
    ensures Compressed(State(0x4a017198de0a59e0, 0xd52f6f62a4f59a4, 0x634cb3577b01fd3d, 0xa5224d6f55c7d9c8), 0xf0e0d0c0b0a0908) ==
            State(0x3c85b3ab6f55be51, 0x414fc3fb98efe374, 0xccf13ea527b9f4bd, 0x5293f5da84008f82)
    ensures Finished(State(0x3c85b3ab6f55be51, 0x414fc3fb98efe374, 0xccf13ea527b9f4bd, 0x5293f5da84008f82)) == 0xa129ca6149be45e5
  {
    assert SipRound(State(0x7469686173716475, 0x6b617f6d656e6665, 0x6b7f62616d677361, 0x7c6d6c6a717c6d7b)) == State(0x64668a929363847f, 0x4ed232083d9aa8dc, 0xf2f74892d8141a2e, 0x9290f9810552f4a8);
    assert SipRound(State(0x4a017198de0a59e0, 0xd52f6f62a4f59a4, 0x634cb3577b01fd3d, 0xaa2c40635ecdd0c0)) == State(0x557560fb6063d060, 0x4c8e675bd961133e, 0xbd3d002b1703a181, 0xfb9441179a4a7315);
    assert SipRound(State(0x3c85b3ab6f55be51, 0x414fc3fb98efe374, 0xccf13ea527b9f442, 0x5293f5da84008f82)) == State(0xf2a55244a20e48fe, 0xac5ad16ccc3ca6e4, 0x9fe5adb0a52f393a, 0xfd41d55e88f30308);
    assert SipRound(State(0xf2a55244a20e48fe, 0xac5ad16ccc3ca6e4, 0x9fe5adb0a52f393a, 0xfd41d55e88f30308)) == State(0xb6c3fbdecc2ae4b4, 0x1638c86adc6b3cf0, 0x28b8b6ab62553d46, 0xc9465e86ec43eb95);
    assert SipRound(State(0xb6c3fbdecc2ae4b4, 0x1638c86adc6b3cf0, 0x28b8b6ab62553d46, 0xc9465e86ec43eb95)) == State(0x58101b167209a5e6, 0xf8792ae75b66e7dd, 0x1da14c3ec7f0b4f7, 0x7624ba8a41bc4ad9);
  }

  // ----- the program

  /** `HALF_ROUND`, on its four words. */
  method HalfRound(a0: bv64, b0: bv64, c0: bv64, d0: bv64, s: bv64, t: bv64) returns (a: bv64, b: bv64, c: bv64, d: bv64)
    requires 0 < s < 64 && 0 < t < 64
    ensures a == Rotate(Add(a0, b0), 32) && c == Add(c0, d0)
    ensures b == Xor(Rotate(b0, s), Add(a0, b0)) && d == Xor(Rotate(d0, t), Add(c0, d0))
  {
    hide Rotate, Add, Xor;
    a, b, c, d := a0, b0, c0, d0;
    a := Add(a, b);
    c := Add(c, d);
    b := Xor(Rotate(b, s), a);
    d := Xor(Rotate(d, t), c);
    a := Rotate(a, 32);
  }

  /** `DOUBLE_ROUND` is two SipRounds. */
  method DoubleRound(v: State) returns (r: State)
    ensures r == SipRound(SipRound(v))
  {
    hide Rotate, Add, Xor;
    var v0, v1, v2, v3 := v.v0, v.v1, v.v2, v.v3;
    v0, v1, v2, v3 := HalfRound(v0, v1, v2, v3, 13, 16);
    v2, v1, v0, v3 := HalfRound(v2, v1, v0, v3, 17, 21);
    v0, v1, v2, v3 := HalfRound(v0, v1, v2, v3, 13, 16);
    v2, v1, v0, v3 := HalfRound(v2, v1, v0, v3, 17, 21);
    r := State(v0, v1, v2, v3);
  }

  /** Different states stay different. */
  lemma DoubleRoundInjective(s: State, t: State)
    ensures SipRound(SipRound(s)) == SipRound(SipRound(t)) ==> s == t
  {
    hide SipRound, Unround;
    UnroundOfRound(s);
    UnroundOfRound(t);
    UnroundOfRound(SipRound(s));
    UnroundOfRound(SipRound(t));
  }

  /** Every state is reached. */
  lemma DoubleRoundSurjective(t: State)
    ensures SipRound(SipRound(Unround(Unround(t)))) == t
  {
    hide SipRound, Unround;
    RoundOfUnround(t);
    RoundOfUnround(Unround(t));
  }

  /** x with the bits of b set, from bit k on. */
  function WithByte(x: bv64, b: bv8, k: bv64): bv64
    requires k < 64
  {
    x | (b as bv64 << k)
  }

  lemma NoByte(x: bv64, k: bv64)
    requires k < 64
    ensures WithByte(x, 0, k) == x
  {
  }

  lemma FromTheTop(b0: bv8, b1: bv8, b2: bv8, b3: bv8, b4: bv8, b5: bv8, b6: bv8, b7: bv8)
    ensures Word([b0, b1, b2, b3, b4, b5, b6, b7]) ==
      WithByte(WithByte(WithByte(WithByte(WithByte(WithByte(WithByte(b7 as bv64 << 56, b6, 48), b5, 40), b4, 32), b3, 24), b2, 16), b1, 8), b0, 0)
  {
  }

  /** Byte i of the last word, below the length. */
  function Tail(m: Bytes, i: nat): bv8 {
    if i < |m| % 8 then m[|m| - |m| % 8 + i] else 0
  }

  lemma LastBytes(m: Bytes)
    ensures Padded(m)[8 * (|m| / 8)..8 * (|m| / 8) + 8] ==
      [Tail(m, 0), Tail(m, 1), Tail(m, 2), Tail(m, 3), Tail(m, 4), Tail(m, 5), Tail(m, 6), (|m| % 256) as bv8]
  {
    var p, a := Padded(m), |m| - |m| % 8;
    assert 8 * (|m| / 8) == a;
    TailByte(m, 0);
    TailByte(m, 1);
    TailByte(m, 2);
    TailByte(m, 3);
    TailByte(m, 4);
    TailByte(m, 5);
    TailByte(m, 6);
    LengthByte(m);
    hide Padded, Tail;
    Eight(p, a);
  }

  lemma Eight(p: Bytes, a: nat)
    requires a + 8 <= |p|
    ensures p[a..a + 8] == [p[a + 0], p[a + 1], p[a + 2], p[a + 3], p[a + 4], p[a + 5], p[a + 6], p[a + 7]]
  {
  }

  lemma TailByte(m: Bytes, i: nat)
    requires i < 7
    ensures Padded(m)[|m| - |m| % 8 + i] == Tail(m, i)
  {
  }

  lemma LengthByte(m: Bytes)
    ensures Padded(m)[|m| - |m| % 8 + 7] == (|m| % 256) as bv8
  {
  }

  /** The fall-through switch over what is left after the whole words. */
  method LastWord(m: Bytes) returns (last7: bv64)
    ensures last7 == WordAt(Padded(m), |m| / 8)
  {
    hide WithByte, Word, Padded;
    LastBytes(m);
    ghost var len := (|m| % 256) as bv8;
    FromTheTop(Tail(m, 0), Tail(m, 1), Tail(m, 2), Tail(m, 3), Tail(m, 4), Tail(m, 5), Tail(m, 6), len);
    var blocks := |m| - |m| % 8;
    var left := |m| - blocks;
    last7 := ((|m| % 256) as bv8) as bv64 << 56;
    last7 := Case(last7, m, blocks, left, 7, 48);
    last7 := Case(last7, m, blocks, left, 6, 40);
    last7 := Case(last7, m, blocks, left, 5, 32);
    last7 := Case(last7, m, blocks, left, 4, 24);
    last7 := Case(last7, m, blocks, left, 3, 16);
    last7 := Case(last7, m, blocks, left, 2, 8);
    last7 := Case(last7, m, blocks, left, 1, 0);
  }

  /** One case of the switch, which falls through to the next. */
  method Case(x: bv64, m: Bytes, blocks: nat, left: nat, n: nat, k: bv64) returns (last7: bv64)
    requires blocks == |m| - |m| % 8 && left == |m| % 8 && 1 <= n <= 7 && k < 64
    ensures last7 == WithByte(x, Tail(m, n - 1), k)
  {
    hide WithByte;
    last7 := x;
    if left >= n {
      last7 := WithByte(last7, m[blocks + n - 1], k);
    } else {
      NoByte(x, k);
    }
  }

  lemma WholeWord(m: Bytes, i: nat)
    requires 8 * i + 8 <= |m|
    ensures Padded(m)[8 * i..8 * i + 8] == m[8 * i..8 * i + 8]
  {
  }

  /** One word of the message goes in before the rounds and again after them. */
  method Absorb(v: State, mi: bv64) returns (r: State)
    ensures r == Compressed(v, mi)
  {
    hide SipRound, Xor;
    r := v.(v3 := Xor(v.v3, mi));
    r := DoubleRound(r);
    r := r.(v0 := Xor(r.v0, mi));
  }

  method Finish(v: State) returns (h: bv64)
    ensures h == Finished(v)
  {
    hide SipRound, Xor;
    var r := v.(v2 := Xor(v.v2, 0xff));
    r := DoubleRound(r);
    r := DoubleRound(r);
    h := Xor(Xor(Xor(r.v0, r.v1), r.v2), r.v3);
  }

  lemma OneMore(k0: bv64, k1: bv64, p: Bytes, n: nat)
    requires 8 * n + 8 <= |p|
    ensures Absorbed(k0, k1, p, n + 1) == Compressed(Absorbed(k0, k1, p, n), Word(p[8 * n..8 * n + 8]))
  {
    hide Compressed, Word;
  }

  lemma NoneYet(k0: bv64, k1: bv64, p: Bytes)
    ensures Absorbed(k0, k1, p, 0) == Start(k0, k1)
  {
  }

  /** `siphash24` is SipHash-2-4, for messages of every length. */
  method Hash(k0: bv64, k1: bv64, m: Bytes) returns (r: bv64)
    ensures r == SipHash24(k0, k1, m)
  {
    hide Compressed, Word, Padded, Finished, Xor, Absorbed;
    NoneYet(k0, k1, Padded(m));
    var v := State(Xor(k0, 0x736f6d6570736575), Xor(k1, 0x646f72616e646f6d), Xor(k0, 0x6c7967656e657261), Xor(k1, 0x7465646279746573));
    var blocks := |m| - |m| % 8;
    var i := 0;
    while i < blocks
      invariant 0 <= i <= blocks && i % 8 == 0
      invariant v == Absorbed(k0, k1, Padded(m), i / 8)
    {
      WholeWord(m, i / 8);
      OneMore(k0, k1, Padded(m), i / 8);
      v := Absorb(v, Word(m[i..i + 8]));
      i := i + 8;
    }
    var last7 := LastWord(m);
    OneMore(k0, k1, Padded(m), i / 8);
    v := Absorb(v, last7);
    r := Finish(v);
  }
}
