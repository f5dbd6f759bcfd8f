/** fe_frombytes: 32 little-endian bytes to five limbs of 51 bits, dropping the top bit. */
module FieldBytes {
  import opened Bytes
  import opened Field25519

  /** The nested helper load64. */
  function Load64(s: seq<byte>, o: nat): uint64
    requires o + 8 <= |s|
  {
    Word64(s[o], s[o + 1], s[o + 2], s[o + 3], s[o + 4], s[o + 5], s[o + 6], s[o + 7])
  }

  function Word64(b0: int, b1: int, b2: int, b3: int, b4: int, b5: int, b6: int, b7: int): int {
    b0 + 0x100 * b1 + 0x1_0000 * b2 + 0x100_0000 * b3
    + 0x1_0000_0000 * b4 + 0x100_0000_0000 * b5 + 0x1_0000_0000_0000 * b6 + 0x100_0000_0000_0000 * b7
  }

  /** The C operator `>>` by log2(d) bits. */
  function ShiftRight(x: nat, d: nat): nat
    requires d > 0
  {
    x / d
  }

  function FromBytes(s: seq<byte>): Fe
    requires |s| == 32
  {
    [Low51(ShiftRight(Load64(s, 0), 1)),
     Low51(ShiftRight(Load64(s, 6), 8)),
     Low51(ShiftRight(Load64(s, 12), 64)),
     Low51(ShiftRight(Load64(s, 19), 2)),
     Low51(ShiftRight(Load64(s, 24), 4096))]
  }

  method FeFromBytes(out: array<uint64>, bytes: seq<byte>)
    requires out.Length == 5 && |bytes| == 32
    modifies out
    ensures LimbsOf(out) == FromBytes(bytes)
  {
    var h0 := Low51(ShiftRight(Load64(bytes, 0), 1));
    var h1 := Low51(ShiftRight(Load64(bytes, 6), 8));
    var h2 := Low51(ShiftRight(Load64(bytes, 12), 64));
    var h3 := Low51(ShiftRight(Load64(bytes, 19), 2));
    var h4 := Low51(ShiftRight(Load64(bytes, 24), 4096));
    out[0], out[1], out[2], out[3], out[4] := h0, h1, h2, h3, h4;
  }

  lemma LittleValueOf8(t: seq<byte>)
    requires |t| == 8
    ensures LittleValue(t) == Load64(t, 0)
  {
    LittleValueOf4(t[0], t[1], t[2], t[3], t[4..]);
    LittleValueOf4(t[4], t[5], t[6], t[7], []);
    assert t == [t[0], t[1], t[2], t[3]] + t[4..];
    assert t[4..] == [t[4], t[5], t[6], t[7]] + [];
  }

  lemma LittleValueOf4(b0: byte, b1: byte, b2: byte, b3: byte, rest: seq<byte>)
    ensures LittleValue([b0, b1, b2, b3] + rest) == Word64(b0, b1, b2, b3, 0, 0, 0, 0) + 0x1_0000_0000 * LittleValue(rest)
  {
    LittleCons(b0, [b1, b2, b3] + rest);
    LittleCons(b1, [b2, b3] + rest);
    LittleCons(b2, [b3] + rest);
    LittleCons(b3, rest);
    assert [b0] + ([b1, b2, b3] + rest) == [b0, b1, b2, b3] + rest;
    assert [b1] + ([b2, b3] + rest) == [b1, b2, b3] + rest;
    assert [b2] + ([b3] + rest) == [b2, b3] + rest;
  }

  lemma LittleCons(b: byte, rest: seq<byte>)
    ensures LittleValue([b] + rest) == b + 256 * LittleValue(rest)
  {
    assert ([b] + rest)[1..] == rest;
  }

  /** Eight bytes at offset `o` are the number shifted right by 8 * o, modulo 2^64. */
  lemma LoadIsShift(s: seq<byte>, o: nat)
    requires o + 8 <= |s|
    ensures Load64(s, o) == ShiftRight(LittleValue(s), Pow256(o)) % 0x1_0000_0000_0000_0000
  {
    DropLowBytes(s, o);
    KeepLowBytes(s[o..], 8);
    assert Pow256(8) == 0x1_0000_0000_0000_0000;
    LittleValueOf8(s[o..][..8]);
  }

  lemma Low51OfMultiple(y: nat, k: nat)
    requires k > 0
    ensures Low51(y % (0x8_0000_0000_0000 * k)) == Low51(y)
  {
    ModStep(y, 0x8_0000_0000_0000, k);
  }

  /** Shifting a 64-bit window by at most 13 bits still shows 51 bits of the number. */
  lemma WindowShift(x: nat, d: nat, k: nat)
    requires d > 0 && k > 0 && d * k == 0x2000
    ensures Low51(ShiftRight(x % 0x1_0000_0000_0000_0000, d)) == Low51(ShiftRight(x, d))
  {
    var q := 0x8_0000_0000_0000 * k;
    assert d * q == 0x1_0000_0000_0000_0000;
    ModStep(x, d, q);
    var y := x / d;
    DivModUnique(x % (d * q), d, y % q, x % d);
    Low51OfMultiple(y, k);
  }

  lemma ShiftOfShift(n: nat, p: nat, d: nat, w: nat)
    requires p > 0 && d > 0 && w == p * d
    ensures ShiftRight(ShiftRight(n, p), d) == ShiftRight(n, w)
  {
    ModStep(n, p, d);
  }

  /** Limb by limb: the shifted and masked load is a digit in radix 2^51. */
  lemma LimbIsDigit(s: seq<byte>, o: nat, p: nat, d: nat, k: nat, w: nat)
    requires o + 8 <= |s| && p == Pow256(o) && d > 0 && k > 0 && d * k == 0x2000 && w == p * d && w > 0
    ensures Low51(ShiftRight(Load64(s, o), d)) == Low51(ShiftRight(LittleValue(s), w))
  {
    hide *;
    LoadIsShift(s, o);
    WindowShift(ShiftRight(LittleValue(s), p), d, k);
    ShiftOfShift(LittleValue(s), p, d, w);
  }

  /** One more digit in radix 2^51. */
  lemma NextDigit(n: nat, w: nat, p: nat)
    requires w > 0 && p > 0
    ensures n / w % (0x8_0000_0000_0000 * p) == Low51(n / w) + 0x8_0000_0000_0000 * (n / (w * 0x8_0000_0000_0000) % p)
  {
    ModStep(n / w, 0x8_0000_0000_0000, p);
    ModStep(n, w, 0x8_0000_0000_0000);
  }

  /** Five digits in radix 2^51 make up the number modulo 2^255. */
  lemma DigitsMakeValue(n: nat)
    ensures Value5(Low51(n / 1), Low51(n / 0x8000000000000), Low51(n / 0x40000000000000000000000000), Low51(n / 0x200000000000000000000000000000000000000), Low51(n / 0x1000000000000000000000000000000000000000000000000000))
         == n % 0x8000000000000000000000000000000000000000000000000000000000000000
  {
    NextDigit(n, 1, 0x1000000000000000000000000000000000000000000000000000);
    NextDigit(n, 0x8000000000000, 0x200000000000000000000000000000000000000);
    NextDigit(n, 0x40000000000000000000000000, 0x40000000000000000000000000);
    NextDigit(n, 0x200000000000000000000000000000000000000, 0x8000000000000);
  }

  /** fe_frombytes reads the little-endian number modulo 2^255 into limbs below 2^51. */
  lemma FromBytesCorrect(s: seq<byte>)
    requires |s| == 32
    ensures Value(FromBytes(s)) == LittleValue(s) % 0x8000000000000000000000000000000000000000000000000000000000000000
    ensures forall i :: 0 <= i < 5 ==> FromBytes(s)[i] < 0x8000000000000
  {
    LimbIsDigit(s, 0, 1, 1, 0x2000, 1);
    LimbIsDigit(s, 6, 0x1000000000000, 8, 0x400, 0x8000000000000);
    LimbIsDigit(s, 12, 0x1000000000000000000000000, 64, 0x80, 0x40000000000000000000000000);
    LimbIsDigit(s, 19, 0x100000000000000000000000000000000000000, 2, 0x1000, 0x200000000000000000000000000000000000000);
    LimbIsDigit(s, 24, 0x1000000000000000000000000000000000000000000000000, 4096, 2, 0x1000000000000000000000000000000000000000000000000000);
    DigitsMakeValue(LittleValue(s));
  }
}
