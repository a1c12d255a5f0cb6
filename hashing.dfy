/**
 * The four `Hashing` hashers. Each spreads a 32-bit Java `hashCode` with its
 * own `smear`; arithmetic is two's-complement and wraps at 2^32, which `bv32`
 * gives for free.
 */
module Hashing {
  import opened Wrappers

  datatype Hasher = Standard | HashMap | MurmurHash3 | Acc4

  /**
   * `smear(hashCode)` of each hasher: STANDARD returns the code, HASHMAP
   * shifts it right by 16 without sign, MURMURHASH3 multiplies by C1 =
   * 0xcc9e2d51, rotates left by 15 and multiplies by C2 = 0x1b873593, and
   * ACC4 applies its four shift/add/xor steps in turn.
   */
  function Smear(h: Hasher, code: bv32): bv32
  {
    match h
    case Standard => code
    case HashMap => code >> 16
    case MurmurHash3 => 0x1b873593 * (code * 0xcc9e2d51).RotateLeft(15)
    case Acc4 => Acc4Step4(Acc4Step3(Acc4Step2(Acc4Step1(code))))
  }

  /** ACC4's `h += ~(h << 9)`. */
  function Acc4Step1(h: bv32): bv32
  {
    h + !(h << 9)
  }

  /** ACC4's `h ^= h >>> 14`. */
  function Acc4Step2(h: bv32): bv32
  {
    h ^ (h >> 14)
  }

  /** ACC4's `h += h << 4`. */
  function Acc4Step3(h: bv32): bv32
  {
    h + (h << 4)
  }

  /** ACC4's `h ^= h >>> 10`. */
  function Acc4Step4(h: bv32): bv32
  {
    h ^ (h >> 10)
  }

  /** `Optional.ofNullable(x).hashCode()`: the object's hash code, 0 for null. */
  function OptionalHashCode(code: Option<bv32>): bv32
  {
    if code.Some? then code.value else 0
  }

  /** `Hasher.hash(x)` for an object whose `hashCode()` is `code` (None for null). */
  function Hash(h: Hasher, code: Option<bv32>): (r: bv32)
    ensures code.None? ==> r == Smear(h, 0)
    ensures h == Standard ==> r == OptionalHashCode(code)
    ensures h == HashMap ==> r < 0x1_0000
  {
    Smear(h, OptionalHashCode(code))
  }

  /** Null hashes like an object whose hash code is 0. */
  lemma NullHashesAsZero(h: Hasher)
    ensures Hash(h, None) == Hash(h, Some(0))
  {
  }

  /** STANDARD leaves the hash code unchanged, so it is injective. */
  lemma StandardIsIdentity(code: bv32)
    ensures Smear(Standard, code) == code
  {
  }

  /** HASHMAP keeps only the upper 16 bits: the result is below 2^16, and codes that differ only in the lower half collide. */
  lemma HashMapRange(code: bv32)
    ensures Smear(HashMap, code) < 0x1_0000
    ensures Smear(HashMap, code) == Smear(HashMap, code & 0xffff_0000)
  {
  }

  lemma HashMapCollides()
    ensures Smear(HashMap, 0) == Smear(HashMap, 1)
  {
  }

  /** The MURMURHASH3 smear fixes 0 and spreads 1 over all four bytes. */
  lemma MurmurSamples()
    ensures Smear(MurmurHash3, 0) == 0
    ensures Smear(MurmurHash3, 1) == 0xc3539a5d
  {
  }

  /** The ACC4 smear: its first step adds the complement, so 0 does not stay 0. */
  lemma Acc4Samples()
    ensures Smear(Acc4, 0) == 0xff83ef00
    ensures Smear(Acc4, 1) == 0xff83cee7
  {
  }

  /*
   * Inverses of the smearing steps. Each multiplication is by an odd
   * constant, so multiplying by its inverse modulo 2^32 undoes it; a
   * rotation left by 15 is undone by one by 17; an xor with a right shift is
   * undone by xor-ing in the further shifts.
   */

  function UndoTimesC1(z: bv32): bv32
  {
    z * 0xdee13bb1
  }

  function UndoTimesC2(h: bv32): bv32
  {
    h * 0x56ed309b
  }

  /** Undoes the MURMURHASH3 smear. */
  function UnsmearMurmur(h: bv32): bv32
  {
    UndoTimesC1(UndoTimesC2(h).RotateLeft(17))
  }

  function UndoXorShift10(d: bv32): bv32
  {
    d ^ (d >> 10) ^ (d >> 20) ^ (d >> 30)
  }

  function UndoTimes17(c: bv32): bv32
  {
    c * 0xf0f0f0f1
  }

  function UndoXorShift14(b: bv32): bv32
  {
    b ^ (b >> 14) ^ (b >> 28)
  }

  function UndoTimesMinus511(z: bv32): bv32
  {
    z * 0x08040201
  }

  function UndoAcc4Step1(a: bv32): bv32
  {
    UndoTimesMinus511(a + 1)
  }

  /** Undoes the ACC4 smear, one step at a time from the last. */
  function UnsmearAcc4(h: bv32): bv32
  {
    UndoAcc4Step1(UndoXorShift14(UndoTimes17(UndoXorShift10(h))))
  }

  lemma MurmurSteps(code: bv32)
    ensures Smear(MurmurHash3, code) == 0x1b873593 * (code * 0xcc9e2d51).RotateLeft(15)
    ensures UndoTimesC2(0x1b873593 * (code * 0xcc9e2d51).RotateLeft(15)) == (code * 0xcc9e2d51).RotateLeft(15)
    ensures UndoTimesC1(code * 0xcc9e2d51) == code
  {
  }

  lemma RotateBack(z: bv32)
    ensures z.RotateLeft(15).RotateLeft(17) == z
  {
  }

  /** MURMURHASH3's smear is undone by `UnsmearMurmur`, for every hash code. */
  lemma MurmurRoundTrip(code: bv32)
    ensures UnsmearMurmur(Smear(MurmurHash3, code)) == code
  {
    MurmurSteps(code);
    RotateBack(code * 0xcc9e2d51);
  }

  /** ACC4's first step, `h += ~(h << 9)`, is a multiplication by -511 less 1. */
  lemma Acc4FirstStep(code: bv32)
    ensures Acc4Step1(code) + 1 == code * 0xffff_fe01
  {
    Acc4FirstStepBits(code, Acc4Step1(code));
  }

  lemma Acc4FirstStepBits(code: bv32, a: bv32)
    requires a == code + !(code << 9)
    ensures a + 1 == code * 0xffff_fe01
  {
    calc {
      a + 1;
      code + !(code << 9) + 1;
      code * 0xffff_fe01;
    }
  }

  lemma UndoTimesMinus511Works(code: bv32)
    ensures UndoTimesMinus511(code * 0xffff_fe01) == code
  {
  }

  lemma UndoAcc4Step1Works(code: bv32)
    ensures UndoAcc4Step1(Acc4Step1(code)) == code
  {
    Acc4FirstStep(code);
    UndoTimesMinus511Works(code);
  }

  /** ACC4's third step, `h += h << 4`, is a multiplication by 17, which multiplying by 17's inverse undoes. */
  lemma Acc4ThirdStep(b: bv32)
    ensures UndoTimes17(b + (b << 4)) == b
  {
    ShiftFourIsTimes16(b);
    Times17Undone(b, b + (b << 4));
  }

  lemma ShiftFourIsTimes16(b: bv32)
    ensures b + (b << 4) == b * 17
  {
  }

  lemma Times17Undone(b: bv32, c: bv32)
    requires c == b * 17
    ensures UndoTimes17(c) == b
  {
  }

  /** ACC4's smear is undone by `UnsmearAcc4`, for every hash code. */
  lemma Acc4RoundTrip(code: bv32)
    ensures UnsmearAcc4(Smear(Acc4, code)) == code
  {
    var a := Acc4Step1(code);
    var b := Acc4Step2(a);
    var c := Acc4Step3(b);
    XorShift10Inverse(c);
    assert UndoXorShift10(Acc4Step4(c)) == c;
    Acc4ThirdStep(b);
    assert UndoTimes17(c) == b;
    XorShift14Inverse(a);
    assert UndoXorShift14(b) == a;
    UndoAcc4Step1Works(code);
  }

  /**
   * Every hasher but HASHMAP is injective on hash codes: distinct codes
   * never collide after smearing. HASHMAP does collide (`HashMapRange`).
   */
  lemma SmearInjective(h: Hasher, x: bv32, y: bv32)
    requires h != HashMap
    requires Smear(h, x) == Smear(h, y)
    ensures x == y
  {
    match h
    case Standard =>
    case MurmurHash3 =>
      MurmurRoundTrip(x);
      MurmurRoundTrip(y);
    case Acc4 =>
      Acc4RoundTrip(x);
      Acc4RoundTrip(y);
  }

  /**
   * The two xor-shift steps of ACC4 lose no information: each is undone by
   * xor-ing in the further shifts.
   */
  lemma XorShift14Inverse(a: bv32)
    ensures UndoXorShift14(a ^ (a >> 14)) == a
  {
  }

  lemma XorShift10Inverse(c: bv32)
    ensures UndoXorShift10(c ^ (c >> 10)) == c
  {
  }
}
