/**
 * The Snowflake identifier generator: a 64-bit identifier made of the
 * milliseconds since a custom epoch, a 5-bit identifier, a 5-bit
 * sub-identifier and a 12-bit per-millisecond sequence. The system clock is
 * not modelled; every call receives the readings the clock would give.
 */
module Snowflake {
  import opened Wrappers

  const IdentifierBits := 5
  const SubIdentifierBits := 5
  const SequenceBits := 12

  const SubIdentifierShift := SequenceBits
  const IdentifierShift := SequenceBits + SubIdentifierBits
  const TimestampLeftShift := IdentifierShift + IdentifierBits

  const AllOnes: bv64 := 0xffff_ffff_ffff_ffff

  /** `-1L ^ -1L << bits`: the mask of the low `bits` bits. */
  function LowMask(bits: bv64): (r: bv64)
    requires bits < 64
  {
    AllOnes ^ (AllOnes << bits)
  }

  const MaxIdentifier := 31
  const MaxSubIdentifier := 31
  const SequenceMask := 4095

  /** The three masks of the layout, as the shifts compute them. */
  lemma MaskConstants()
    ensures LowMask(IdentifierBits as bv64) as int == MaxIdentifier
    ensures LowMask(SubIdentifierBits as bv64) as int == MaxSubIdentifier
    ensures LowMask(SequenceBits as bv64) as int == SequenceMask
    ensures TimestampLeftShift == 22 && IdentifierShift == 17 && SubIdentifierShift == 12
  {
  }

  /** `(sequence + 1) & SEQUENCE_MASK` on a Java long is `(sequence + 1) mod 4096`. */
  lemma MaskIsModulo(x: bv64)
    ensures (x + 1) & 4095 == (x + 1) % 4096
  {
  }

  /**
   * The identifier: the four fields shifted into their places. The fields
   * occupy disjoint bit ranges, so Java's `|` adds them.
   */
  function Pack(delta: int, identifier: int, subIdentifier: int, sequence: int): int
  {
    delta * 0x40_0000 + identifier * 0x2_0000 + subIdentifier * 0x1000 + sequence
  }

  predicate InRange(identifier: int, subIdentifier: int, sequence: int)
  {
    0 <= identifier <= MaxIdentifier && 0 <= subIdentifier <= MaxSubIdentifier
    && 0 <= sequence <= SequenceMask
  }

  /** For non-negative fields, `Pack` is exactly Java's `<<` and `|` on the fields. */
  lemma PackIsBitwiseOr(delta: bv64, identifier: bv64, subIdentifier: bv64, sequence: bv64)
    requires delta < 0x200_0000_0000
    requires identifier <= 31 && subIdentifier <= 31 && sequence <= 4095
    ensures (delta << 22) | (identifier << 17) | (subIdentifier << 12) | sequence
         == delta * 0x40_0000 + identifier * 0x2_0000 + subIdentifier * 0x1000 + sequence
  {
  }

  /** Every field can be read back from the identifier with shifts and masks. */
  lemma {:induction false} UnpackPack(delta: int, identifier: int, subIdentifier: int, sequence: int)
    requires InRange(identifier, subIdentifier, sequence)
    ensures Pack(delta, identifier, subIdentifier, sequence) % 0x1000 == sequence
    ensures (Pack(delta, identifier, subIdentifier, sequence) / 0x1000) % 32 == subIdentifier
    ensures (Pack(delta, identifier, subIdentifier, sequence) / 0x2_0000) % 32 == identifier
    ensures Pack(delta, identifier, subIdentifier, sequence) / 0x40_0000 == delta
  {
    var id := Pack(delta, identifier, subIdentifier, sequence);
    var a := delta * 32 + identifier;
    var b := a * 32 + subIdentifier;
    assert id == b * 0x1000 + sequence;
    assert id / 0x1000 == b;
    assert id == a * 0x2_0000 + (subIdentifier * 0x1000 + sequence);
    assert id / 0x2_0000 == a;
  }

  /** A later millisecond, or a later sequence in the same millisecond, gives a larger identifier. */
  lemma {:induction false} PackIncreases(d1: int, s1: int, d2: int, s2: int, identifier: int, subIdentifier: int)
    requires InRange(identifier, subIdentifier, s1) && InRange(identifier, subIdentifier, s2)
    requires d1 < d2 || (d1 == d2 && s1 < s2)
    ensures Pack(d1, identifier, subIdentifier, s1) < Pack(d2, identifier, subIdentifier, s2)
  {
    if d1 < d2 {
      assert d2 * 0x40_0000 >= d1 * 0x40_0000 + 0x40_0000;
    }
  }

  predicate Increasing(ids: seq<int>)
  {
    forall i, j :: 0 <= i < j < |ids| ==> ids[i] < ids[j]
  }

  /** The generator's settings pass the constructor's checks against the clock reading `now`. */
  predicate Accepts(epoch: int, identifier: int, subIdentifier: int, now: int)
  {
    0 <= epoch <= now && 0 <= identifier <= MaxIdentifier && 0 <= subIdentifier <= MaxSubIdentifier
  }

  /**
   * `tilNextMillis`: polls the clock until it passes `lastTimestamp`; the
   * first poll happens unconditionally and the alerter fires once, on the
   * first unsuccessful poll. The clock must eventually move on, otherwise
   * Java spins forever.
   */
  method TilNextMillis(lastTimestamp: int, polls: seq<int>) returns (mill: int, used: nat, alerted: bool)
    requires exists i :: 0 <= i < |polls| && polls[i] > lastTimestamp
    ensures 1 <= used <= |polls| && mill == polls[used - 1]
    ensures mill > lastTimestamp
    ensures forall j :: 0 <= j < used - 1 ==> polls[j] <= lastTimestamp
    ensures alerted <==> used > 1
  {
    alerted := false;
    mill := polls[0];
    used := 1;
    while mill <= lastTimestamp
      invariant 1 <= used <= |polls| && mill == polls[used - 1]
      invariant forall j :: 0 <= j < used ==> polls[j] <= lastTimestamp || j == used - 1
      invariant exists i :: used - 1 <= i < |polls| && polls[i] > lastTimestamp
      invariant alerted <==> used > 1
      decreases |polls| - used
    {
      if !alerted {
        alerted := true;
      }
      mill := polls[used];
      used := used + 1;
    }
  }

  class SnowflakeIdGenerator {
    const epoch: int
    const identifier: int
    const subIdentifier: int
    var sequence: int
    var lastTimestamp: int
    /** Every identifier handed out so far, in order. */
    ghost var issued: seq<int>

    ghost predicate Valid()
      reads this
    {
      0 <= epoch && InRange(identifier, subIdentifier, sequence)
      && Increasing(issued)
      && (|issued| == 0 ==> lastTimestamp == -1 && sequence == 0)
      && (|issued| > 0 ==> issued[|issued| - 1] == Pack(lastTimestamp - epoch, identifier, subIdentifier, sequence))
    }

    /** The three-argument constructor after its checks have passed. */
    constructor (epoch: int, identifier: int, subIdentifier: int, now: int)
      requires Accepts(epoch, identifier, subIdentifier, now)
      ensures Valid() && issued == []
      ensures this.epoch == epoch && this.identifier == identifier && this.subIdentifier == subIdentifier
      ensures sequence == 0 && lastTimestamp == -1
    {
      this.epoch := epoch;
      this.identifier := identifier;
      this.subIdentifier := subIdentifier;
      sequence := 0;
      lastTimestamp := -1;
      issued := [];
    }

    /**
     * `getNextId`: `readings[0]` is the clock at the call, the rest are the
     * polls `tilNextMillis` may make.
     */
    method NextId(readings: seq<int>) returns (r: Outcome<int>)
      requires Valid() && |readings| >= 1
      requires readings[0] == lastTimestamp && (sequence + 1) % 4096 == 0
               ==> exists i :: 1 <= i < |readings| && readings[i] > lastTimestamp
      modifies this
      ensures Valid()
      ensures readings[0] < old(lastTimestamp) <==> r.Threw?
      ensures r.Threw? ==> r.error == IllegalState && unchanged(this)
      ensures r.Returned? ==> issued == old(issued) + [r.value]
      ensures r.Returned? ==> r.value == Pack(lastTimestamp - epoch, identifier, subIdentifier, sequence)
      ensures r.Returned? ==> old(lastTimestamp) <= lastTimestamp
      ensures r.Returned? && readings[0] > old(lastTimestamp) ==> lastTimestamp == readings[0] && sequence == 0
      ensures r.Returned? && readings[0] == old(lastTimestamp) ==>
        sequence == (old(sequence) + 1) % 4096
        && (sequence == 0 ==> lastTimestamp > old(lastTimestamp))
        && (sequence != 0 ==> lastTimestamp == old(lastTimestamp))
      ensures r.Returned? && readings[0] == old(lastTimestamp) && sequence == 0 ==>
        exists u :: 1 <= u < |readings| && lastTimestamp == readings[u]
          && forall j :: 1 <= j < u ==> readings[j] <= old(lastTimestamp)
    {
      var current := readings[0];
      if current < lastTimestamp {
        return Threw(IllegalState);
      }
      if current == lastTimestamp {
        sequence := (sequence + 1) % 4096;
        if sequence == 0 {
          var used, alerted;
          current, used, alerted := TilNextMillis(lastTimestamp, readings[1..]);
          assert current == readings[used] && forall j :: 1 <= j < used ==> readings[j] == readings[1..][j - 1];
        }
      } else {
        sequence := 0;
      }
      if |issued| > 0 {
        PackIncreases(old(lastTimestamp) - epoch, old(sequence), current - epoch, sequence, identifier, subIdentifier);
      }
      lastTimestamp := current;
      var id := Pack(current - epoch, identifier, subIdentifier, sequence);
      issued := issued + [id];
      r := Returned(id);
    }
  }

  /**
   * The checking constructor: an epoch below 0 or after the clock reading
   * `now`, or an identifier or sub-identifier outside [0, 31], is rejected
   * with IllegalArgumentException.
   */
  method Create(epoch: int, identifier: int, subIdentifier: int, now: int) returns (r: Outcome<SnowflakeIdGenerator>)
    ensures r.Returned? <==> Accepts(epoch, identifier, subIdentifier, now)
    ensures r.Threw? ==> r.error == IllegalArgument
    ensures r.Returned? ==> fresh(r.value) && r.value.Valid() && r.value.issued == []
    ensures r.Returned? ==> r.value.epoch == epoch && r.value.identifier == identifier
    ensures r.Returned? ==> r.value.subIdentifier == subIdentifier
  {
    if !Accepts(epoch, identifier, subIdentifier, now) {
      return Threw(IllegalArgument);
    }
    var g := new SnowflakeIdGenerator(epoch, identifier, subIdentifier, now);
    r := Returned(g);
  }

  /**
   * The constructor taking identifier lookups: a missing (null) lookup
   * stands for one that yields 0; `lookup` and `subLookup` are the values
   * the lookups return.
   */
  method CreateWithLookups(epoch: int, lookup: Option<int>, subLookup: Option<int>, now: int)
    returns (r: Outcome<SnowflakeIdGenerator>)
    ensures r.Returned? <==> Accepts(epoch, lookup.GetOr(0), subLookup.GetOr(0), now)
    ensures r.Returned? ==> fresh(r.value) && r.value.Valid()
    ensures r.Returned? ==> r.value.identifier == lookup.GetOr(0) && r.value.subIdentifier == subLookup.GetOr(0)
  {
    r := Create(epoch, lookup.GetOr(0), subLookup.GetOr(0), now);
  }

  /** The generator never hands out the same identifier twice. */
  lemma IssuedDistinct(g: SnowflakeIdGenerator, i: int, j: int)
    requires g.Valid() && 0 <= i < j < |g.issued|
    ensures g.issued[i] != g.issued[j]
  {
  }
}
