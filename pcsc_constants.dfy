/**
 * The PC/SC constants as the MUSCLE (pcsc-lite) library defines them: the
 * transmission protocols and the states a card reader reports.  Each group
 * is a set of bit flags, so that a protocol mask or a reader state can
 * combine several of them.
 */
module PcscConstants {

  /** Java's `int`. */
  newtype int32 = x: int | -0x8000_0000 <= x < 0x8000_0000

  const SCARD_PROTOCOL_T0: int32 := 0x0001
  const SCARD_PROTOCOL_T1: int32 := 0x0002
  const SCARD_PROTOCOL_RAW: int32 := 0x0004

  const SCARD_UNKNOWN: int32 := 0x0001
  const SCARD_ABSENT: int32 := 0x0002
  const SCARD_PRESENT: int32 := 0x0004
  const SCARD_SWALLOWED: int32 := 0x0008
  const SCARD_POWERED: int32 := 0x0010
  const SCARD_NEGOTIABLE: int32 := 0x0020
  const SCARD_SPECIFIC: int32 := 0x0040

  /** The protocol flags, in the order they are declared. */
  const Protocols: seq<int32> := [SCARD_PROTOCOL_T0, SCARD_PROTOCOL_T1, SCARD_PROTOCOL_RAW]

  /** The card-state flags, in the order they are declared. */
  const CardStates: seq<int32> :=
    [SCARD_UNKNOWN, SCARD_ABSENT, SCARD_PRESENT, SCARD_SWALLOWED,
     SCARD_POWERED, SCARD_NEGOTIABLE, SCARD_SPECIFIC]

  function Pow2(n: nat): nat {
    if n == 0 then 1 else 2 * Pow2(n - 1)
  }

  /** The 32-bit pattern of a Java `int`. */
  function Bits(x: int32): bv32 {
    (if x < 0 then x as int + 0x1_0000_0000 else x as int) as bv32
  }

  /** Exactly one bit of `x` is set. */
  predicate SingleBit(x: int32) {
    Bits(x) != 0 && Bits(x) & (Bits(x) - 1) == 0
  }

  /** Bitwise or of a group of flags. */
  function Union(flags: seq<int32>): bv32 {
    if flags == [] then 0 else Union(flags[..|flags| - 1]) | Bits(flags[|flags| - 1])
  }

  /** No two flags of a group share a bit. */
  predicate PairwiseDisjoint(flags: seq<int32>) {
    forall i, j :: 0 <= i < j < |flags| ==> Bits(flags[i]) & Bits(flags[j]) == 0
  }

  /** The three protocols are distinct single bits; together they fill the low three bits. */
  lemma ProtocolFlags()
    ensures forall i :: 0 <= i < |Protocols| ==> SingleBit(Protocols[i])
    ensures forall i :: 0 <= i < |Protocols| ==> Protocols[i] as int == Pow2(i)
    ensures PairwiseDisjoint(Protocols)
    ensures Union(Protocols) == 0x7
  {
    assert Union(Protocols[..1]) == 0x1;
    assert Union(Protocols[..2]) == 0x3;
  }

  /** Each card state doubles the one declared before it. */
  lemma CardStatesDouble()
    ensures forall i :: 0 < i < |CardStates| ==> CardStates[i] == 2 * CardStates[i - 1]
  {
  }

  /** The card states are the consecutive powers of two from 0x01 to 0x40. */
  lemma {:induction false} CardStatePower(i: nat)
    requires i < |CardStates|
    ensures CardStates[i] as int == Pow2(i)
  {
    if i > 0 {
      CardStatePower(i - 1);
      CardStatesDouble();
    }
  }

  /** The bit patterns of the card states, in order. */
  lemma CardStatePatterns()
    ensures Bits(CardStates[0]) == 0x01 && Bits(CardStates[1]) == 0x02
    ensures Bits(CardStates[2]) == 0x04 && Bits(CardStates[3]) == 0x08
    ensures Bits(CardStates[4]) == 0x10 && Bits(CardStates[5]) == 0x20
    ensures Bits(CardStates[6]) == 0x40
  {
  }

  /** Each card state is a single bit, and no two card states share one. */
  lemma CardStateBits()
    ensures forall i :: 0 <= i < |CardStates| ==> SingleBit(CardStates[i])
    ensures PairwiseDisjoint(CardStates)
  {
    CardStatePatterns();
  }

  /** Together the card states fill the low seven bits. */
  lemma CardStateUnion()
    ensures Union(CardStates) == 0x7F
  {
    assert Union(CardStates[..1]) == 0x01;
    assert Union(CardStates[..2]) == 0x03;
    assert CardStates[..3][..2] == CardStates[..2];
    assert Union(CardStates[..3]) == 0x07;
    assert CardStates[..4][..3] == CardStates[..3];
    assert Union(CardStates[..4]) == 0x0F;
    assert CardStates[..5][..4] == CardStates[..4];
    assert Union(CardStates[..5]) == 0x1F;
    assert CardStates[..6][..5] == CardStates[..5];
    assert Union(CardStates[..6]) == 0x3F;
    assert CardStates[..6] == CardStates[..|CardStates| - 1];
  }
}
