/**
 * DynamicEvent: a telemetry event made of four insert-once maps (ints,
 * strings, doubles, string vectors), and addTruncatedInt, which keeps only the
 * top bits of an integer before storing it.
 *
 * 64-bit integers are held as mathematical integers in the int64 range; the
 * bit operations of addTruncatedInt are written out on the unsigned 64-bit
 * reading of the value.
 */
module DynamicEvents {
  import opened Wrappers

  const TwoTo63: int := 0x8000_0000_0000_0000
  const TwoTo64: int := 0x1_0000_0000_0000_0000

  type Int64 = x: int | -TwoTo63 <= x < TwoTo63

  /** A double-precision value; only its identity matters here. */
  type Double(==)

  /**
   * What the event's operations raise: logic_error, or a failed XCHECK. A
   * failed XCHECK aborts the process; CheckFailure marks that end, after
   * which nothing of the event is used.
   */
  datatype EventError = LogicError(message: string) | CheckFailure(message: string)

  // ---------------------------------------------------------------------
  // Bits of unsigned 64-bit values
  // ---------------------------------------------------------------------

  function Pow2(n: nat): (p: nat)
    ensures p >= 1
  {
    if n == 0 then 1 else 2 * Pow2(n - 1)
  }

  /** The unsigned reading of an int64 (the conversion to uint64). */
  function ToUnsigned(v: Int64): (u: nat)
    ensures u < TwoTo64
    ensures (u - v) % TwoTo64 == 0
  {
    if v < 0 then v + TwoTo64 else v
  }

  /** The int64 reading of a uint64 (the conversion back to int64). */
  function FromUnsigned(u: nat): (v: Int64)
    requires u < TwoTo64
    ensures ToUnsigned(v) == u
  {
    if u < TwoTo63 then u else u - TwoTo64
  }

  /** Bitwise AND of two unsigned values, bit by bit from the lowest. */
  function BitAnd(a: nat, b: nat): (r: nat)
    ensures r <= a && r <= b
    decreases a
  {
    if a == 0 || b == 0 then 0
    else 2 * BitAnd(a / 2, b / 2) + (if a % 2 == 1 && b % 2 == 1 then 1 else 0)
  }

  /** 64 - clz(u): the 1-based position of the highest set bit, 0 for 0. */
  function BitLength(u: nat): (h: nat)
    ensures u < Pow2(h)
    ensures u > 0 ==> h > 0 && Pow2(h - 1) <= u
    ensures u == 0 ==> h == 0
  {
    if u == 0 then 0 else 1 + BitLength(u / 2)
  }

  /** u << s */
  function Shl(u: nat, s: nat): nat {
    if s == 0 then u else 2 * Shl(u, s - 1)
  }

  /** u >> s */
  function Shr(u: nat, s: nat): nat {
    if s == 0 then u else Shr(u / 2, s - 1)
  }

  /** The value of the bits of u below position s. */
  function LowBits(u: nat, s: nat): (r: nat)
    ensures r < Pow2(s) && r <= u
  {
    if s == 0 then 0 else 2 * LowBits(u / 2, s - 1) + u % 2
  }

  /** ((1 << k) - 1) << (h - k): k one bits ending at bit h. */
  function Mask(k: nat, h: nat): nat
    requires k <= h
  {
    Shl(Pow2(k) - 1, h - k)
  }

  /**
   * The value addTruncatedInt stores: unchanged when its highest set bit is
   * within the first `bitsToKeep` positions, else the value masked to the
   * `bitsToKeep` bits that end at its highest set bit.
   */
  function Truncated(value: Int64, bitsToKeep: nat): Int64
    requires bitsToKeep <= 64
  {
    var u := ToUnsigned(value);
    var highest := BitLength(u);
    if highest <= bitsToKeep then value
    else FromUnsigned(BitAnd(u, Mask(bitsToKeep, highest)))
  }

  // ---------------------------------------------------------------------
  // Facts behind the mask
  // ---------------------------------------------------------------------

  /** A value is its high part shifted back plus its low bits. */
  lemma {:induction false} SplitAt(u: nat, s: nat)
    ensures u == Shl(Shr(u, s), s) + LowBits(u, s)
    decreases s
  {
    if s > 0 {
      SplitAt(u / 2, s - 1);
      ShlDouble(Shr(u / 2, s - 1), s - 1);
    }
  }

  lemma {:induction false} ShlDouble(x: nat, s: nat)
    ensures Shl(x, s + 1) == 2 * Shl(x, s)
  {
  }

  /** AND with k low one bits keeps the low k bits. */
  lemma {:induction false} AndLowOnes(u: nat, k: nat)
    ensures BitAnd(u, Pow2(k) - 1) == LowBits(u, k)
    decreases k
  {
    if k > 0 && u > 0 {
      var b := Pow2(k) - 1;
      assert b % 2 == 1 && b / 2 == Pow2(k - 1) - 1;
      AndLowOnes(u / 2, k - 1);
    }
  }

  /** AND with a mask shifted left by s: shift the value right by s, AND, shift back. */
  lemma {:induction false} AndShifted(u: nat, m: nat, s: nat)
    ensures BitAnd(u, Shl(m, s)) == Shl(BitAnd(Shr(u, s), m), s)
    decreases s
  {
    if s > 0 {
      var big := Shl(m, s);
      AndShifted(u / 2, m, s - 1);
      if u > 0 && big > 0 {
        assert big % 2 == 0 && big / 2 == Shl(m, s - 1);
      } else if u == 0 {
        ShrZero(s);
        ShlZero(s);
      } else {
        ShlOfZeroMask(m, s);
        ShlZero(s);
      }
    }
  }

  lemma {:induction false} ShrZero(s: nat)
    ensures Shr(0, s) == 0
  {
    if s > 0 {
      ShrZero(s - 1);
    }
  }

  lemma {:induction false} ShlZero(s: nat)
    ensures Shl(0, s) == 0
  {
    if s > 0 {
      ShlZero(s - 1);
    }
  }

  lemma {:induction false} ShlOfZeroMask(m: nat, s: nat)
    requires Shl(m, s) == 0
    ensures m == 0 && BitAnd(0, m) == 0
  {
    if s > 0 {
      ShlOfZeroMask(m, s - 1);
    }
  }

  /** Below 2^(s+k), the value shifted right by s is below 2^k. */
  lemma {:induction false} ShrBelow(u: nat, s: nat, k: nat)
    requires u < Pow2(s + k)
    ensures Shr(u, s) < Pow2(k)
    decreases s
  {
    if s > 0 {
      ShrBelow(u / 2, s - 1, k);
    }
  }

  /** At or above 2^(a+s), the value shifted right by s is at least 2^a. */
  lemma {:induction false} ShrAbove(u: nat, s: nat, a: nat)
    requires Pow2(a + s) <= u
    ensures Pow2(a) <= Shr(u, s)
    decreases s
  {
    if s > 0 {
      ShrAbove(u / 2, s - 1, a);
    }
  }

  /** Shifting left is monotone, and 2^a shifted by s is 2^(a+s). */
  lemma {:induction false} ShlMonotone(x: nat, y: nat, a: nat, s: nat)
    requires x <= y && Pow2(a) <= x
    ensures Shl(x, s) <= Shl(y, s) && Pow2(a + s) <= Shl(x, s)
    decreases s
  {
    if s > 0 {
      ShlMonotone(x, y, a, s - 1);
    }
  }

  /** A value below 2^k is its own low k bits. */
  lemma {:induction false} LowBitsOfSmall(x: nat, k: nat)
    requires x < Pow2(k)
    ensures LowBits(x, k) == x
    decreases k
  {
    if k > 0 {
      LowBitsOfSmall(x / 2, k - 1);
    }
  }

  /** A value shifted left by s has no bits below s. */
  lemma {:induction false} LowBitsOfShifted(x: nat, s: nat)
    ensures LowBits(Shl(x, s), s) == 0
    decreases s
  {
    if s > 0 {
      ShlDouble(x, s - 1);
      var y := Shl(x, s - 1);
      assert Shl(x, s) / 2 == y && Shl(x, s) % 2 == 0;
      LowBitsOfShifted(x, s - 1);
    }
  }

  /**
   * The mask of addTruncatedInt zeroes exactly the bits of u below h - k:
   * for u below 2^h, AND with k ones ending at bit h is u minus its low
   * h - k bits.
   */
  lemma MaskKeepsTopBits(u: nat, k: nat, h: nat)
    requires k <= h && u < Pow2(h)
    ensures BitAnd(u, Mask(k, h)) == u - LowBits(u, h - k)
    ensures LowBits(BitAnd(u, Mask(k, h)), h - k) == 0
  {
    var s := h - k;
    MaskIsShiftedTop(u, k, h);
    SplitAt(u, s);
    LowBitsOfShifted(Shr(u, s), s);
  }

  /** AND with the mask is the value shifted right past its low h - k bits and back. */
  lemma MaskIsShiftedTop(u: nat, k: nat, h: nat)
    requires k <= h && u < Pow2(h)
    ensures BitAnd(u, Mask(k, h)) == Shl(Shr(u, h - k), h - k)
  {
    var s := h - k;
    var q := Shr(u, s);
    AndShifted(u, Pow2(k) - 1, s);
    AndLowOnes(q, k);
    assert s + k == h;
    ShrBelow(u, s, k);
    LowBitsOfSmall(q, k);
  }

  // ---------------------------------------------------------------------
  // What addTruncatedInt stores
  // ---------------------------------------------------------------------

  /** A value whose highest set bit is within bitsToKeep is stored unchanged. */
  lemma TruncatedUnchanged(value: Int64, bitsToKeep: nat)
    requires bitsToKeep <= 64 && BitLength(ToUnsigned(value)) <= bitsToKeep
    ensures Truncated(value, bitsToKeep) == value
  {
  }

  /**
   * Otherwise exactly the bitsToKeep bits starting at the highest set bit
   * survive: the unsigned result is the value with its low bits zeroed.
   */
  lemma TruncatedKeepsTop(value: Int64, bitsToKeep: nat)
    requires bitsToKeep <= 64
    requires BitLength(ToUnsigned(value)) > bitsToKeep
    ensures ToUnsigned(Truncated(value, bitsToKeep))
      == ToUnsigned(value) - LowBits(ToUnsigned(value), BitLength(ToUnsigned(value)) - bitsToKeep)
    ensures LowBits(ToUnsigned(Truncated(value, bitsToKeep)), BitLength(ToUnsigned(value)) - bitsToKeep) == 0
  {
    var u := ToUnsigned(value);
    var h := BitLength(u);
    TruncatedIsMasked(value, bitsToKeep);
    MaskKeepsTopBits(u, bitsToKeep, h);
  }

  /** Above bitsToKeep bits, the stored value reads back as the masked bits. */
  lemma TruncatedIsMasked(value: Int64, bitsToKeep: nat)
    requires bitsToKeep <= 64
    requires BitLength(ToUnsigned(value)) > bitsToKeep
    ensures ToUnsigned(Truncated(value, bitsToKeep))
      == BitAnd(ToUnsigned(value), Mask(bitsToKeep, BitLength(ToUnsigned(value))))
  {
  }

  /** Either way, the stored bits are among the value's bits. */
  lemma TruncatedIsSubset(value: Int64, bitsToKeep: nat)
    requires bitsToKeep <= 64
    ensures BitAnd(ToUnsigned(Truncated(value, bitsToKeep)), ToUnsigned(value))
      == ToUnsigned(Truncated(value, bitsToKeep))
  {
    var u := ToUnsigned(value);
    var h := BitLength(u);
    if h <= bitsToKeep {
      AndSelf(u);
    } else {
      var r := BitAnd(u, Mask(bitsToKeep, h));
      assert Truncated(value, bitsToKeep) == FromUnsigned(r);
      AndSubset(u, Mask(bitsToKeep, h));
    }
  }

  lemma {:induction false} AndSelf(a: nat)
    ensures BitAnd(a, a) == a
  {
    if a != 0 {
      AndSelf(a / 2);
    }
  }

  /** With at least one bit kept, the highest set bit itself survives. */
  lemma TruncatedKeepsHighestBit(value: Int64, bitsToKeep: nat)
    requires 1 <= bitsToKeep <= 64
    requires BitLength(ToUnsigned(value)) > bitsToKeep
    ensures BitLength(ToUnsigned(Truncated(value, bitsToKeep))) == BitLength(ToUnsigned(value))
  {
    TruncatedKeepsTop(value, bitsToKeep);
    HighBitSurvives(ToUnsigned(Truncated(value, bitsToKeep)), ToUnsigned(value), bitsToKeep);
  }

  /** Clearing fewer than h low bits of a value with bit length h keeps its bit length. */
  lemma HighBitSurvives(t: nat, u: nat, k: nat)
    requires 1 <= k < BitLength(u)
    requires t == u - LowBits(u, BitLength(u) - k)
    ensures BitLength(t) == BitLength(u)
  {
    var h := BitLength(u);
    var s := h - k;
    var a := k - 1;
    var q := Shr(u, s);
    SplitAt(u, s);
    assert t == Shl(q, s);
    assert a + s == h - 1;
    ShrAbove(u, s, a);
    ShlMonotone(Pow2(a), q, a, s);
    assert Pow2(h - 1) <= t <= u < Pow2(h);
    BitLengthOf(t, h);
  }

  /** Keeping zero bits of a nonzero value stores 0. */
  lemma TruncatedZeroBits(value: Int64)
    requires value != 0
    ensures Truncated(value, 0) == 0
  {
    var u := ToUnsigned(value);
    ShlZero(BitLength(u));
  }

  /** The bits of a AND b are among the bits of a. */
  lemma {:induction false} AndSubset(a: nat, b: nat)
    ensures BitAnd(BitAnd(a, b), a) == BitAnd(a, b)
    decreases a
  {
    if a != 0 && b != 0 {
      var r := BitAnd(a, b);
      AndSubset(a / 2, b / 2);
      var half := BitAnd(a / 2, b / 2);
      assert r / 2 == half && r % 2 == (if a % 2 == 1 && b % 2 == 1 then 1 else 0);
      if r != 0 {
        assert BitAnd(r, a) == 2 * BitAnd(half, a / 2) + (if r % 2 == 1 && a % 2 == 1 then 1 else 0);
      }
    }
  }

  /** The examples: 123 to 4, 10 and 0 bits. */
  lemma TruncatedExamples()
    ensures Truncated(123, 4) == 120 && Truncated(123, 4) != 112
    ensures Truncated(123, 10) == 123
    ensures Truncated(123, 0) == 0
  {
    assert Pow2(6) == 64 && Pow2(7) == 128;
    BitLengthOf(123, 7);
    TruncatedKeepsTop(123, 4);
    assert LowBits(123, 3) == 3;
    TruncatedZeroBits(123);
  }

  /** The binary examples: 0b101101 to 8 and to 3 bits. */
  lemma TruncatedBinaryExamples()
    ensures Truncated(0x2D, 8) == 0x2D
    ensures Truncated(0x2D, 3) == 0x28
  {
    assert Pow2(5) == 32 && Pow2(6) == 64;
    BitLengthOf(0x2D, 6);
    TruncatedKeepsTop(0x2D, 3);
    assert LowBits(0x2D, 3) == 5;
  }

  /** 0b10111010110110101010 kept to its 8 most significant bits. */
  lemma TruncatedWideExample()
    ensures Truncated(0xBADAA, 8) == 0xBA000
  {
    assert Pow2(19) == 0x80000 && Pow2(20) == 0x100000 by {
      assert Pow2(10) == 1024;
      Pow2Add(10, 10);
      Pow2Add(9, 10);
    }
    BitLengthOf(0xBADAA, 20);
    TruncatedKeepsTop(0xBADAA, 8);
    LowBitsExample();
  }

  lemma LowBitsExample()
    ensures LowBits(0xBADAA, 12) == 0xDAA
  {
      assert LowBits(0xBA, 0) == 0x0;
      assert LowBits(0x175, 1) == 0x1;
      assert LowBits(0x2EB, 2) == 0x3;
      assert LowBits(0x5D6, 3) == 0x6;
      assert LowBits(0xBAD, 4) == 0xD;
      assert LowBits(0x175B, 5) == 0x1B;
      assert LowBits(0x2EB6, 6) == 0x36;
      assert LowBits(0x5D6D, 7) == 0x6D;
      assert LowBits(0xBADA, 8) == 0xDA;
      assert LowBits(0x175B5, 9) == 0x1B5;
      assert LowBits(0x2EB6A, 10) == 0x36A;
      assert LowBits(0x5D6D5, 11) == 0x6D5;
  }

  lemma {:induction false} Pow2Add(a: nat, b: nat)
    ensures Pow2(a + b) == Pow2(a) * Pow2(b)
    decreases a
  {
    if a > 0 {
      Pow2Add(a - 1, b);
    }
  }

  /** A value in [2^(h-1), 2^h) has bit length h. */
  lemma {:induction false} BitLengthOf(u: nat, h: nat)
    requires h > 0 && Pow2(h - 1) <= u < Pow2(h)
    ensures BitLength(u) == h
    decreases h
  {
    if h > 1 {
      BitLengthOf(u / 2, h - 1);
    }
  }

  // ---------------------------------------------------------------------
  // The event
  // ---------------------------------------------------------------------

  /** The validated copy of each string, element by element. */
  function ValidatedAll(ensureValidUtf8: string -> string, values: seq<string>): seq<string> {
    seq(|values|, i requires 0 <= i < |values| => ensureValidUtf8(values[i]))
  }

  /** Validation is element-wise: validating two vectors joined is joining their validations. */
  lemma ValidatedAllAppend(ensureValidUtf8: string -> string, a: seq<string>, b: seq<string>)
    ensures ValidatedAll(ensureValidUtf8, a + b) == ValidatedAll(ensureValidUtf8, a) + ValidatedAll(ensureValidUtf8, b)
  {
    var joined := ValidatedAll(ensureValidUtf8, a) + ValidatedAll(ensureValidUtf8, b);
    forall i | 0 <= i < |a + b|
      ensures ValidatedAll(ensureValidUtf8, a + b)[i] == joined[i]
    {
      if i >= |a| {
        assert (a + b)[i] == b[i - |a|];
      }
    }
  }

  class DynamicEvent {
    var ints: map<string, Int64>
    var strings: map<string, string>
    var doubles: map<string, Double>
    var stringVecs: map<string, seq<string>>
    /** ensureValidUtf8: replaces invalid UTF-8 sequences; its definition is not part of this model. */
    const ensureValidUtf8: string -> string

    constructor (ensureValidUtf8: string -> string)
      ensures ints == map[] && strings == map[] && doubles == map[] && stringVecs == map[]
      ensures this.ensureValidUtf8 == ensureValidUtf8
    {
      ints := map[];
      strings := map[];
      doubles := map[];
      stringVecs := map[];
      this.ensureValidUtf8 := ensureValidUtf8;
    }

    /** addInt: insert once; a duplicate name raises logic_error and keeps the old value. */
    method AddInt(name: string, value: Int64) returns (r: Result<(), EventError>)
      modifies this`ints
      ensures name !in old(ints) ==> r.Success? && ints == old(ints)[name := value]
      ensures name in old(ints) ==>
        r == Failure(LogicError("Attempted to insert duplicate int: " + name)) && ints == old(ints)
    {
      if name in ints {
        return Failure(LogicError("Attempted to insert duplicate int: " + name));
      }
      ints := ints[name := value];
      return Success(());
    }

    /** addString: insert the validated string once. */
    method AddString(name: string, value: string) returns (r: Result<(), EventError>)
      modifies this`strings
      ensures name !in old(strings) ==> r.Success? && strings == old(strings)[name := ensureValidUtf8(value)]
      ensures name in old(strings) ==>
        r == Failure(LogicError("Attempted to insert duplicate string: " + name)) && strings == old(strings)
    {
      var validated := ensureValidUtf8(value);
      if name in strings {
        return Failure(LogicError("Attempted to insert duplicate string: " + name));
      }
      strings := strings[name := validated];
      return Success(());
    }

    /** addDouble: insert once (the finiteness check is not modelled). */
    method AddDouble(name: string, value: Double) returns (r: Result<(), EventError>)
      modifies this`doubles
      ensures name !in old(doubles) ==> r.Success? && doubles == old(doubles)[name := value]
      ensures name in old(doubles) ==>
        r == Failure(LogicError("Attempted to insert duplicate double: " + name)) && doubles == old(doubles)
    {
      if name in doubles {
        return Failure(LogicError("Attempted to insert duplicate double: " + name));
      }
      doubles := doubles[name := value];
      return Success(());
    }

    /** addStringVec: validate each element in order, then insert once. */
    method AddStringVec(name: string, value: seq<string>) returns (r: Result<(), EventError>)
      modifies this`stringVecs
      ensures name !in old(stringVecs) ==>
        r.Success? && stringVecs == old(stringVecs)[name := ValidatedAll(ensureValidUtf8, value)]
      ensures name in old(stringVecs) ==>
        r == Failure(LogicError("Attempted to insert duplicate string vector: " + name))
        && stringVecs == old(stringVecs)
    {
      var validated := [];
      for k := 0 to |value|
        invariant |validated| == k
        invariant forall i :: 0 <= i < k ==> validated[i] == ensureValidUtf8(value[i])
      {
        validated := validated + [ensureValidUtf8(value[k])];
      }
      assert validated == ValidatedAll(ensureValidUtf8, value);
      if name in stringVecs {
        return Failure(LogicError("Attempted to insert duplicate string vector: " + name));
      }
      stringVecs := stringVecs[name := validated];
      return Success(());
    }

    /**
     * addTruncatedInt: XCHECK bitsToKeep <= 64, then addInt of the value
     * truncated to its top bitsToKeep bits.
     */
    method AddTruncatedInt(name: string, value: Int64, bitsToKeep: nat) returns (r: Result<(), EventError>)
      modifies this`ints
      ensures bitsToKeep > 64 ==> r.Failure? && r.error.CheckFailure? && ints == old(ints)
      ensures bitsToKeep <= 64 && name !in old(ints) ==>
        r.Success? && ints == old(ints)[name := Truncated(value, bitsToKeep)]
      ensures bitsToKeep <= 64 && name in old(ints) ==>
        r == Failure(LogicError("Attempted to insert duplicate int: " + name)) && ints == old(ints)
    {
      if bitsToKeep > 64 {
        return Failure(CheckFailure("Check failed: bits_to_keep <= 64U"));
      }
      var u := ToUnsigned(value);
      var highest := BitLength(u);
      if highest <= bitsToKeep {
        r := AddInt(name, value);
      } else {
        var mask := Mask(bitsToKeep, highest);
        r := AddInt(name, FromUnsigned(BitAnd(u, mask)));
      }
    }
  }

  /** The event examples: an int, then its duplicate; a string vector kept in order. */
  method ScenarioInsertOnce(ensureValidUtf8: string -> string) returns (e: DynamicEvent)
    ensures e.ints == map["test_int" := 123]
    ensures e.stringVecs == map["stringvec" := ValidatedAll(ensureValidUtf8, ["a", "b", "c"])]
  {
    e := new DynamicEvent(ensureValidUtf8);
    var r1 := e.AddInt("test_int", 123);
    assert r1.Success?;
    var r2 := e.AddInt("test_int", 456);
    assert r2.Failure?;
    var r3 := e.AddStringVec("stringvec", ["a", "b", "c"]);
    var r4 := e.AddStringVec("stringvec", ["qq"]);
    assert r4.Failure?;
  }
}
