/** A set of status flags kept in one unsigned word (`BitStatus<unsigned int>`). */
module BitStatus {

  /** The status constants shared by the runtime's objects. */
  const None: bv32 := 0
  const Uninitialized: bv32 := 0
  const Initialized: bv32 := 1 << 0
  const Realized: bv32 := Initialized
  const Idle: bv32 := Realized << 1
  const Alive: bv32 := Idle << 1
  const UserDefined: bv32 := Alive << 1

  /** The status constants are 0 and the first four single bits, in this order. */
  lemma StatusConstants()
    ensures None == Uninitialized == 0
    ensures Initialized == Realized == 1 && Idle == 2 && Alive == 4 && UserDefined == 8
  {
  }

  /** Bit `i` of `x`. */
  predicate Bit(x: bv32, i: bv32)
    requires i < 32
  {
    (x >> i) & 1 == 1
  }

  lemma BitAnd(x: bv32, y: bv32, i: bv32)
    requires i < 32
    ensures Bit(x & y, i) <==> Bit(x, i) && Bit(y, i)
  {
  }

  lemma BitOr(x: bv32, y: bv32, i: bv32)
    requires i < 32
    ensures Bit(x | y, i) <==> Bit(x, i) || Bit(y, i)
  {
  }

  /** Bit by bit, `r` holds the bits that `x` and `y` both hold. */
  ghost predicate BitsOfBoth(r: bv32, x: bv32, y: bv32) {
    forall i: bv32 :: i < 32 ==> (Bit(r, i) <==> Bit(x, i) && Bit(y, i))
  }

  /** Bit by bit, `r` holds the bits that `x` or `y` holds. */
  ghost predicate BitsOfEither(r: bv32, x: bv32, y: bv32) {
    forall i: bv32 :: i < 32 ==> (Bit(r, i) <==> Bit(x, i) || Bit(y, i))
  }

  /** `BitAnd` for all 32 bits at once. */
  lemma AndBits(x: bv32, y: bv32)
    ensures BitsOfBoth(x & y, x, y)
  {
    forall i: bv32 | i < 32
      ensures Bit(x & y, i) <==> Bit(x, i) && Bit(y, i)
    {
      BitAnd(x, y, i);
    }
  }

  /** `BitOr` for all 32 bits at once. */
  lemma OrBits(x: bv32, y: bv32)
    ensures BitsOfEither(x | y, x, y)
  {
    forall i: bv32 | i < 32
      ensures Bit(x | y, i) <==> Bit(x, i) || Bit(y, i)
    {
      BitOr(x, y, i);
    }
  }

  lemma BitAndNot(x: bv32, y: bv32, i: bv32)
    requires i < 32
    ensures Bit(x & !y, i) <==> Bit(x, i) && !Bit(y, i)
  {
  }

  /** A word none of whose 32 bits is set is zero. */
  lemma ZeroIfNoBits(x: bv32)
    requires forall i: bv32 :: i < 32 ==> !Bit(x, i)
    ensures x == 0
  {
    assert !Bit(x, 0) && !Bit(x, 1) && !Bit(x, 2) && !Bit(x, 3) && !Bit(x, 4) && !Bit(x, 5) && !Bit(x, 6) && !Bit(x, 7);
    assert !Bit(x, 8) && !Bit(x, 9) && !Bit(x, 10) && !Bit(x, 11) && !Bit(x, 12) && !Bit(x, 13) && !Bit(x, 14) && !Bit(x, 15);
    assert !Bit(x, 16) && !Bit(x, 17) && !Bit(x, 18) && !Bit(x, 19) && !Bit(x, 20) && !Bit(x, 21) && !Bit(x, 22) && !Bit(x, 23);
    assert !Bit(x, 24) && !Bit(x, 25) && !Bit(x, 26) && !Bit(x, 27) && !Bit(x, 28) && !Bit(x, 29) && !Bit(x, 30) && !Bit(x, 31);
  }

  /** If every bit of `p` is a bit of `s`, masking `p` with the complement of `s` leaves nothing. */
  lemma NoMissingBits(s: bv32, p: bv32)
    requires forall i: bv32 :: i < 32 && Bit(p, i) ==> Bit(s, i)
    ensures p & !s == 0
  {
    var x := p & !s;
    forall i: bv32 | i < 32
      ensures !Bit(x, i)
    {
      BitAndNot(p, s, i);
    }
    ZeroIfNoBits(x);
  }

  /** Every bit of `p` is set in `s`. */
  predicate AllSet(s: bv32, p: bv32) {
    s & p == p
  }

  /** Some bit of `p` is set in `s`. */
  predicate AnySet(s: bv32, p: bv32) {
    s & p != 0
  }

  /** The test behind `IsSet`, bit by bit. */
  lemma AllBitsSet(s: bv32, p: bv32)
    ensures AllSet(s, p) <==> forall i: bv32 :: i < 32 && Bit(p, i) ==> Bit(s, i)
  {
    if s & p == p {
      forall i: bv32 | i < 32 && Bit(p, i)
        ensures Bit(s, i)
      {
        BitAnd(s, p, i);
      }
    } else if forall i: bv32 :: i < 32 && Bit(p, i) ==> Bit(s, i) {
      NoMissingBits(s, p);
      assert false;
    }
  }

  /** A bit set in both words makes their masks overlap. */
  lemma SharedBit(s: bv32, p: bv32, i: bv32)
    requires i < 32 && Bit(p, i) && Bit(s, i)
    ensures AnySet(s, p)
  {
    BitAnd(s, p, i);
    assert Bit(s & p, i);
  }

  /** Words sharing no bit do not overlap. */
  lemma NoSharedBit(s: bv32, p: bv32)
    requires forall i: bv32 :: i < 32 ==> !(Bit(p, i) && Bit(s, i))
    ensures !AnySet(s, p)
  {
    var x := s & p;
    forall i: bv32 | i < 32
      ensures !Bit(x, i)
    {
      BitAnd(s, p, i);
    }
    ZeroIfNoBits(x);
  }

  /** The test behind `IsAnySet`, bit by bit. */
  lemma SomeBitSet(s: bv32, p: bv32)
    ensures AnySet(s, p) <==> exists i: bv32 :: i < 32 && Bit(p, i) && Bit(s, i)
  {
    if exists i: bv32 :: i < 32 && Bit(p, i) && Bit(s, i) {
      var i: bv32 :| i < 32 && Bit(p, i) && Bit(s, i);
      SharedBit(s, p, i);
    } else {
      NoSharedBit(s, p);
    }
  }

  /** Setting `p` changes no bit outside `p`; clearing `p` changes no bit outside `p` either. */
  lemma OtherBitsUnchanged(s: bv32, p: bv32, i: bv32)
    requires i < 32 && !Bit(p, i)
    ensures Bit(s | p, i) <==> Bit(s, i)
    ensures Bit(s & !p, i) <==> Bit(s, i)
  {
  }

  class BitStatus {
    var status: bv32

    /** `BitStatus(ValueType status = 0)`. */
    constructor (initial: bv32)
      ensures status == initial
    {
      status := initial;
    }

    /** `IsSet(prop)`: every bit of `prop` is set. */
    predicate IsSet(prop: bv32)
      reads this
      ensures IsSet(prop) <==> forall i: bv32 :: i < 32 && Bit(prop, i) ==> Bit(status, i)
    {
      AllBitsSet(status, prop);
      AllSet(status, prop)
    }

    /** `IsAnySet(prop)`: at least one bit of `prop` is set. */
    predicate IsAnySet(prop: bv32)
      reads this
      ensures IsAnySet(prop) <==> exists i: bv32 :: i < 32 && Bit(prop, i) && Bit(status, i)
    {
      SomeBitSet(status, prop);
      AnySet(status, prop)
    }

    /** `IsDirty()`: some flag is set. */
    predicate IsDirty()
      reads this
      ensures IsDirty() <==> exists i: bv32 :: i < 32 && Bit(status, i)
    {
      SomeBitSet(status, 0xFFFF_FFFF);
      status != 0
    }

    /** `operator &`: the masked value; reading it leaves the status alone. */
    function And(rhs: bv32): (r: bv32)
      reads this
      ensures BitsOfBoth(r, status, rhs)
    {
      AndBits(status, rhs);
      status & rhs
    }

    /** `operator |`: the combined value; reading it leaves the status alone. */
    function Or(rhs: bv32): (r: bv32)
      reads this
      ensures BitsOfEither(r, status, rhs)
    {
      OrBits(status, rhs);
      status | rhs
    }

    /** `Set(prop)`: ORs `prop` in, so every bit of `prop` is set afterwards. */
    method Set(prop: bv32)
      modifies this
      ensures status == old(status) | prop
      ensures IsSet(prop)
    {
      status := status | prop;
    }

    /** `Unset(prop)`: clears exactly the bits of `prop`. */
    method Unset(prop: bv32)
      modifies this
      ensures status == old(status) & !prop
      ensures !IsAnySet(prop)
    {
      status := status & !prop;
    }

    /** `Set(prop, set)`: `Set(prop)` when `on` holds, `Unset(prop)` otherwise. */
    method SetTo(prop: bv32, on: bool)
      modifies this
      ensures on ==> status == old(status) | prop && IsSet(prop)
      ensures !on ==> status == old(status) & !prop && !IsAnySet(prop)
    {
      if on {
        Set(prop);
      } else {
        Unset(prop);
      }
    }

    /** `Clear()`: no flag is set afterwards. */
    method Clear()
      modifies this
      ensures status == 0 && !IsDirty()
    {
      status := 0;
    }

    /** `operator &=`: stores what `operator &` returns. */
    method AndAssign(rhs: bv32)
      modifies this
      ensures status == old(And(rhs))
    {
      status := status & rhs;
    }

    /** `operator |=`: stores what `operator |` returns. */
    method OrAssign(rhs: bv32)
      modifies this
      ensures status == old(Or(rhs))
    {
      status := status | rhs;
    }
  }

  /** The empty flag set is always fully set and never partly set. */
  lemma EmptyProp(b: BitStatus)
    ensures b.IsSet(0) && !b.IsAnySet(0)
  {
  }
}
