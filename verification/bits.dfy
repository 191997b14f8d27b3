/** An 8-bit register value seen as a set of flags.

    The driver's registers are `bitflags` structs over `u8`: every operation is
    plain bitwise logic, and the meaning of each operation is a set operation on
    the indices of the bits that are set. `Elems` gives that set view, and every
    operation here states its result in terms of it. */
module Bits {

  type Byte = bv8

  /** The flag at bit index `i` (bit 0 is the least significant). */
  function Bit(i: nat): Byte
    requires i < 8
  {
    (1 as bv8) << i
  }

  /** The indices of the bits set in `x`. */
  function Elems(x: Byte): set<nat> {
    set i: nat | i < 8 && x & Bit(i) != 0
  }

  /** A byte is determined by the flags it holds. */
  lemma {:induction false} Extensional(x: Byte, y: Byte)
    requires Elems(x) == Elems(y)
    ensures x == y
  {
    assert (0 in Elems(x)) == (0 in Elems(y));
    assert (1 in Elems(x)) == (1 in Elems(y));
    assert (2 in Elems(x)) == (2 in Elems(y));
    assert (3 in Elems(x)) == (3 in Elems(y));
    assert (4 in Elems(x)) == (4 in Elems(y));
    assert (5 in Elems(x)) == (5 in Elems(y));
    assert (6 in Elems(x)) == (6 in Elems(y));
    assert (7 in Elems(x)) == (7 in Elems(y));
  }

  /** The single flag `Bit(i)` holds exactly index `i`. */
  lemma ElemsBit(i: nat)
    requires i < 8
    ensures Elems(Bit(i)) == {i}
  {
    forall j: nat | j < 8
      ensures (j in Elems(Bit(i))) == (j == i)
    {
    }
  }

  /** `bitflags` union: the flags of either operand. */
  function Union(a: Byte, b: Byte): (r: Byte)
    ensures Elems(r) == Elems(a) + Elems(b)
  {
    UnionElems(a, b);
    a | b
  }

  lemma UnionElems(a: Byte, b: Byte)
    ensures Elems(a | b) == Elems(a) + Elems(b)
  {
    forall i: nat | i < 8
      ensures (i in Elems(a | b)) == (i in Elems(a) + Elems(b))
    {
    }
  }

  /** `bitflags` difference: the flags of `a` that are not in `b`. */
  function Difference(a: Byte, b: Byte): (r: Byte)
    ensures Elems(r) == Elems(a) - Elems(b)
  {
    DifferenceElems(a, b);
    a & !b
  }

  lemma DifferenceElems(a: Byte, b: Byte)
    ensures Elems(a & !b) == Elems(a) - Elems(b)
  {
    forall i: nat | i < 8
      ensures (i in Elems(a & !b)) == (i in Elems(a) - Elems(b))
    {
    }
  }

  /** `bitflags` intersection: the flags in both operands. */
  function Intersection(a: Byte, b: Byte): (r: Byte)
    ensures Elems(r) == Elems(a) * Elems(b)
  {
    IntersectionElems(a, b);
    a & b
  }

  lemma IntersectionElems(a: Byte, b: Byte)
    ensures Elems(a & b) == Elems(a) * Elems(b)
  {
    forall i: nat | i < 8
      ensures (i in Elems(a & b)) == (i in Elems(a) * Elems(b))
    {
    }
  }

  /** `bitflags` contains: every flag of `b` is in `a`. */
  predicate Contains(a: Byte, b: Byte)
    ensures Contains(a, b) <==> Elems(b) <= Elems(a)
  {
    ContainsElems(a, b);
    a & b == b
  }

  lemma ContainsElems(a: Byte, b: Byte)
    ensures a & b == b <==> Elems(b) <= Elems(a)
  {
    IntersectionElems(a, b);
    if Elems(b) <= Elems(a) {
      assert Elems(a & b) == Elems(b);
      Extensional(a & b, b);
    }
  }

  /** `bitflags` intersects: some flag is in both operands. */
  predicate Intersects(a: Byte, b: Byte)
    ensures Intersects(a, b) <==> Elems(a) * Elems(b) != {}
  {
    IntersectionElems(a, b);
    EmptyElems(a & b);
    a & b != 0
  }

  /** `bitflags` is_empty: no flag is set. */
  predicate IsEmpty(a: Byte)
    ensures IsEmpty(a) <==> Elems(a) == {}
  {
    EmptyElems(a);
    a == 0
  }

  lemma EmptyElems(a: Byte)
    ensures a == 0 <==> Elems(a) == {}
  {
    if Elems(a) == {} {
      assert Elems(a) == Elems(0);
      Extensional(a, 0);
    } else {
      var i :| i in Elems(a);
    }
  }

  /** `bitflags` set: insert the flags of `b` when `value`, remove them otherwise. */
  function Set(a: Byte, b: Byte, value: bool): (r: Byte)
    ensures Elems(r) == if value then Elems(a) + Elems(b) else Elems(a) - Elems(b)
  {
    if value then Union(a, b) else Difference(a, b)
  }

  /** `bitflags` complement (`!b`): the declared flags that are not in `b`. */
  function Complement(declared: Byte, b: Byte): (r: Byte)
    ensures Elems(r) == Elems(declared) - Elems(b)
  {
    Difference(declared, b)
  }

  /** `bitflags` from_bits_truncate: keep only the declared flags of `raw`. */
  function FromBitsTruncate(declared: Byte, raw: Byte): (r: Byte)
    ensures Elems(r) == Elems(raw) * Elems(declared)
  {
    Intersection(raw, declared)
  }
}
