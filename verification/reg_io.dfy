/** The register binding of the `register!` macro.

    A bitflags register is read with `RegRead::from_data`, which keeps only the
    bits the register declares (`from_bits_truncate`), and written with
    `RegWrite::data`, which sends the raw bits. A read-only ("type") register
    has no write side: its `from_data` builds a value of another type, and
    those decoders live with their output types in `Types`. */
module RegIo {
  import opened Bits

  /** A register value that sets no bit outside the declared ones. */
  predicate Valid(declared: Byte, v: Byte) {
    v & !declared == 0
  }

  lemma ValidElems(declared: Byte, v: Byte)
    ensures Valid(declared, v) <==> Elems(v) <= Elems(declared)
  {
    DifferenceElems(v, declared);
    EmptyElems(v & !declared);
  }

  /** `RegRead::from_data` of a bitflags register. */
  function FromData(declared: Byte, data: Byte): (r: Byte)
    ensures Valid(declared, r)
    ensures Elems(r) == Elems(data) * Elems(declared)
  {
    var r := FromBitsTruncate(declared, data);
    ValidElems(declared, r);
    r
  }

  /** `RegWrite::data`: the bits put on the bus. */
  function Data(v: Byte): Byte {
    v
  }

  /** Writing a valid value and reading it back gives the same value. */
  lemma DataRoundTrip(declared: Byte, v: Byte)
    requires Valid(declared, v)
    ensures FromData(declared, Data(v)) == v
  {
    ValidElems(declared, v);
    Extensional(FromData(declared, Data(v)), v);
  }

  /** Decoding then encoding keeps exactly the declared bits of the input:
      undeclared bits are dropped and no bit is invented. */
  lemma DataOfFromData(declared: Byte, b: Byte)
    ensures Data(FromData(declared, b)) == b & declared
    ensures Elems(Data(FromData(declared, b))) <= Elems(b)
  {
    IntersectionElems(b, declared);
    Extensional(FromData(declared, b), b & declared);
  }

  /** Decoding is a projection: decoding a decoded value changes nothing. */
  lemma FromDataIdempotent(declared: Byte, b: Byte)
    ensures FromData(declared, Data(FromData(declared, b))) == FromData(declared, b)
  {
    DataRoundTrip(declared, FromData(declared, b));
  }
}
