/**
 * The SDS string header (sds.h): five packed header layouts that sit just
 * before the string bytes, told apart by the low three bits of the `flags`
 * byte.  The byte layout and the `s[-1]` pointer arithmetic are replaced by
 * a datatype with one variant per header struct; the getters and setters
 * dispatch on the type bits of `flags` as the inline functions do.
 */
module SdsHeader {

  type uint8 = x: int | 0 <= x < 0x100
  type uint16 = x: int | 0 <= x < 0x1_0000
  type uint32 = x: int | 0 <= x < 0x1_0000_0000
  type uint64 = x: int | 0 <= x < 0x1_0000_0000_0000_0000

  const SDS_TYPE_5: nat := 0
  const SDS_TYPE_8: nat := 1
  const SDS_TYPE_16: nat := 2
  const SDS_TYPE_32: nat := 3
  const SDS_TYPE_64: nat := 4
  const SDS_TYPE_MASK: nat := 7
  const SDS_TYPE_BITS: nat := 3

  /** One variant per header struct: sdshdr5 keeps only `flags`, the others
      keep `len` and `alloc` in fields of their own width. */
  datatype Header =
    | Hdr5(flags: uint8)
    | Hdr8(len8: uint8, alloc8: uint8, flags: uint8)
    | Hdr16(len16: uint16, alloc16: uint16, flags: uint8)
    | Hdr32(len32: uint32, alloc32: uint32, flags: uint8)
    | Hdr64(len64: uint64, alloc64: uint64, flags: uint8)

  /** `flags & SDS_TYPE_MASK`: the low three bits of the flags byte. */
  function SdsType(flags: uint8): (r: nat)
    ensures r <= SDS_TYPE_MASK
    ensures flags == 8 * (flags / 8) + r
  {
    flags % (SDS_TYPE_MASK + 1)
  }

  /** `SDS_TYPE_5_LEN(f)`, that is `f >> SDS_TYPE_BITS`. */
  function Type5Len(flags: uint8): (r: nat)
    ensures r < 32
    ensures flags == 8 * r + SdsType(flags)
  {
    flags / 8
  }

  /** The SDS_TYPE_* constant that names the struct a header was laid out as. */
  function Layout(h: Header): nat
  {
    match h
    case Hdr5(_) => SDS_TYPE_5
    case Hdr8(_, _, _) => SDS_TYPE_8
    case Hdr16(_, _, _) => SDS_TYPE_16
    case Hdr32(_, _, _) => SDS_TYPE_32
    case Hdr64(_, _, _) => SDS_TYPE_64
  }

  /** A header whose type bits name one of the five types was laid out as
      that struct; type bits 5..7 name no struct and no field is read. */
  predicate Consistent(h: Header)
  {
    SdsType(h.flags) <= SDS_TYPE_64 ==> SdsType(h.flags) == Layout(h)
  }

  /** The number of values the `len` field of this header type can hold
      (five bits for type 5); 1 for the unknown types, which have no field. */
  function LenLimit(h: Header): (r: nat)
    requires Consistent(h)
    ensures r >= 1
  {
    match SdsType(h.flags)
    case 0 => 32
    case 1 => 0x100
    case 2 => 0x1_0000
    case 3 => 0x1_0000_0000
    case 4 => 0x1_0000_0000_0000_0000
    case _ => 1
  }

  /** The length never exceeds the allocation (types 8..64); type 5 has no
      allocation field and a type 5 string is always full. */
  predicate LenWithinAlloc(h: Header)
  {
    match h
    case Hdr5(_) => true
    case Hdr8(len, alloc, _) => len <= alloc
    case Hdr16(len, alloc, _) => len <= alloc
    case Hdr32(len, alloc, _) => len <= alloc
    case Hdr64(len, alloc, _) => len <= alloc
  }

  /** Conversion of an integer to an unsigned type with `limit` values
      (C's modular conversion rule for unsigned targets). */
  function Wrap(x: int, limit: nat): (r: nat)
    requires limit > 0
    ensures r < limit
    ensures 0 <= x < limit ==> r == x
  {
    x % limit
  }

  /** sdslen */
  function SdsLen(h: Header): (r: nat)
    requires Consistent(h)
    ensures r < LenLimit(h)
    ensures SdsType(h.flags) == SDS_TYPE_5 ==> r == Type5Len(h.flags) && r <= 31
    ensures SdsType(h.flags) > SDS_TYPE_64 ==> r == 0
  {
    match SdsType(h.flags)
    case 0 => Type5Len(h.flags)
    case 1 => h.len8
    case 2 => h.len16
    case 3 => h.len32
    case 4 => h.len64
    case _ => 0
  }

  /** sdsalloc */
  function SdsAlloc(h: Header): (r: nat)
    requires Consistent(h)
    ensures r < LenLimit(h)
    ensures SdsType(h.flags) == SDS_TYPE_5 ==> r == SdsLen(h)
    ensures SdsType(h.flags) > SDS_TYPE_64 ==> r == 0
  {
    match SdsType(h.flags)
    case 0 => Type5Len(h.flags)
    case 1 => h.alloc8
    case 2 => h.alloc16
    case 3 => h.alloc32
    case 4 => h.alloc64
    case _ => 0
  }

  /** sdsavail: `alloc - len`, computed in `int` for the 8- and 16-bit
      fields (promoted) and in the field's own unsigned width for 32 and 64
      bits, then converted to the 64-bit `size_t` result. */
  function SdsAvail(h: Header): (r: uint64)
    requires Consistent(h)
    ensures LenWithinAlloc(h) ==> SdsAlloc(h) == r + SdsLen(h)
    ensures SdsType(h.flags) == SDS_TYPE_5 ==> r == 0
    ensures SdsType(h.flags) > SDS_TYPE_64 ==> r == 0
  {
    match SdsType(h.flags)
    case 0 => 0
    case 1 => Wrap(h.alloc8 - h.len8, 0x1_0000_0000_0000_0000)
    case 2 => Wrap(h.alloc16 - h.len16, 0x1_0000_0000_0000_0000)
    case 3 => Wrap(h.alloc32 - h.len32, 0x1_0000_0000)
    case 4 => Wrap(h.alloc64 - h.len64, 0x1_0000_0000_0000_0000)
    case _ => 0
  }

  /** The flags byte a type 5 string of length `n` gets:
      `SDS_TYPE_5 | (n << SDS_TYPE_BITS)` truncated to an unsigned char.
      The shifted value has its three low bits clear, so the `|` is a sum. */
  function Type5Flags(n: nat): (f: uint8)
    ensures SdsType(f) == SDS_TYPE_5
    ensures Type5Len(f) == Wrap(n, 32)
  {
    ShiftIntoByte(n);
    SDS_TYPE_5 + (n * 8) % 0x100
  }

  /** Shifting left by three bits and keeping a byte keeps the five low
      bits of `n`. */
  lemma ShiftIntoByte(n: nat)
    ensures (n * 8) % 0x100 == 8 * (n % 32)
  {
    var q, m := n / 32, n % 32;
    assert n * 8 == 0x100 * q + 8 * m;
  }

  /** The header after sdssetlen(s, newlen): the `len` field of the header's
      width receives `newlen` truncated to that width. */
  function WithLen(h: Header, newlen: uint64): (r: Header)
    requires Consistent(h)
    ensures Consistent(r) && Layout(r) == Layout(h)
    ensures SdsType(r.flags) == SdsType(h.flags)
    ensures SdsType(h.flags) <= SDS_TYPE_64 ==> SdsLen(r) == Wrap(newlen, LenLimit(h))
    ensures newlen < LenLimit(h) ==> SdsLen(r) == newlen
    ensures SDS_TYPE_8 <= SdsType(h.flags) <= SDS_TYPE_64 ==> SdsAlloc(r) == SdsAlloc(h) && r.flags == h.flags
    ensures SdsType(h.flags) > SDS_TYPE_64 ==> r == h
  {
    match SdsType(h.flags)
    case 0 => Hdr5(Type5Flags(newlen))
    case 1 => h.(len8 := Wrap(newlen, 0x100))
    case 2 => h.(len16 := Wrap(newlen, 0x1_0000))
    case 3 => h.(len32 := Wrap(newlen, 0x1_0000_0000))
    case 4 => h.(len64 := newlen)
    case _ => h
  }

  /** The header after sdsinclen(s, inc): `len += inc` in the field's width;
      for type 5 the sum is first stored in an unsigned char. */
  function WithIncLen(h: Header, inc: uint64): (r: Header)
    requires Consistent(h)
    ensures Consistent(r) && Layout(r) == Layout(h)
    ensures SdsType(r.flags) == SdsType(h.flags)
    ensures SdsType(h.flags) <= SDS_TYPE_64 ==> SdsLen(r) == Wrap(SdsLen(h) + inc, LenLimit(h))
    ensures SdsLen(h) + inc < LenLimit(h) ==> SdsLen(r) == SdsLen(h) + inc
    ensures SDS_TYPE_8 <= SdsType(h.flags) <= SDS_TYPE_64 ==> SdsAlloc(r) == SdsAlloc(h) && r.flags == h.flags
    ensures SdsType(h.flags) > SDS_TYPE_64 ==> r == h
  {
    match SdsType(h.flags)
    case 0 =>
      var newlen: uint8 := Wrap(Type5Len(h.flags) + inc, 0x100);
      Type5FlagsOfByte(Type5Len(h.flags) + inc);
      Hdr5(Type5Flags(newlen))
    case 1 => h.(len8 := Wrap(h.len8 + inc, 0x100))
    case 2 => h.(len16 := Wrap(h.len16 + inc, 0x1_0000))
    case 3 => h.(len32 := Wrap(h.len32 + inc, 0x1_0000_0000))
    case 4 => h.(len64 := Wrap(h.len64 + inc, 0x1_0000_0000_0000_0000))
    case _ => h
  }

  /** Truncating to a byte before keeping five bits keeps the same five bits. */
  lemma Type5FlagsOfByte(n: nat)
    ensures Wrap(Wrap(n, 0x100), 32) == Wrap(n, 32)
  {
    assert n == 0x100 * (n / 0x100) + n % 0x100;
    assert 0x100 * (n / 0x100) == 32 * (8 * (n / 0x100));
  }

  /** The header after sdssetalloc(s, newlen): type 5 has no allocation field
      and is left alone; the other types store `newlen` truncated to their
      width and keep their length. */
  function WithAlloc(h: Header, newlen: uint64): (r: Header)
    requires Consistent(h)
    ensures Consistent(r) && Layout(r) == Layout(h) && r.flags == h.flags
    ensures SdsLen(r) == SdsLen(h)
    ensures SDS_TYPE_8 <= SdsType(h.flags) <= SDS_TYPE_64 ==> SdsAlloc(r) == Wrap(newlen, LenLimit(h))
    ensures newlen < LenLimit(h) && SDS_TYPE_8 <= SdsType(h.flags) <= SDS_TYPE_64 ==> SdsAlloc(r) == newlen
    ensures SdsType(h.flags) == SDS_TYPE_5 || SdsType(h.flags) > SDS_TYPE_64 ==> r == h
  {
    match SdsType(h.flags)
    case 1 => h.(alloc8 := Wrap(newlen, 0x100))
    case 2 => h.(alloc16 := Wrap(newlen, 0x1_0000))
    case 3 => h.(alloc32 := Wrap(newlen, 0x1_0000_0000))
    case 4 => h.(alloc64 := newlen)
    case _ => h
  }

  /** An SDS string, seen through its header, which the setters overwrite
      in place. */
  class Sds {
    var hdr: Header

    ghost predicate Valid()
      reads this
    {
      Consistent(hdr)
    }

    constructor (h: Header)
      requires Consistent(h)
      ensures Valid() && hdr == h
    {
      hdr := h;
    }

    /** sdssetlen */
    method SetLen(newlen: uint64)
      requires Valid()
      modifies this
      ensures Valid() && hdr == WithLen(old(hdr), newlen)
    {
      hdr := WithLen(hdr, newlen);
    }

    /** sdsinclen */
    method IncLen(inc: uint64)
      requires Valid()
      modifies this
      ensures Valid() && hdr == WithIncLen(old(hdr), inc)
    {
      hdr := WithIncLen(hdr, inc);
    }

    /** sdssetalloc */
    method SetAlloc(newlen: uint64)
      requires Valid()
      modifies this
      ensures Valid() && hdr == WithAlloc(old(hdr), newlen)
    {
      hdr := WithAlloc(hdr, newlen);
    }
  }
}
