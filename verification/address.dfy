/** The address decoder: how a 32-bit address splits into block offset,
    set index and tag, and how the L2 inclusion path rebuilds a block
    address from a tag and a set index. A mask `(1 << w) - 1` keeps the
    low w bits, which for a natural number is the remainder modulo 2^w;
    a right shift by w is the quotient by 2^w. */
module Address {
  import opened Bits

  datatype Fields = Fields(offset: Word, index: Word, tag: Word)

  /** The fields of `addr` for blocks of 2^offsetBits bytes and 2^indexBits
      sets, by the masks and shifts of the C code: the offset is the low
      offset bits, the index the next index bits, the tag the rest. The
      offset and the index are in range. */
  function Decode(addr: Word, offsetBits: nat, indexBits: nat): (f: Fields)
    ensures f.offset < Pow2(offsetBits)
    ensures f.index < Pow2(indexBits)
  {
    Fields(Low(addr, offsetBits), Low(Shr(addr, offsetBits), indexBits), Shr(addr, offsetBits + indexBits))
  }

  /** The decoded fields as remainders and quotients by powers of two. */
  lemma DecodeDivMod(addr: Word, offsetBits: nat, indexBits: nat)
    ensures var f := Decode(addr, offsetBits, indexBits);
            && f.offset == addr % Pow2(offsetBits)
            && f.index == (addr / Pow2(offsetBits)) % Pow2(indexBits)
            && f.tag == addr / Pow2(offsetBits + indexBits)
  {
    LowIsMod(addr, offsetBits);
    ShrIsDiv(addr, offsetBits);
    LowIsMod(Shr(addr, offsetBits), indexBits);
    ShrIsDiv(addr, offsetBits + indexBits);
  }

  /** Put back together, the three fields are the address again. */
  lemma DecodeRecompose(addr: Word, offsetBits: nat, indexBits: nat)
    ensures var f := Decode(addr, offsetBits, indexBits);
            addr == (f.tag * Pow2(indexBits) + f.index) * Pow2(offsetBits) + f.offset
  {
    var f := Decode(addr, offsetBits, indexBits);
    DecodeDivMod(addr, offsetBits, indexBits);
    Pow2Add(offsetBits, indexBits);
    SplitFields(addr, Pow2(offsetBits), Pow2(indexBits), Pow2(offsetBits + indexBits), f.tag, f.index, f.offset);
  }

  /** Quotient and remainders by p, q and r == p * q put x back together. */
  lemma SplitFields(x: nat, p: nat, q: nat, r: nat, t: nat, i: nat, o: nat)
    requires p > 0 && q > 0 && r == p * q
    requires t == x / r && i == (x / p) % q && o == x % p
    ensures x == (t * q + i) * p + o
  {
    DivDiv(x, p, q);
    var a := x / p;
    assert a == t * q + i;
    assert x == a * p + o;
  }

  /** The tag of a 32-bit address fits in the bits above offset and index. */
  lemma DecodeTagBound(addr: Word, offsetBits: nat, indexBits: nat)
    requires offsetBits + indexBits <= 32
    ensures Decode(addr, offsetBits, indexBits).tag < Pow2(32 - offsetBits - indexBits)
  {
    var k := offsetBits + indexBits;
    DecodeDivMod(addr, offsetBits, indexBits);
    Pow2Word();
    Pow2Add(k, 32 - k);
    DivBelow(addr, Pow2(k), Pow2(32 - k));
  }

  /** Decoding is the inverse of composing in-range fields: any address
      written as tag, index and offset decodes to exactly those fields. */
  lemma DecodeUnique(addr: Word, offsetBits: nat, indexBits: nat, f: Fields)
    requires f.offset < Pow2(offsetBits) && f.index < Pow2(indexBits)
    requires addr == (f.tag * Pow2(indexBits) + f.index) * Pow2(offsetBits) + f.offset
    ensures Decode(addr, offsetBits, indexBits) == f
  {
    var p, q, r := Pow2(offsetBits), Pow2(indexBits), Pow2(offsetBits + indexBits);
    DecodeDivMod(addr, offsetBits, indexBits);
    Pow2Add(offsetBits, indexBits);
    UniqueSplit(addr, p, q, r, f.tag, f.index, f.offset);
  }

  lemma UniqueSplit(x: nat, p: nat, q: nat, r: nat, t: nat, i: nat, o: nat)
    requires p > 0 && q > 0 && r == p * q && o < p && i < q
    requires x == (t * q + i) * p + o
    ensures x % p == o && (x / p) % q == i && x / r == t
  {
    DivModUnique(x, p, t * q + i, o);
    DivModUnique(t * q + i, q, t, i);
    DivDiv(x, p, q);
  }

  /** `((tag << indexBits) + index) << offsetBits` in `uint32_t` arithmetic:
      the first address of the block with this tag in this set. */
  function BlockAddress(tag: Word, index: Word, offsetBits: nat, indexBits: nat): (a: Word)
  {
    Shl32(Add32(Shl32(tag, indexBits), index), offsetBits)
  }

  /** For a tag and index that came out of a 32-bit address, nothing wraps:
      the rebuilt address is the exact block base address. */
  lemma BlockAddressExact(tag: nat, index: nat, offsetBits: nat, indexBits: nat)
    requires offsetBits + indexBits <= 32
    requires tag < Pow2(32 - offsetBits - indexBits) && index < Pow2(indexBits)
    ensures tag < WORD && index < WORD
    ensures BlockAddress(tag, index, offsetBits, indexBits)
         == (tag * Pow2(indexBits) + index) * Pow2(offsetBits)
  {
    var q, p, t := Pow2(indexBits), Pow2(offsetBits), Pow2(32 - offsetBits - indexBits);
    WordSplit(offsetBits, indexBits);
    NoWrap(tag, index, p, q, t);
    Shl32IsMul(tag, indexBits);
    Shl32IsMul(Add32(Shl32(tag, indexBits), index), offsetBits);
  }

  /** 2^32 is 2^(32 - offsetBits - indexBits) * 2^indexBits * 2^offsetBits. */
  lemma WordSplit(offsetBits: nat, indexBits: nat)
    requires offsetBits + indexBits <= 32
    ensures (Pow2(32 - offsetBits - indexBits) * Pow2(indexBits)) * Pow2(offsetBits) == WORD
  {
    Pow2Word();
    Pow2Add(32 - offsetBits - indexBits, indexBits);
    Pow2Add(32 - offsetBits, offsetBits);
  }

  /** With tag < t, index < q and t * q * p == 2^32, the shifts and the sum
      that rebuild an address stay below 2^32, so none of them wraps. */
  lemma NoWrap(tag: nat, index: nat, p: nat, q: nat, t: nat)
    requires p >= 1 && q >= 1 && tag < t && index < q && (t * q) * p == WORD
    ensures tag < WORD && index < WORD
    ensures ((((tag * q) % WORD + index) % WORD) * p) % WORD == (tag * q + index) * p
  {
    MulLe(tag + 1, t, q);
    var hi := tag * q + index;
    assert hi < t * q;
    MulLe(hi + 1, t * q, p);
    MulLe(1, q, t);
    MulLe(1, p, t * q);
    assert (tag * q) % WORD == tag * q;
    assert (tag * q + index) % WORD == hi;
  }

  /** The rebuilt L2 block address decodes, under the same geometry, back
      to the tag and set index it was built from, at offset 0. */
  lemma BlockAddressRoundTrip(tag: nat, index: nat, offsetBits: nat, indexBits: nat)
    requires offsetBits + indexBits <= 32
    requires tag < Pow2(32 - offsetBits - indexBits) && index < Pow2(indexBits)
    ensures tag < WORD && index < WORD
    ensures Decode(BlockAddress(tag, index, offsetBits, indexBits), offsetBits, indexBits)
         == Fields(0, index, tag)
  {
    BlockAddressExact(tag, index, offsetBits, indexBits);
    DecodeUnique(BlockAddress(tag, index, offsetBits, indexBits), offsetBits, indexBits, Fields(0, index, tag));
  }

  /** Two addresses in the same block (equal above the offset bits) have
      the same set index and tag. */
  lemma DecodeSameBlock(a: Word, b: Word, offsetBits: nat, indexBits: nat)
    requires a / Pow2(offsetBits) == b / Pow2(offsetBits)
    ensures Decode(a, offsetBits, indexBits).index == Decode(b, offsetBits, indexBits).index
    ensures Decode(a, offsetBits, indexBits).tag == Decode(b, offsetBits, indexBits).tag
  {
    var p, q := Pow2(offsetBits), Pow2(indexBits);
    DecodeDivMod(a, offsetBits, indexBits);
    DecodeDivMod(b, offsetBits, indexBits);
    Pow2Add(offsetBits, indexBits);
    DivDiv(a, p, q);
    DivDiv(b, p, q);
  }

  /** The base address of an address's block, rebuilt under one index
      width, lies in the same block: it decodes to the same index and tag
      under any other index width. */
  lemma BaseInSameBlock(addr: Word, base: Word, offsetBits: nat, indexBits: nat, otherBits: nat)
    requires var f := Decode(addr, offsetBits, indexBits);
             base == (f.tag * Pow2(indexBits) + f.index) * Pow2(offsetBits)
    ensures Decode(base, offsetBits, otherBits).index == Decode(addr, offsetBits, otherBits).index
    ensures Decode(base, offsetBits, otherBits).tag == Decode(addr, offsetBits, otherBits).tag
  {
    var f := Decode(addr, offsetBits, indexBits);
    var p := Pow2(offsetBits);
    MulLe(0, f.tag, Pow2(indexBits));
    var k: nat := f.tag * Pow2(indexBits) + f.index;
    DecodeRecompose(addr, offsetBits, indexBits);
    DivModUnique(addr, p, k, f.offset);
    DivModUnique(base, p, k, 0);
    DecodeSameBlock(base, addr, offsetBits, otherBits);
  }
}
