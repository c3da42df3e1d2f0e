/**
 The uploader's checksum: a table-driven CRC-32 with the generator of RFC 1952, section 8, that starts
 from a given state and is not complemented at the end. It equals the bit-by-bit division, and it tells
 apart any two inputs that differ only within 32 consecutive bits.
 */
module Crc32 {
  import opened Sequences
  import opened ShiftRegister

  /** A 32-bit word as its four bytes, the highest first. */
  datatype Word32 = W(b3: bv8, b2: bv8, b1: bv8, b0: bv8)

  const ZERO := W(0, 0, 0, 0)
  const ONE := W(0, 0, 0, 1)

  /** The generator polynomial, reflected: the lowest bit holds the highest power below 32. */
  const POLYNOMIAL := W(0xed, 0xb8, 0x83, 0x20)

  /** The table, in rows of eight: the entry for index i is in row i / 8, column i % 8. */
  const CRCTAB: seq<seq<Word32>> := [
    [W(0x00, 0x00, 0x00, 0x00), W(0x77, 0x07, 0x30, 0x96), W(0xee, 0x0e, 0x61, 0x2c), W(0x99, 0x09, 0x51, 0xba),
     W(0x07, 0x6d, 0xc4, 0x19), W(0x70, 0x6a, 0xf4, 0x8f), W(0xe9, 0x63, 0xa5, 0x35), W(0x9e, 0x64, 0x95, 0xa3)],
    [W(0x0e, 0xdb, 0x88, 0x32), W(0x79, 0xdc, 0xb8, 0xa4), W(0xe0, 0xd5, 0xe9, 0x1e), W(0x97, 0xd2, 0xd9, 0x88),
     W(0x09, 0xb6, 0x4c, 0x2b), W(0x7e, 0xb1, 0x7c, 0xbd), W(0xe7, 0xb8, 0x2d, 0x07), W(0x90, 0xbf, 0x1d, 0x91)],
    [W(0x1d, 0xb7, 0x10, 0x64), W(0x6a, 0xb0, 0x20, 0xf2), W(0xf3, 0xb9, 0x71, 0x48), W(0x84, 0xbe, 0x41, 0xde),
     W(0x1a, 0xda, 0xd4, 0x7d), W(0x6d, 0xdd, 0xe4, 0xeb), W(0xf4, 0xd4, 0xb5, 0x51), W(0x83, 0xd3, 0x85, 0xc7)],
    [W(0x13, 0x6c, 0x98, 0x56), W(0x64, 0x6b, 0xa8, 0xc0), W(0xfd, 0x62, 0xf9, 0x7a), W(0x8a, 0x65, 0xc9, 0xec),
     W(0x14, 0x01, 0x5c, 0x4f), W(0x63, 0x06, 0x6c, 0xd9), W(0xfa, 0x0f, 0x3d, 0x63), W(0x8d, 0x08, 0x0d, 0xf5)],
    [W(0x3b, 0x6e, 0x20, 0xc8), W(0x4c, 0x69, 0x10, 0x5e), W(0xd5, 0x60, 0x41, 0xe4), W(0xa2, 0x67, 0x71, 0x72),
     W(0x3c, 0x03, 0xe4, 0xd1), W(0x4b, 0x04, 0xd4, 0x47), W(0xd2, 0x0d, 0x85, 0xfd), W(0xa5, 0x0a, 0xb5, 0x6b)],
    [W(0x35, 0xb5, 0xa8, 0xfa), W(0x42, 0xb2, 0x98, 0x6c), W(0xdb, 0xbb, 0xc9, 0xd6), W(0xac, 0xbc, 0xf9, 0x40),
     W(0x32, 0xd8, 0x6c, 0xe3), W(0x45, 0xdf, 0x5c, 0x75), W(0xdc, 0xd6, 0x0d, 0xcf), W(0xab, 0xd1, 0x3d, 0x59)],
    [W(0x26, 0xd9, 0x30, 0xac), W(0x51, 0xde, 0x00, 0x3a), W(0xc8, 0xd7, 0x51, 0x80), W(0xbf, 0xd0, 0x61, 0x16),
     W(0x21, 0xb4, 0xf4, 0xb5), W(0x56, 0xb3, 0xc4, 0x23), W(0xcf, 0xba, 0x95, 0x99), W(0xb8, 0xbd, 0xa5, 0x0f)],
    [W(0x28, 0x02, 0xb8, 0x9e), W(0x5f, 0x05, 0x88, 0x08), W(0xc6, 0x0c, 0xd9, 0xb2), W(0xb1, 0x0b, 0xe9, 0x24),
     W(0x2f, 0x6f, 0x7c, 0x87), W(0x58, 0x68, 0x4c, 0x11), W(0xc1, 0x61, 0x1d, 0xab), W(0xb6, 0x66, 0x2d, 0x3d)],
    [W(0x76, 0xdc, 0x41, 0x90), W(0x01, 0xdb, 0x71, 0x06), W(0x98, 0xd2, 0x20, 0xbc), W(0xef, 0xd5, 0x10, 0x2a),
     W(0x71, 0xb1, 0x85, 0x89), W(0x06, 0xb6, 0xb5, 0x1f), W(0x9f, 0xbf, 0xe4, 0xa5), W(0xe8, 0xb8, 0xd4, 0x33)],
    [W(0x78, 0x07, 0xc9, 0xa2), W(0x0f, 0x00, 0xf9, 0x34), W(0x96, 0x09, 0xa8, 0x8e), W(0xe1, 0x0e, 0x98, 0x18),
     W(0x7f, 0x6a, 0x0d, 0xbb), W(0x08, 0x6d, 0x3d, 0x2d), W(0x91, 0x64, 0x6c, 0x97), W(0xe6, 0x63, 0x5c, 0x01)],
    [W(0x6b, 0x6b, 0x51, 0xf4), W(0x1c, 0x6c, 0x61, 0x62), W(0x85, 0x65, 0x30, 0xd8), W(0xf2, 0x62, 0x00, 0x4e),
     W(0x6c, 0x06, 0x95, 0xed), W(0x1b, 0x01, 0xa5, 0x7b), W(0x82, 0x08, 0xf4, 0xc1), W(0xf5, 0x0f, 0xc4, 0x57)],
    [W(0x65, 0xb0, 0xd9, 0xc6), W(0x12, 0xb7, 0xe9, 0x50), W(0x8b, 0xbe, 0xb8, 0xea), W(0xfc, 0xb9, 0x88, 0x7c),
     W(0x62, 0xdd, 0x1d, 0xdf), W(0x15, 0xda, 0x2d, 0x49), W(0x8c, 0xd3, 0x7c, 0xf3), W(0xfb, 0xd4, 0x4c, 0x65)],
    [W(0x4d, 0xb2, 0x61, 0x58), W(0x3a, 0xb5, 0x51, 0xce), W(0xa3, 0xbc, 0x00, 0x74), W(0xd4, 0xbb, 0x30, 0xe2),
     W(0x4a, 0xdf, 0xa5, 0x41), W(0x3d, 0xd8, 0x95, 0xd7), W(0xa4, 0xd1, 0xc4, 0x6d), W(0xd3, 0xd6, 0xf4, 0xfb)],
    [W(0x43, 0x69, 0xe9, 0x6a), W(0x34, 0x6e, 0xd9, 0xfc), W(0xad, 0x67, 0x88, 0x46), W(0xda, 0x60, 0xb8, 0xd0),
     W(0x44, 0x04, 0x2d, 0x73), W(0x33, 0x03, 0x1d, 0xe5), W(0xaa, 0x0a, 0x4c, 0x5f), W(0xdd, 0x0d, 0x7c, 0xc9)],
    [W(0x50, 0x05, 0x71, 0x3c), W(0x27, 0x02, 0x41, 0xaa), W(0xbe, 0x0b, 0x10, 0x10), W(0xc9, 0x0c, 0x20, 0x86),
     W(0x57, 0x68, 0xb5, 0x25), W(0x20, 0x6f, 0x85, 0xb3), W(0xb9, 0x66, 0xd4, 0x09), W(0xce, 0x61, 0xe4, 0x9f)],
    [W(0x5e, 0xde, 0xf9, 0x0e), W(0x29, 0xd9, 0xc9, 0x98), W(0xb0, 0xd0, 0x98, 0x22), W(0xc7, 0xd7, 0xa8, 0xb4),
     W(0x59, 0xb3, 0x3d, 0x17), W(0x2e, 0xb4, 0x0d, 0x81), W(0xb7, 0xbd, 0x5c, 0x3b), W(0xc0, 0xba, 0x6c, 0xad)],
    [W(0xed, 0xb8, 0x83, 0x20), W(0x9a, 0xbf, 0xb3, 0xb6), W(0x03, 0xb6, 0xe2, 0x0c), W(0x74, 0xb1, 0xd2, 0x9a),
     W(0xea, 0xd5, 0x47, 0x39), W(0x9d, 0xd2, 0x77, 0xaf), W(0x04, 0xdb, 0x26, 0x15), W(0x73, 0xdc, 0x16, 0x83)],
    [W(0xe3, 0x63, 0x0b, 0x12), W(0x94, 0x64, 0x3b, 0x84), W(0x0d, 0x6d, 0x6a, 0x3e), W(0x7a, 0x6a, 0x5a, 0xa8),
     W(0xe4, 0x0e, 0xcf, 0x0b), W(0x93, 0x09, 0xff, 0x9d), W(0x0a, 0x00, 0xae, 0x27), W(0x7d, 0x07, 0x9e, 0xb1)],
    [W(0xf0, 0x0f, 0x93, 0x44), W(0x87, 0x08, 0xa3, 0xd2), W(0x1e, 0x01, 0xf2, 0x68), W(0x69, 0x06, 0xc2, 0xfe),
     W(0xf7, 0x62, 0x57, 0x5d), W(0x80, 0x65, 0x67, 0xcb), W(0x19, 0x6c, 0x36, 0x71), W(0x6e, 0x6b, 0x06, 0xe7)],
    [W(0xfe, 0xd4, 0x1b, 0x76), W(0x89, 0xd3, 0x2b, 0xe0), W(0x10, 0xda, 0x7a, 0x5a), W(0x67, 0xdd, 0x4a, 0xcc),
     W(0xf9, 0xb9, 0xdf, 0x6f), W(0x8e, 0xbe, 0xef, 0xf9), W(0x17, 0xb7, 0xbe, 0x43), W(0x60, 0xb0, 0x8e, 0xd5)],
    [W(0xd6, 0xd6, 0xa3, 0xe8), W(0xa1, 0xd1, 0x93, 0x7e), W(0x38, 0xd8, 0xc2, 0xc4), W(0x4f, 0xdf, 0xf2, 0x52),
     W(0xd1, 0xbb, 0x67, 0xf1), W(0xa6, 0xbc, 0x57, 0x67), W(0x3f, 0xb5, 0x06, 0xdd), W(0x48, 0xb2, 0x36, 0x4b)],
    [W(0xd8, 0x0d, 0x2b, 0xda), W(0xaf, 0x0a, 0x1b, 0x4c), W(0x36, 0x03, 0x4a, 0xf6), W(0x41, 0x04, 0x7a, 0x60),
     W(0xdf, 0x60, 0xef, 0xc3), W(0xa8, 0x67, 0xdf, 0x55), W(0x31, 0x6e, 0x8e, 0xef), W(0x46, 0x69, 0xbe, 0x79)],
    [W(0xcb, 0x61, 0xb3, 0x8c), W(0xbc, 0x66, 0x83, 0x1a), W(0x25, 0x6f, 0xd2, 0xa0), W(0x52, 0x68, 0xe2, 0x36),
     W(0xcc, 0x0c, 0x77, 0x95), W(0xbb, 0x0b, 0x47, 0x03), W(0x22, 0x02, 0x16, 0xb9), W(0x55, 0x05, 0x26, 0x2f)],
    [W(0xc5, 0xba, 0x3b, 0xbe), W(0xb2, 0xbd, 0x0b, 0x28), W(0x2b, 0xb4, 0x5a, 0x92), W(0x5c, 0xb3, 0x6a, 0x04),
     W(0xc2, 0xd7, 0xff, 0xa7), W(0xb5, 0xd0, 0xcf, 0x31), W(0x2c, 0xd9, 0x9e, 0x8b), W(0x5b, 0xde, 0xae, 0x1d)],
    [W(0x9b, 0x64, 0xc2, 0xb0), W(0xec, 0x63, 0xf2, 0x26), W(0x75, 0x6a, 0xa3, 0x9c), W(0x02, 0x6d, 0x93, 0x0a),
     W(0x9c, 0x09, 0x06, 0xa9), W(0xeb, 0x0e, 0x36, 0x3f), W(0x72, 0x07, 0x67, 0x85), W(0x05, 0x00, 0x57, 0x13)],
    [W(0x95, 0xbf, 0x4a, 0x82), W(0xe2, 0xb8, 0x7a, 0x14), W(0x7b, 0xb1, 0x2b, 0xae), W(0x0c, 0xb6, 0x1b, 0x38),
     W(0x92, 0xd2, 0x8e, 0x9b), W(0xe5, 0xd5, 0xbe, 0x0d), W(0x7c, 0xdc, 0xef, 0xb7), W(0x0b, 0xdb, 0xdf, 0x21)],
    [W(0x86, 0xd3, 0xd2, 0xd4), W(0xf1, 0xd4, 0xe2, 0x42), W(0x68, 0xdd, 0xb3, 0xf8), W(0x1f, 0xda, 0x83, 0x6e),
     W(0x81, 0xbe, 0x16, 0xcd), W(0xf6, 0xb9, 0x26, 0x5b), W(0x6f, 0xb0, 0x77, 0xe1), W(0x18, 0xb7, 0x47, 0x77)],
    [W(0x88, 0x08, 0x5a, 0xe6), W(0xff, 0x0f, 0x6a, 0x70), W(0x66, 0x06, 0x3b, 0xca), W(0x11, 0x01, 0x0b, 0x5c),
     W(0x8f, 0x65, 0x9e, 0xff), W(0xf8, 0x62, 0xae, 0x69), W(0x61, 0x6b, 0xff, 0xd3), W(0x16, 0x6c, 0xcf, 0x45)],
    [W(0xa0, 0x0a, 0xe2, 0x78), W(0xd7, 0x0d, 0xd2, 0xee), W(0x4e, 0x04, 0x83, 0x54), W(0x39, 0x03, 0xb3, 0xc2),
     W(0xa7, 0x67, 0x26, 0x61), W(0xd0, 0x60, 0x16, 0xf7), W(0x49, 0x69, 0x47, 0x4d), W(0x3e, 0x6e, 0x77, 0xdb)],
    [W(0xae, 0xd1, 0x6a, 0x4a), W(0xd9, 0xd6, 0x5a, 0xdc), W(0x40, 0xdf, 0x0b, 0x66), W(0x37, 0xd8, 0x3b, 0xf0),
     W(0xa9, 0xbc, 0xae, 0x53), W(0xde, 0xbb, 0x9e, 0xc5), W(0x47, 0xb2, 0xcf, 0x7f), W(0x30, 0xb5, 0xff, 0xe9)],
    [W(0xbd, 0xbd, 0xf2, 0x1c), W(0xca, 0xba, 0xc2, 0x8a), W(0x53, 0xb3, 0x93, 0x30), W(0x24, 0xb4, 0xa3, 0xa6),
     W(0xba, 0xd0, 0x36, 0x05), W(0xcd, 0xd7, 0x06, 0x93), W(0x54, 0xde, 0x57, 0x29), W(0x23, 0xd9, 0x67, 0xbf)],
    [W(0xb3, 0x66, 0x7a, 0x2e), W(0xc4, 0x61, 0x4a, 0xb8), W(0x5d, 0x68, 0x1b, 0x02), W(0x2a, 0x6f, 0x2b, 0x94),
     W(0xb4, 0x0b, 0xbe, 0x37), W(0xc3, 0x0c, 0x8e, 0xa1), W(0x5a, 0x05, 0xdf, 0x1b), W(0x2d, 0x02, 0xef, 0x8d)]]

  function FromByte(b: bv8): Word32 {
    W(0, 0, 0, b)
  }

  /** Exclusive or. */
  function Add(x: Word32, y: Word32): Word32 {
    W(x.b3 ^ y.b3, x.b2 ^ y.b2, x.b1 ^ y.b1, x.b0 ^ y.b0)
  }

  /** `x >> 8`. */
  function DownByte(x: Word32): Word32 {
    W(0, x.b3, x.b2, x.b1)
  }

  /** `crctab[index]`. */
  function CrcTab(index: bv8): Word32 {
    TableShape((index >> 3) as nat);
    CRCTAB[(index >> 3) as nat][(index & 7) as nat]
  }

  lemma TableShape(r: nat)
    requires r < 32
    ensures |CRCTAB| == 32 && |CRCTAB[r]| == 8
  {
  }

  /** One byte of `__crc32`: the index is the low byte of the state plus the byte. */
  function CrcStep(state: Word32, b: bv8): Word32 {
    Add(CrcTab(Add(state, FromByte(b)).b0), DownByte(state))
  }

  /** `__crc32`, from a given state. */
  function CrcBytes(bytes: seq<bv8>, state: Word32): Word32 {
    if bytes == [] then state else CrcBytes(bytes[1..], CrcStep(state, bytes[0]))
  }

  // ---------- the reference: division bit by bit ----------

  predicate Odd(x: Word32) {
    x.b0 & 1 == 1
  }

  /** `x >> 1`. */
  function Down(x: Word32): Word32 {
    W(x.b3 >> 1, (x.b2 >> 1) | (x.b3 << 7), (x.b1 >> 1) | (x.b2 << 7), (x.b0 >> 1) | (x.b1 << 7))
  }

  /** `x << 1`, within 32 bits. */
  function Up(x: Word32): Word32 {
    W((x.b3 << 1) | (x.b2 >> 7), (x.b2 << 1) | (x.b1 >> 7), (x.b1 << 1) | (x.b0 >> 7), x.b0 << 1)
  }

  /** One step of the division: shift out the lowest bit and subtract the generator if it was set. */
  function BitStep(x: Word32): Word32 {
    if Odd(x) then Add(Down(x), POLYNOMIAL) else Down(x)
  }

  /** The lowest n places. */
  function Mask(n: nat): Word32 {
    if n == 0 then ZERO else Add(Up(Mask(n - 1)), ONE)
  }

  predicate Within(x: Word32, m: Word32) {
    x.b3 | m.b3 == m.b3 && x.b2 | m.b2 == m.b2 && x.b1 | m.b1 == m.b1 && x.b0 | m.b0 == m.b0
  }

  predicate Fits(x: Word32, n: nat) {
    Within(x, Mask(n))
  }

  /** The register that divides by the generator: adding is exclusive or, stepping is one step of the division. */
  const DIVIDER: Register<Word32> := Register(32, ZERO, ONE, Add, Up, BitStep, Fits)

  /** The division of a bit string, one bit at a time, from a given state. */
  function CrcBits(bits: seq<bool>, state: Word32): Word32 {
    Feed(DIVIDER, bits, state)
  }

  /** The bits of a byte, lowest first. */
  function ByteBits(b: bv8): (bits: seq<bool>)
    ensures |bits| == 8
  {
    [b & 1 == 1, b & 2 == 2, b & 4 == 4, b & 8 == 8, b & 16 == 16, b & 32 == 32, b & 64 == 64, b & 128 == 128]
  }

  function Bits(bytes: seq<bv8>): seq<bool> {
    if bytes == [] then [] else ByteBits(bytes[0]) + Bits(bytes[1..])
  }

  function EightSteps(x: Word32): Word32 {
    BitStep(BitStep(BitStep(BitStep(BitStep(BitStep(BitStep(BitStep(x))))))))
  }

  // ---------- the divider obeys the laws of a shift register ----------

  lemma AddCommutes(x: Word32, y: Word32)
    ensures Add(x, y) == Add(y, x)
  {
  }

  lemma HighBytesAssociate(x: Word32, y: Word32, z: Word32)
    ensures var l, r := Add(Add(x, y), z), Add(x, Add(y, z)); l.b3 == r.b3 && l.b2 == r.b2
  {
  }

  lemma LowBytesAssociate(x: Word32, y: Word32, z: Word32)
    ensures var l, r := Add(Add(x, y), z), Add(x, Add(y, z)); l.b1 == r.b1 && l.b0 == r.b0
  {
  }

  lemma AddAssociates(x: Word32, y: Word32, z: Word32)
    ensures Add(Add(x, y), z) == Add(x, Add(y, z))
  {
    HighBytesAssociate(x, y, z);
    LowBytesAssociate(x, y, z);
  }

  lemma AddCancels(x: Word32)
    ensures Add(x, x) == ZERO && Add(x, ZERO) == x
  {
  }

  lemma DividerAdds(x: Word32, y: Word32, z: Word32)
    ensures DIVIDER.Addition(x, y, z)
  {
    AddCommutes(x, y);
    AddAssociates(x, y, z);
    AddCancels(x);
  }

  lemma DownLinear(x: Word32, y: Word32)
    ensures Down(Add(x, y)) == Add(Down(x), Down(y))
    ensures Odd(Add(x, y)) <==> Odd(x) != Odd(y)
  {
  }

  lemma AddRearranged(u: Word32, v: Word32, p: Word32)
    ensures Add(Add(u, v), p) == Add(Add(u, p), v)
    ensures Add(Add(u, v), p) == Add(u, Add(v, p))
    ensures Add(u, v) == Add(Add(u, p), Add(v, p))
  {
    AddAssociates(u, v, p);
    AddCommutes(v, p);
    AddAssociates(u, p, v);
    AddAssociates(u, p, Add(v, p));
    AddCommutes(p, Add(v, p));
    AddAssociates(v, p, p);
    AddCancels(p);
    AddCancels(v);
  }

  lemma BitStepLinear(x: Word32, y: Word32)
    ensures BitStep(Add(x, y)) == Add(BitStep(x), BitStep(y))
  {
    DownLinear(x, y);
    AddRearranged(Down(x), Down(y), POLYNOMIAL);
  }

  lemma BitStepInjective(x: Word32, y: Word32)
    requires BitStep(x) == BitStep(y)
    ensures x == y
  {
  }

  lemma UpThenStep(x: Word32)
    requires x.b3 & 0x80 == 0
    ensures BitStep(Up(x)) == x
  {
  }

  lemma PushWithin(v: Word32, m: Word32, b: bool)
    requires Within(v, m)
    ensures Within(DIVIDER.Push(v, b), Add(Up(m), ONE))
  {
  }

  lemma PushInjective(v: Word32, a: bool, w: Word32, b: bool)
    requires v.b3 & 0x80 == 0 && w.b3 & 0x80 == 0
    requires DIVIDER.Push(v, a) == DIVIDER.Push(w, b)
    ensures v == w && a == b
  {
  }

  lemma {:induction false} MaskGrows(n: nat)
    ensures Within(Mask(n), Mask(n + 1))
  {
    if n > 0 {
      MaskGrows(n - 1);
      PushWithin(Mask(n - 1), Mask(n), true);
    }
  }

  lemma WithinTransitive(x: Word32, y: Word32, z: Word32)
    requires Within(x, y) && Within(y, z)
    ensures Within(x, z)
  {
  }

  lemma {:induction false} MaskBelowTop(n: nat)
    requires n <= 31
    ensures Within(Mask(n), W(0x7f, 0xff, 0xff, 0xff))
    decreases 31 - n
  {
    if n == 31 {
      assert Mask(8) == W(0, 0, 0, 0xff);
      assert Mask(16) == W(0, 0, 0xff, 0xff);
      assert Mask(24) == W(0, 0xff, 0xff, 0xff);
      assert Mask(31) == W(0x7f, 0xff, 0xff, 0xff);
    } else {
      MaskBelowTop(n + 1);
      MaskGrows(n);
      WithinTransitive(Mask(n), Mask(n + 1), W(0x7f, 0xff, 0xff, 0xff));
    }
  }

  lemma FitsBelowTop(x: Word32, n: nat)
    requires n < 32 && Fits(x, n)
    ensures x.b3 & 0x80 == 0
  {
    MaskBelowTop(n);
    WithinTransitive(x, Mask(n), W(0x7f, 0xff, 0xff, 0xff));
  }

  lemma DividerPushFits(v: Word32, a: bool, n: nat)
    requires n < 32 && Fits(v, n)
    ensures Fits(DIVIDER.Push(v, a), n + 1)
  {
    PushWithin(v, Mask(n), a);
  }

  lemma DividerPushInjective(v: Word32, w: Word32, a: bool, b: bool, n: nat)
    requires n < 32 && Fits(v, n) && Fits(w, n) && DIVIDER.Push(v, a) == DIVIDER.Push(w, b)
    ensures v == w && a == b
  {
    FitsBelowTop(v, n);
    FitsBelowTop(w, n);
    PushInjective(v, a, w, b);
  }

  lemma DividerPushes(v: Word32, w: Word32, a: bool, b: bool, n: nat)
    ensures DIVIDER.Pushing(v, w, a, b, n)
  {
    if n < 32 && Fits(v, n) && Fits(w, n) {
      DividerPushFits(v, a, n);
      if DIVIDER.Push(v, a) == DIVIDER.Push(w, b) {
        DividerPushInjective(v, w, a, b, n);
      }
    }
  }

  lemma DividerSteps(x: Word32, y: Word32, n: nat)
    ensures DIVIDER.Stepping(x, y, n)
  {
    BitStepLinear(x, y);
    if BitStep(x) == BitStep(y) {
      BitStepInjective(x, y);
    }
    if n < 32 && Fits(x, n) {
      FitsBelowTop(x, n);
      UpThenStep(x);
    }
  }

  lemma DividerLawful()
    ensures Lawful(DIVIDER)
  {
    forall x, y, z ensures DIVIDER.Addition(x, y, z) { DividerAdds(x, y, z); }
    forall v, w, a, b, n ensures DIVIDER.Pushing(v, w, a, b, n) { DividerPushes(v, w, a, b, n); }
    forall x, y, n ensures DIVIDER.Stepping(x, y, n) { DividerSteps(x, y, n); }
    assert Fits(ZERO, 0);
  }

  // ---------- the table ----------

  const FIRST_ROW: seq<Word32> := [
    W(0x00, 0x00, 0x00, 0x00), W(0x77, 0x07, 0x30, 0x96), W(0xee, 0x0e, 0x61, 0x2c), W(0x99, 0x09, 0x51, 0xba),
    W(0x07, 0x6d, 0xc4, 0x19), W(0x70, 0x6a, 0xf4, 0x8f), W(0xe9, 0x63, 0xa5, 0x35), W(0x9e, 0x64, 0x95, 0xa3)]

  /** The row that starts at index h: its first entry is the remainder of h, the others that plus the first row. */
  predicate RowOk(h: bv8) {
    var r := (h >> 3) as nat;
    r < |CRCTAB| && |CRCTAB[r]| == 8 &&
    var x := CRCTAB[r][0];
    && x == EightSteps(FromByte(h))
    && CRCTAB[r] == [Add(x, FIRST_ROW[0]), Add(x, FIRST_ROW[1]), Add(x, FIRST_ROW[2]), Add(x, FIRST_ROW[3]),
                     Add(x, FIRST_ROW[4]), Add(x, FIRST_ROW[5]), Add(x, FIRST_ROW[6]), Add(x, FIRST_ROW[7])]
  }

  lemma Row0()
    ensures RowOk(0)
  {
  }

  lemma Row1()
    ensures RowOk(8)
  {
  }

  lemma Row2()
    ensures RowOk(16)
  {
  }

  lemma Row3()
    ensures RowOk(24)
  {
  }

  lemma Row4()
    ensures RowOk(32)
  {
  }

  lemma Row5()
    ensures RowOk(40)
  {
  }

  lemma Row6()
    ensures RowOk(48)
  {
  }

  lemma Row7()
    ensures RowOk(56)
  {
  }

  lemma Row8()
    ensures RowOk(64)
  {
  }

  lemma Row9()
    ensures RowOk(72)
  {
  }

  lemma Row10()
    ensures RowOk(80)
  {
  }

  lemma Row11()
    ensures RowOk(88)
  {
  }

  lemma Row12()
    ensures RowOk(96)
  {
  }

  lemma Row13()
    ensures RowOk(104)
  {
  }

  lemma Row14()
    ensures RowOk(112)
  {
  }

  lemma Row15()
    ensures RowOk(120)
  {
  }

  lemma Row16()
    ensures RowOk(128)
  {
  }

  lemma Row17()
    ensures RowOk(136)
  {
  }

  lemma Row18()
    ensures RowOk(144)
  {
  }

  lemma Row19()
    ensures RowOk(152)
  {
  }

  lemma Row20()
    ensures RowOk(160)
  {
  }

  lemma Row21()
    ensures RowOk(168)
  {
  }

  lemma Row22()
    ensures RowOk(176)
  {
  }

  lemma Row23()
    ensures RowOk(184)
  {
  }

  lemma Row24()
    ensures RowOk(192)
  {
  }

  lemma Row25()
    ensures RowOk(200)
  {
  }

  lemma Row26()
    ensures RowOk(208)
  {
  }

  lemma Row27()
    ensures RowOk(216)
  {
  }

  lemma Row28()
    ensures RowOk(224)
  {
  }

  lemma Row29()
    ensures RowOk(232)
  {
  }

  lemma Row30()
    ensures RowOk(240)
  {
  }

  lemma Row31()
    ensures RowOk(248)
  {
  }

  lemma Rows(h: bv8)
    requires h & 7 == 0
    ensures RowOk(h)
  {
    match h {
      case 0 => Row0();
      case 8 => Row1();
      case 16 => Row2();
      case 24 => Row3();
      case 32 => Row4();
      case 40 => Row5();
      case 48 => Row6();
      case 56 => Row7();
      case 64 => Row8();
      case 72 => Row9();
      case 80 => Row10();
      case 88 => Row11();
      case 96 => Row12();
      case 104 => Row13();
      case 112 => Row14();
      case 120 => Row15();
      case 128 => Row16();
      case 136 => Row17();
      case 144 => Row18();
      case 152 => Row19();
      case 160 => Row20();
      case 168 => Row21();
      case 176 => Row22();
      case 184 => Row23();
      case 192 => Row24();
      case 200 => Row25();
      case 208 => Row26();
      case 216 => Row27();
      case 224 => Row28();
      case 232 => Row29();
      case 240 => Row30();
      case 248 => Row31();
      case _ => assert false;
    }
  }

  lemma FirstRow(j: bv8)
    requires j < 8
    ensures FIRST_ROW[j as nat] == EightSteps(FromByte(j))
  {
    assert j == 0 || j == 1 || j == 2 || j == 3 || j == 4 || j == 5 || j == 6 || j == 7;
  }

  lemma EightStepsIsSteps(x: Word32, n: nat)
    requires n == 8
    ensures Steps(DIVIDER, x, n) == EightSteps(x)
  {
  }

  lemma StepsAddUp(x: Word32, y: Word32, n: nat)
    ensures Steps(DIVIDER, Add(x, y), n) == Add(Steps(DIVIDER, x, n), Steps(DIVIDER, y, n))
  {
    DividerLawful();
    StepsLinear(DIVIDER, x, y, n);
  }

  lemma SplitIndex(i: bv8)
    ensures (i & 0xf8) & 7 == 0 && (i & 0xf8) >> 3 == i >> 3 && i & 7 < 8
    ensures FromByte(i) == Add(FromByte(i & 0xf8), FromByte(i & 7))
  {
  }

  /** Every entry of the table is the remainder of its index. */
  lemma TableIsRemainders(i: bv8, n: nat)
    requires n == 8
    ensures CrcTab(i) == Steps(DIVIDER, FromByte(i), n)
  {
    var h, j := i & 0xf8, i & 7;
    SplitIndex(i);
    Rows(h);
    FirstRow(j);
    EightStepsIsSteps(FromByte(h), n);
    EightStepsIsSteps(FromByte(j), n);
    StepsAddUp(FromByte(h), FromByte(j), n);
    RowEntry(h, j);
  }

  lemma RowEntry(h: bv8, j: bv8)
    requires RowOk(h) && j < 8
    ensures CRCTAB[(h >> 3) as nat][j as nat] == Add(EightSteps(FromByte(h)), FIRST_ROW[j as nat])
  {
  }

  /** Eight steps on a word whose lowest byte is clear only shift it down by a byte. */
  lemma HighBytesShift(x: Word32, n: nat)
    requires n == 8 && x.b0 == 0
    ensures Steps(DIVIDER, x, n) == DownByte(x)
  {
  }

  lemma SplitWord(z: Word32)
    ensures Add(FromByte(z.b0), W(z.b3, z.b2, z.b1, 0)) == z
  {
  }

  /** Eight steps on a word are a table lookup of its lowest byte, added to the bytes above. */
  lemma ByteSteps(z: Word32, n: nat)
    requires n == 8
    ensures Steps(DIVIDER, z, n) == Add(CrcTab(z.b0), DownByte(z))
  {
    var high := W(z.b3, z.b2, z.b1, 0);
    SplitWord(z);
    StepsAddUp(FromByte(z.b0), high, n);
    HighBytesShift(high, n);
    TableIsRemainders(z.b0, n);
  }

  lemma AddByteAbove(state: Word32, b: bv8)
    ensures DownByte(Add(state, FromByte(b))) == DownByte(state)
  {
  }

  lemma CrcStepIsSteps(state: Word32, b: bv8, n: nat)
    requires n == 8
    ensures CrcStep(state, b) == Steps(DIVIDER, Add(state, FromByte(b)), n)
  {
    AddByteAbove(state, b);
    ByteSteps(Add(state, FromByte(b)), n);
  }

  /** The bits of b from place k on, as a number. */
  function From(b: bv8, k: nat): bv8
    requires k <= 8
  {
    if k == 0 then b else if k == 1 then b >> 1 else if k == 2 then b >> 2 else if k == 3 then b >> 3
    else if k == 4 then b >> 4 else if k == 5 then b >> 5 else if k == 6 then b >> 6
    else if k == 7 then b >> 7 else 0
  }

  lemma BitAt(b: bv8, k: nat)
    requires k < 8
    ensures From(b, k) == (From(b, k + 1) << 1) ^ (if ByteBits(b)[k] then 1 else 0)
    ensures From(b, k + 1) & 0x80 == 0
  {
    if k == 0 { } else if k == 1 { } else if k == 2 { } else if k == 3 { }
    else if k == 4 { } else if k == 5 { } else if k == 6 { } else { assert k == 7; }
  }

  lemma PackedStep(bits: seq<bool>, k: nat, v: bv8, v2: bv8)
    requires k < |bits| && Packed(DIVIDER, bits[k + 1..]) == FromByte(v)
    requires v & 0x80 == 0 && v2 == (v << 1) ^ (if bits[k] then 1 else 0)
    ensures Packed(DIVIDER, bits[k..]) == FromByte(v2)
  {
  }

  lemma {:induction false} PackedByteFrom(b: bv8, k: nat)
    requires k <= 8
    ensures Packed(DIVIDER, ByteBits(b)[k..]) == FromByte(From(b, k))
    decreases 8 - k
  {
    if k < 8 {
      PackedByteFrom(b, k + 1);
      BitAt(b, k);
      PackedStep(ByteBits(b), k, From(b, k + 1), From(b, k));
    }
  }

  lemma PackedByte(b: bv8)
    ensures Packed(DIVIDER, ByteBits(b)) == FromByte(b)
  {
    PackedByteFrom(b, 0);
    assert ByteBits(b)[0..] == ByteBits(b);
  }

  lemma CrcStepIsDivision(state: Word32, b: bv8)
    ensures CrcStep(state, b) == CrcBits(ByteBits(b), state)
  {
    DividerLawful();
    CrcStepIsSteps(state, b, |ByteBits(b)|);
    PackedByte(b);
    FeedIsSteps(DIVIDER, ByteBits(b), state);
  }

  /** The table-driven checksum is the bit-by-bit division, for every input and every start state. */
  lemma {:induction false} TableRefinesDivision(bytes: seq<bv8>, state: Word32)
    ensures CrcBytes(bytes, state) == CrcBits(Bits(bytes), state)
  {
    if bytes != [] {
      CrcStepIsDivision(state, bytes[0]);
      FeedConcat(DIVIDER, ByteBits(bytes[0]), Bits(bytes[1..]), state);
      TableRefinesDivision(bytes[1..], CrcStep(state, bytes[0]));
    }
  }

  // ---------- what the checksum detects ----------

  lemma {:induction false} CrcBytesConcat(a: seq<bv8>, b: seq<bv8>, state: Word32)
    ensures CrcBytes(a + b, state) == CrcBytes(b, CrcBytes(a, state))
  {
    if a == [] {
      assert a + b == b;
    } else {
      assert (a + b)[1..] == a[1..] + b;
      CrcBytesConcat(a[1..], b, CrcStep(state, a[0]));
    }
  }

  lemma {:induction false} BitsConcat(a: seq<bv8>, b: seq<bv8>)
    ensures Bits(a + b) == Bits(a) + Bits(b)
  {
    if a == [] {
      assert a + b == b;
    } else {
      assert (a + b)[1..] == a[1..] + b;
      BitsConcat(a[1..], b);
      ConcatAssociative(ByteBits(a[0]), Bits(a[1..]), Bits(b));
    }
  }

  lemma {:induction false} BitsLength(a: seq<bv8>)
    ensures |Bits(a)| == 8 * |a|
  {
    if a != [] {
      BitsLength(a[1..]);
    }
  }

  lemma ByteBitsInjective(a: bv8, b: bv8)
    requires ByteBits(a) == ByteBits(b)
    ensures a == b
  {
  }

  lemma {:induction false} BitsInjective(a: seq<bv8>, b: seq<bv8>)
    requires |a| == |b| && Bits(a) == Bits(b)
    ensures a == b
  {
    if a != [] {
      assert ByteBits(a[0]) == Bits(a)[..8] && ByteBits(b[0]) == Bits(b)[..8];
      ByteBitsInjective(a[0], b[0]);
      assert Bits(a[1..]) == Bits(a)[8..] && Bits(b[1..]) == Bits(b)[8..];
      BitsInjective(a[1..], b[1..]);
      assert a == [a[0]] + a[1..] && b == [b[0]] + b[1..];
    }
  }

  /** Contents x and y differ only at bit positions [k, l). */
  predicate DifferWithin(x: seq<bv8>, y: seq<bv8>, k: nat, l: nat) {
    && |x| == |y| && k <= l <= |Bits(x)| == |Bits(y)|
    && Bits(x)[..k] == Bits(y)[..k] && Bits(x)[l..] == Bits(y)[l..]
  }

  lemma ThreeParts<T>(s: seq<T>, k: nat, l: nat)
    requires k <= l <= |s|
    ensures s == s[..k] + s[k..l] + s[l..]
  {
  }

  /** Two contents that differ, but only within 32 consecutive bits, have different checksums. */
  lemma BurstChangesCrc(x: seq<bv8>, y: seq<bv8>, k: nat, l: nat, state: Word32)
    requires DifferWithin(x, y, k, l) && l - k <= 32 && x != y
    ensures CrcBytes(x, state) != CrcBytes(y, state)
  {
    var u, v := Bits(x), Bits(y);
    ThreeParts(u, k, l);
    ThreeParts(v, k, l);
    if u[k..l] == v[k..l] {
      BitsInjective(x, y);
    }
    DividerLawful();
    BurstDetected(DIVIDER, u[..k], u[k..l], v[k..l], u[l..], state);
    TableRefinesDivision(x, state);
    TableRefinesDivision(y, state);
  }

  /** In particular, contents that differ only within four consecutive bytes. */
  lemma FourByteErrorChangesCrc(before: seq<bv8>, x: seq<bv8>, y: seq<bv8>, after: seq<bv8>, state: Word32)
    requires |x| == |y| <= 4 && x != y
    ensures CrcBytes(before + x + after, state) != CrcBytes(before + y + after, state)
  {
    BitsConcat(before + x, after);
    BitsConcat(before, x);
    BitsConcat(before + y, after);
    BitsConcat(before, y);
    BitsLength(x);
    BitsLength(y);
    if Bits(x) == Bits(y) {
      BitsInjective(x, y);
    }
    DividerLawful();
    BurstDetected(DIVIDER, Bits(before), Bits(x), Bits(y), Bits(after), state);
    TableRefinesDivision(before + x + after, state);
    TableRefinesDivision(before + y + after, state);
  }

  lemma GeneratorFirst()
    ensures CrcStep(ZERO, 0x41) == W(0x01, 0xdb, 0x71, 0x06)
  {
    TableShape(8);
    assert CrcTab(0x41) == CRCTAB[8][1] == W(0x01, 0xdb, 0x71, 0x06);
  }

  lemma GeneratorSecond()
    ensures CrcStep(W(0x01, 0xdb, 0x71, 0x06), 0x06) == W(0x00, 0x01, 0xdb, 0x71)
  {
  }

  lemma GeneratorThird()
    ensures CrcStep(W(0x00, 0x01, 0xdb, 0x71), 0x71) == W(0x00, 0x00, 0x01, 0xdb)
  {
  }

  lemma GeneratorFourth()
    ensures CrcStep(W(0x00, 0x00, 0x01, 0xdb), 0xdb) == W(0x00, 0x00, 0x00, 0x01)
  {
  }

  lemma GeneratorFifth()
    ensures CrcStep(W(0x00, 0x00, 0x00, 0x01), 0x01) == ZERO
  {
  }

  lemma GeneratorZero()
    ensures CrcStep(ZERO, 0x00) == ZERO
  {
  }

  /** States s, s1, ... reached one byte at a time. */
  lemma CrcOfFive(x: seq<bv8>, s: Word32, s1: Word32, s2: Word32, s3: Word32, s4: Word32, s5: Word32)
    requires |x| == 5
    requires CrcStep(s, x[0]) == s1 && CrcStep(s1, x[1]) == s2 && CrcStep(s2, x[2]) == s3
    requires CrcStep(s3, x[3]) == s4 && CrcStep(s4, x[4]) == s5
    ensures CrcBytes(x, s) == s5
  {
    CrcFrom(x, 0, s);
    CrcFrom(x, 1, s1);
    CrcFrom(x, 2, s2);
    CrcFrom(x, 3, s3);
    CrcFrom(x, 4, s4);
    assert x[0..] == x && x[5..] == [];
  }

  lemma CrcFrom(x: seq<bv8>, k: nat, s: Word32)
    requires k < |x|
    ensures CrcBytes(x[k..], s) == CrcBytes(x[k + 1..], CrcStep(s, x[k]))
  {
  }

  /** The generator, as the bytes it fills and the bits it has. */
  const GENERATOR_BYTES: seq<bv8> := [0x41, 0x06, 0x71, 0xdb, 0x01]

  function GeneratorBits(): (g: seq<bool>)
    ensures |g| == 33
  {
    BitsLength(GENERATOR_BYTES);
    Bits(GENERATOR_BYTES)[..33]
  }

  lemma GeneratorBytesVanish()
    ensures CrcBytes(GENERATOR_BYTES, ZERO) == ZERO
  {
    GeneratorFirst();
    GeneratorSecond();
    GeneratorThird();
    GeneratorFourth();
    GeneratorFifth();
    CrcOfFive(GENERATOR_BYTES, ZERO, W(0x01, 0xdb, 0x71, 0x06), W(0x00, 0x01, 0xdb, 0x71),
              W(0x00, 0x00, 0x01, 0xdb), W(0x00, 0x00, 0x00, 0x01), ZERO);
  }

  lemma LastByteOfGenerator()
    ensures Bits(GENERATOR_BYTES) == GeneratorBits() + NoBits(7) && GeneratorBits()[0]
  {
    var all := Bits(GENERATOR_BYTES);
    var four, last: seq<bv8> := GENERATOR_BYTES[..4], [0x01];
    BitsLength(GENERATOR_BYTES);
    BitsLength(four);
    BitsConcat(four, last);
    assert GENERATOR_BYTES == four + last;
    assert Bits(last) == ByteBits(0x01) + Bits([]);
    assert all[32..] == ByteBits(0x01);
    assert forall i :: 33 <= i < 40 ==> all[i] == all[32..][i - 32];
    assert all[0] == ByteBits(0x41)[0];
  }

  /** The 33 bits of the divider's polynomial leave no remainder. */
  lemma GeneratorVanishes()
    ensures Generator(DIVIDER, GeneratorBits())
  {
    var g := GeneratorBits();
    DividerLawful();
    GeneratorBytesVanish();
    TableRefinesDivision(GENERATOR_BYTES, ZERO);
    LastByteOfGenerator();
    FeedConcat(DIVIDER, g, NoBits(7), ZERO);
    FeedNothing(DIVIDER, 7);
    FeedInjective(DIVIDER, NoBits(7), Feed(DIVIDER, g, ZERO), ZERO);
  }

  /**
   The bound is tight, and everywhere: contents that differ only within 33 consecutive bits have the same checksum
   exactly if they are equal or their difference is the generator, wherever it lies and whatever the rest.
   */
  lemma BurstOf33Undetected(x: seq<bv8>, y: seq<bv8>, k: nat, state: Word32)
    requires DifferWithin(x, y, k, k + 33)
    ensures CrcBytes(x, state) == CrcBytes(y, state)
       <==> x == y || Difference(Bits(x)[k..k + 33], Bits(y)[k..k + 33]) == GeneratorBits()
  {
    var u, v, l := Bits(x), Bits(y), k + 33;
    ThreeParts(u, k, l);
    ThreeParts(v, k, l);
    if u[k..l] == v[k..l] {
      BitsInjective(x, y);
    }
    DividerLawful();
    GeneratorVanishes();
    WiderBurst(DIVIDER, GeneratorBits(), u[..k], u[k..l], v[k..l], u[l..], state);
    TableRefinesDivision(x, state);
    TableRefinesDivision(y, state);
  }
}
