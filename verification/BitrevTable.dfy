/**
 The byte-reversal table of the KCF tracker and the 32-bit reversal built from four look-ups.
 */
module BitrevTable {
  import opened Arithmetic
  import opened MixedRadix

  /** The table as the source lays it out: sixteen rows of sixteen entries. */
  const BITREV_ROWS: seq<seq<nat>> := [
    [0x00, 0x80, 0x40, 0xc0, 0x20, 0xa0, 0x60, 0xe0, 0x10, 0x90, 0x50, 0xd0, 0x30, 0xb0, 0x70, 0xf0],
    [0x08, 0x88, 0x48, 0xc8, 0x28, 0xa8, 0x68, 0xe8, 0x18, 0x98, 0x58, 0xd8, 0x38, 0xb8, 0x78, 0xf8],
    [0x04, 0x84, 0x44, 0xc4, 0x24, 0xa4, 0x64, 0xe4, 0x14, 0x94, 0x54, 0xd4, 0x34, 0xb4, 0x74, 0xf4],
    [0x0c, 0x8c, 0x4c, 0xcc, 0x2c, 0xac, 0x6c, 0xec, 0x1c, 0x9c, 0x5c, 0xdc, 0x3c, 0xbc, 0x7c, 0xfc],
    [0x02, 0x82, 0x42, 0xc2, 0x22, 0xa2, 0x62, 0xe2, 0x12, 0x92, 0x52, 0xd2, 0x32, 0xb2, 0x72, 0xf2],
    [0x0a, 0x8a, 0x4a, 0xca, 0x2a, 0xaa, 0x6a, 0xea, 0x1a, 0x9a, 0x5a, 0xda, 0x3a, 0xba, 0x7a, 0xfa],
    [0x06, 0x86, 0x46, 0xc6, 0x26, 0xa6, 0x66, 0xe6, 0x16, 0x96, 0x56, 0xd6, 0x36, 0xb6, 0x76, 0xf6],
    [0x0e, 0x8e, 0x4e, 0xce, 0x2e, 0xae, 0x6e, 0xee, 0x1e, 0x9e, 0x5e, 0xde, 0x3e, 0xbe, 0x7e, 0xfe],
    [0x01, 0x81, 0x41, 0xc1, 0x21, 0xa1, 0x61, 0xe1, 0x11, 0x91, 0x51, 0xd1, 0x31, 0xb1, 0x71, 0xf1],
    [0x09, 0x89, 0x49, 0xc9, 0x29, 0xa9, 0x69, 0xe9, 0x19, 0x99, 0x59, 0xd9, 0x39, 0xb9, 0x79, 0xf9],
    [0x05, 0x85, 0x45, 0xc5, 0x25, 0xa5, 0x65, 0xe5, 0x15, 0x95, 0x55, 0xd5, 0x35, 0xb5, 0x75, 0xf5],
    [0x0d, 0x8d, 0x4d, 0xcd, 0x2d, 0xad, 0x6d, 0xed, 0x1d, 0x9d, 0x5d, 0xdd, 0x3d, 0xbd, 0x7d, 0xfd],
    [0x03, 0x83, 0x43, 0xc3, 0x23, 0xa3, 0x63, 0xe3, 0x13, 0x93, 0x53, 0xd3, 0x33, 0xb3, 0x73, 0xf3],
    [0x0b, 0x8b, 0x4b, 0xcb, 0x2b, 0xab, 0x6b, 0xeb, 0x1b, 0x9b, 0x5b, 0xdb, 0x3b, 0xbb, 0x7b, 0xfb],
    [0x07, 0x87, 0x47, 0xc7, 0x27, 0xa7, 0x67, 0xe7, 0x17, 0x97, 0x57, 0xd7, 0x37, 0xb7, 0x77, 0xf7],
    [0x0f, 0x8f, 0x4f, 0xcf, 0x2f, 0xaf, 0x6f, 0xef, 0x1f, 0x9f, 0x5f, 0xdf, 0x3f, 0xbf, 0x7f, 0xff]
  ]

  /** Reversal of a four-bit number, bit by bit. */
  function Nibble(x: nat): nat {
    8 * (x % 2) + 4 * (x / 2 % 2) + 2 * (x / 4 % 2) + x / 8 % 2
  }

  predicate RowReversed(row: seq<nat>, base: nat) {
    && |row| == 16
    && row[0] == 0 + base && row[1] == 128 + base && row[2] == 64 + base && row[3] == 192 + base
    && row[4] == 32 + base && row[5] == 160 + base && row[6] == 96 + base && row[7] == 224 + base
    && row[8] == 16 + base && row[9] == 144 + base && row[10] == 80 + base && row[11] == 208 + base
    && row[12] == 48 + base && row[13] == 176 + base && row[14] == 112 + base && row[15] == 240 + base
  }

  lemma TableRows0()
    ensures |BITREV_ROWS| == 16
    ensures RowReversed(BITREV_ROWS[0], Nibble(0))
    ensures RowReversed(BITREV_ROWS[1], Nibble(1))
    ensures RowReversed(BITREV_ROWS[2], Nibble(2))
    ensures RowReversed(BITREV_ROWS[3], Nibble(3))
  {}

  lemma TableRows4()
    ensures |BITREV_ROWS| == 16
    ensures RowReversed(BITREV_ROWS[4], Nibble(4))
    ensures RowReversed(BITREV_ROWS[5], Nibble(5))
    ensures RowReversed(BITREV_ROWS[6], Nibble(6))
    ensures RowReversed(BITREV_ROWS[7], Nibble(7))
  {}

  lemma TableRows8()
    ensures |BITREV_ROWS| == 16
    ensures RowReversed(BITREV_ROWS[8], Nibble(8))
    ensures RowReversed(BITREV_ROWS[9], Nibble(9))
    ensures RowReversed(BITREV_ROWS[10], Nibble(10))
    ensures RowReversed(BITREV_ROWS[11], Nibble(11))
  {}

  lemma TableRows12()
    ensures |BITREV_ROWS| == 16
    ensures RowReversed(BITREV_ROWS[12], Nibble(12))
    ensures RowReversed(BITREV_ROWS[13], Nibble(13))
    ensures RowReversed(BITREV_ROWS[14], Nibble(14))
    ensures RowReversed(BITREV_ROWS[15], Nibble(15))
  {}

  lemma TableRow(h: nat)
    requires h < 16
    ensures |BITREV_ROWS| == 16 && RowReversed(BITREV_ROWS[h], Nibble(h))
  {
    if h < 4 {
      TableRows0();
    } else if h < 8 {
      TableRows4();
    } else if h < 12 {
      TableRows8();
    } else {
      TableRows12();
    }
  }

  lemma RowEntry(row: seq<nat>, base: nat, l: nat)
    requires RowReversed(row, base) && l < 16
    ensures row[l] == 16 * Nibble(l) + base
  {}

  lemma PairReverses(x: nat)
    requires x < 4
    ensures BitReverse(2, x) == 2 * (x % 2) + x / 2
  {
    BitReverseStep(2, x);
    BitReverseStep(1, x / 2);
    assert Pow2(1) == 2;
  }

  lemma NibbleReverses(x: nat)
    requires x < 16
    ensures BitReverse(4, x) == Nibble(x)
  {
    assert Pow2(2) == 4;
    PairReverses(x % 4);
    PairReverses(x / 4);
    BitReverseSplit(2, 2, x, x % 4, x / 4);
    NibblePairs(x);
  }

  lemma NibblePairs(x: nat)
    requires x < 16
    ensures Nibble(x) == 4 * (2 * (x % 4 % 2) + x % 4 / 2) + 2 * (x / 4 % 2) + x / 4 / 2
  {
    var lo, hi := x % 4, x / 4;
    assert x == 4 * hi + lo && hi < 4;
    assert x % 2 == lo % 2 && x / 2 % 2 == lo / 2;
    assert x / 4 % 2 == hi % 2 && x / 8 == hi / 2;
  }

  /** `bitrevTab[x]`. */
  function Lookup(rows: seq<seq<nat>>, x: nat): nat
    requires |rows| == 16 && forall h :: 0 <= h < 16 ==> |rows[h]| == 16
    requires x < 256
  {
    rows[x / 16][x % 16]
  }

  ghost predicate IsReversalTable(rows: seq<seq<nat>>) {
    && |rows| == 16 && (forall h :: 0 <= h < 16 ==> |rows[h]| == 16)
    && forall x: nat :: x < 256 ==> Lookup(rows, x) == BitReverse(8, x)
  }

  /** Every entry of the table is the bit reversal of its index. */
  lemma TableReverses()
    ensures IsReversalTable(BITREV_ROWS)
  {
    forall h | 0 <= h < 16
      ensures |BITREV_ROWS| == 16 && |BITREV_ROWS[h]| == 16
    {
      TableRow(h);
    }
    forall x: nat | x < 256
      ensures Lookup(BITREV_ROWS, x) == BitReverse(8, x)
    {
      TableRow(x / 16);
      EntryReverses(BITREV_ROWS[x / 16], x);
    }
  }

  lemma EntryReverses(row: seq<nat>, x: nat)
    requires x < 256 && RowReversed(row, Nibble(x / 16))
    ensures row[x % 16] == BitReverse(8, x)
  {
    RowEntry(row, Nibble(x / 16), x % 16);
    NibbleReverses(x / 16);
    NibbleReverses(x % 16);
    assert Pow2(4) == 16;
    BitReverseSplit(4, 4, x, x % 16, x / 16);
  }

  /** The `BitRev` macro: four table look-ups reverse 32 bits, then the result is shifted. */
  function BitRev(rows: seq<seq<nat>>, i: nat, shift: nat): nat
    requires |rows| == 16 && forall h :: 0 <= h < 16 ==> |rows[h]| == 16
    requires i < 0x1_0000_0000
  {
    ShiftRight(Lookup(rows, i % 0x100) * 0x100_0000
               + Lookup(rows, i / 0x100 % 0x100) * 0x1_0000
               + Lookup(rows, i / 0x1_0000 % 0x100) * 0x100
               + Lookup(rows, i / 0x100_0000), shift)
  }

  function ShiftRight(x: nat, shift: nat): nat {
    Recompose(x, Pow2(shift));
    x / Pow2(shift)
  }

  lemma BitRevReverses(rows: seq<seq<nat>>, i: nat, shift: nat)
    requires IsReversalTable(rows) && i < 0x1_0000_0000
    ensures BitRev(rows, i, shift) == BitReverse(32, i) / Pow2(shift)
  {
    Shifts(i);
    FourBytes(i, i / 0x100, i / 0x1_0000, i / 0x100_0000);
  }

  lemma Shifts(i: nat)
    ensures i / 0x100 / 0x100 == i / 0x1_0000 && i / 0x1_0000 / 0x100 == i / 0x100_0000
  {}

  /** The four bytes of a word change places. */
  lemma FourBytes(i: nat, j: nat, k: nat, l: nat)
    requires j == i / 0x100 && k == j / 0x100 && l == k / 0x100
    ensures BitReverse(32, i)
         == BitReverse(8, i % 0x100) * 0x100_0000 + BitReverse(8, j % 0x100) * 0x1_0000
          + BitReverse(8, k % 0x100) * 0x100 + BitReverse(8, l)
  {
    Powers();
    LowByte(24, i);
    LowByte(16, j);
    LowByte(8, k);
  }

  lemma LowByte(m: nat, i: nat)
    ensures BitReverse(8 + m, i) == BitReverse(8, i % 0x100) * Pow2(m) + BitReverse(m, i / 0x100)
  {
    Powers();
    BitReverseSplit(8, m, i, i % 256, i / 0x100);
  }

  lemma Powers()
    ensures Pow2(8) == 0x100 && Pow2(16) == 0x1_0000 && Pow2(24) == 0x100_0000
  {
    assert Pow2(4) == 16;
    TwosConcat(4, 4);
    TwosConcat(8, 8);
    TwosConcat(8, 16);
  }
}
