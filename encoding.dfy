/**
  The encoding tables and the pure byte layouts of the ModR/M, SIB,
  displacement and REX fields, as in section 2.1.5 (Tables 2-1 to 2-3) and
  section 2.2.1 (Figures 2-4 to 2-7) of the Intel 64 and IA-32 Architectures
  Software Developer's Manual, Volume 2A. The imperative emitters write these
  byte strings; the decoder at the end reads them back the way the processor
  does, and the round-trip lemmas tie the two together.
*/
module Encoding {
  import opened Bits
  import opened Registers
  import opened Operands

  /** One 4 x 16 x 16 table serves as the ModR/M table, indexed
      [mod][rm][reg], and read transposed as the SIB table, indexed
      [scale][base][index]. */
  const HexTable: seq<seq<seq<byte>>> := [
    [
      [0x00, 0x08, 0x10, 0x18, 0x20, 0x28, 0x30, 0x38, 0x00, 0x08, 0x10, 0x18, 0x20, 0x28, 0x30, 0x38],
      [0x01, 0x09, 0x11, 0x19, 0x21, 0x29, 0x31, 0x39, 0x01, 0x09, 0x11, 0x19, 0x21, 0x29, 0x31, 0x39],
      [0x02, 0x0a, 0x12, 0x1a, 0x22, 0x2a, 0x32, 0x3a, 0x02, 0x0a, 0x12, 0x1a, 0x22, 0x2a, 0x32, 0x3a],
      [0x03, 0x0b, 0x13, 0x1b, 0x23, 0x2b, 0x33, 0x3b, 0x03, 0x0b, 0x13, 0x1b, 0x23, 0x2b, 0x33, 0x3b],
      [0x04, 0x0c, 0x14, 0x1c, 0x24, 0x2c, 0x34, 0x3c, 0x04, 0x0c, 0x14, 0x1c, 0x24, 0x2c, 0x34, 0x3c],
      [0x05, 0x0d, 0x15, 0x1d, 0x25, 0x2d, 0x35, 0x3d, 0x05, 0x0d, 0x15, 0x1d, 0x25, 0x2d, 0x35, 0x3d],
      [0x06, 0x0e, 0x16, 0x1e, 0x26, 0x2e, 0x36, 0x3e, 0x06, 0x0e, 0x16, 0x1e, 0x26, 0x2e, 0x36, 0x3e],
      [0x07, 0x0f, 0x17, 0x1f, 0x27, 0x2f, 0x37, 0x3f, 0x07, 0x0f, 0x17, 0x1f, 0x27, 0x2f, 0x37, 0x3f],
      [0x00, 0x08, 0x10, 0x18, 0x20, 0x28, 0x30, 0x38, 0x00, 0x08, 0x10, 0x18, 0x20, 0x28, 0x30, 0x38],
      [0x01, 0x09, 0x11, 0x19, 0x21, 0x29, 0x31, 0x39, 0x01, 0x09, 0x11, 0x19, 0x21, 0x29, 0x31, 0x39],
      [0x02, 0x0a, 0x12, 0x1a, 0x22, 0x2a, 0x32, 0x3a, 0x02, 0x0a, 0x12, 0x1a, 0x22, 0x2a, 0x32, 0x3a],
      [0x03, 0x0b, 0x13, 0x1b, 0x23, 0x2b, 0x33, 0x3b, 0x03, 0x0b, 0x13, 0x1b, 0x23, 0x2b, 0x33, 0x3b],
      [0x04, 0x0c, 0x14, 0x1c, 0x24, 0x2c, 0x34, 0x3c, 0x04, 0x0c, 0x14, 0x1c, 0x24, 0x2c, 0x34, 0x3c],
      [0x05, 0x0d, 0x15, 0x1d, 0x25, 0x2d, 0x35, 0x3d, 0x05, 0x0d, 0x15, 0x1d, 0x25, 0x2d, 0x35, 0x3d],
      [0x06, 0x0e, 0x16, 0x1e, 0x26, 0x2e, 0x36, 0x3e, 0x06, 0x0e, 0x16, 0x1e, 0x26, 0x2e, 0x36, 0x3e],
      [0x07, 0x0f, 0x17, 0x1f, 0x27, 0x2f, 0x37, 0x3f, 0x07, 0x0f, 0x17, 0x1f, 0x27, 0x2f, 0x37, 0x3f]
    ],
    [
      [0x40, 0x48, 0x50, 0x58, 0x60, 0x68, 0x70, 0x78, 0x40, 0x48, 0x50, 0x58, 0x60, 0x68, 0x70, 0x78],
      [0x41, 0x49, 0x51, 0x59, 0x61, 0x69, 0x71, 0x79, 0x41, 0x49, 0x51, 0x59, 0x61, 0x69, 0x71, 0x79],
      [0x42, 0x4a, 0x52, 0x5a, 0x62, 0x6a, 0x72, 0x7a, 0x42, 0x4a, 0x52, 0x5a, 0x62, 0x6a, 0x72, 0x7a],
      [0x43, 0x4b, 0x53, 0x5b, 0x63, 0x6b, 0x73, 0x7b, 0x43, 0x4b, 0x53, 0x5b, 0x63, 0x6b, 0x73, 0x7b],
      [0x44, 0x4c, 0x54, 0x5c, 0x64, 0x6c, 0x74, 0x7c, 0x44, 0x4c, 0x54, 0x5c, 0x64, 0x6c, 0x74, 0x7c],
      [0x45, 0x4d, 0x55, 0x5d, 0x65, 0x6d, 0x75, 0x7d, 0x45, 0x4d, 0x55, 0x5d, 0x65, 0x6d, 0x75, 0x7d],
      [0x46, 0x4e, 0x56, 0x5e, 0x66, 0x6e, 0x76, 0x7e, 0x46, 0x4e, 0x56, 0x5e, 0x66, 0x6e, 0x76, 0x7e],
      [0x47, 0x4f, 0x57, 0x5f, 0x67, 0x6f, 0x77, 0x7f, 0x47, 0x4f, 0x57, 0x5f, 0x67, 0x6f, 0x77, 0x7f],
      [0x40, 0x48, 0x50, 0x58, 0x60, 0x68, 0x70, 0x78, 0x40, 0x48, 0x50, 0x58, 0x60, 0x68, 0x70, 0x78],
      [0x41, 0x49, 0x51, 0x59, 0x61, 0x69, 0x71, 0x79, 0x41, 0x49, 0x51, 0x59, 0x61, 0x69, 0x71, 0x79],
      [0x42, 0x4a, 0x52, 0x5a, 0x62, 0x6a, 0x72, 0x7a, 0x42, 0x4a, 0x52, 0x5a, 0x62, 0x6a, 0x72, 0x7a],
      [0x43, 0x4b, 0x53, 0x5b, 0x63, 0x6b, 0x73, 0x7b, 0x43, 0x4b, 0x53, 0x5b, 0x63, 0x6b, 0x73, 0x7b],
      [0x44, 0x4c, 0x54, 0x5c, 0x64, 0x6c, 0x74, 0x7c, 0x44, 0x4c, 0x54, 0x5c, 0x64, 0x6c, 0x74, 0x7c],
      [0x45, 0x4d, 0x55, 0x5d, 0x65, 0x6d, 0x75, 0x7d, 0x45, 0x4d, 0x55, 0x5d, 0x65, 0x6d, 0x75, 0x7d],
      [0x46, 0x4e, 0x56, 0x5e, 0x66, 0x6e, 0x76, 0x7e, 0x46, 0x4e, 0x56, 0x5e, 0x66, 0x6e, 0x76, 0x7e],
      [0x47, 0x4f, 0x57, 0x5f, 0x67, 0x6f, 0x77, 0x7f, 0x47, 0x4f, 0x57, 0x5f, 0x67, 0x6f, 0x77, 0x7f]
    ],
    [
      [0x80, 0x88, 0x90, 0x98, 0xa0, 0xa8, 0xb0, 0xb8, 0x80, 0x88, 0x90, 0x98, 0xa0, 0xa8, 0xb0, 0xb8],
      [0x81, 0x89, 0x91, 0x99, 0xa1, 0xa9, 0xb1, 0xb9, 0x81, 0x89, 0x91, 0x99, 0xa1, 0xa9, 0xb1, 0xb9],
      [0x82, 0x8a, 0x92, 0x9a, 0xa2, 0xaa, 0xb2, 0xba, 0x82, 0x8a, 0x92, 0x9a, 0xa2, 0xaa, 0xb2, 0xba],
      [0x83, 0x8b, 0x93, 0x9b, 0xa3, 0xab, 0xb3, 0xbb, 0x83, 0x8b, 0x93, 0x9b, 0xa3, 0xab, 0xb3, 0xbb],
      [0x84, 0x8c, 0x94, 0x9c, 0xa4, 0xac, 0xb4, 0xbc, 0x84, 0x8c, 0x94, 0x9c, 0xa4, 0xac, 0xb4, 0xbc],
      [0x85, 0x8d, 0x95, 0x9d, 0xa5, 0xad, 0xb5, 0xbd, 0x85, 0x8d, 0x95, 0x9d, 0xa5, 0xad, 0xb5, 0xbd],
      [0x86, 0x8e, 0x96, 0x9e, 0xa6, 0xae, 0xb6, 0xbe, 0x86, 0x8e, 0x96, 0x9e, 0xa6, 0xae, 0xb6, 0xbe],
      [0x87, 0x8f, 0x97, 0x9f, 0xa7, 0xaf, 0xb7, 0xbf, 0x87, 0x8f, 0x97, 0x9f, 0xa7, 0xaf, 0xb7, 0xbf],
      [0x80, 0x88, 0x90, 0x98, 0xa0, 0xa8, 0xb0, 0xb8, 0x80, 0x88, 0x90, 0x98, 0xa0, 0xa8, 0xb0, 0xb8],
      [0x81, 0x89, 0x91, 0x99, 0xa1, 0xa9, 0xb1, 0xb9, 0x81, 0x89, 0x91, 0x99, 0xa1, 0xa9, 0xb1, 0xb9],
      [0x82, 0x8a, 0x92, 0x9a, 0xa2, 0xaa, 0xb2, 0xba, 0x82, 0x8a, 0x92, 0x9a, 0xa2, 0xaa, 0xb2, 0xba],
      [0x83, 0x8b, 0x93, 0x9b, 0xa3, 0xab, 0xb3, 0xbb, 0x83, 0x8b, 0x93, 0x9b, 0xa3, 0xab, 0xb3, 0xbb],
      [0x84, 0x8c, 0x94, 0x9c, 0xa4, 0xac, 0xb4, 0xbc, 0x84, 0x8c, 0x94, 0x9c, 0xa4, 0xac, 0xb4, 0xbc],
      [0x85, 0x8d, 0x95, 0x9d, 0xa5, 0xad, 0xb5, 0xbd, 0x85, 0x8d, 0x95, 0x9d, 0xa5, 0xad, 0xb5, 0xbd],
      [0x86, 0x8e, 0x96, 0x9e, 0xa6, 0xae, 0xb6, 0xbe, 0x86, 0x8e, 0x96, 0x9e, 0xa6, 0xae, 0xb6, 0xbe],
      [0x87, 0x8f, 0x97, 0x9f, 0xa7, 0xaf, 0xb7, 0xbf, 0x87, 0x8f, 0x97, 0x9f, 0xa7, 0xaf, 0xb7, 0xbf]
    ],
    [
      [0xc0, 0xc8, 0xd0, 0xd8, 0xe0, 0xe8, 0xf0, 0xf8, 0xc0, 0xc8, 0xd0, 0xd8, 0xe0, 0xe8, 0xf0, 0xf8],
      [0xc1, 0xc9, 0xd1, 0xd9, 0xe1, 0xe9, 0xf1, 0xf9, 0xc1, 0xc9, 0xd1, 0xd9, 0xe1, 0xe9, 0xf1, 0xf9],
      [0xc2, 0xca, 0xd2, 0xda, 0xe2, 0xea, 0xf2, 0xfa, 0xc2, 0xca, 0xd2, 0xda, 0xe2, 0xea, 0xf2, 0xfa],
      [0xc3, 0xcb, 0xd3, 0xdb, 0xe3, 0xeb, 0xf3, 0xfb, 0xc3, 0xcb, 0xd3, 0xdb, 0xe3, 0xeb, 0xf3, 0xfb],
      [0xc4, 0xcc, 0xd4, 0xdc, 0xe4, 0xec, 0xf4, 0xfc, 0xc4, 0xcc, 0xd4, 0xdc, 0xe4, 0xec, 0xf4, 0xfc],
      [0xc5, 0xcd, 0xd5, 0xdd, 0xe5, 0xed, 0xf5, 0xfd, 0xc5, 0xcd, 0xd5, 0xdd, 0xe5, 0xed, 0xf5, 0xfd],
      [0xc6, 0xce, 0xd6, 0xde, 0xe6, 0xee, 0xf6, 0xfe, 0xc6, 0xce, 0xd6, 0xde, 0xe6, 0xee, 0xf6, 0xfe],
      [0xc7, 0xcf, 0xd7, 0xdf, 0xe7, 0xef, 0xf7, 0xff, 0xc7, 0xcf, 0xd7, 0xdf, 0xe7, 0xef, 0xf7, 0xff],
      [0xc0, 0xc8, 0xd0, 0xd8, 0xe0, 0xe8, 0xf0, 0xf8, 0xc0, 0xc8, 0xd0, 0xd8, 0xe0, 0xe8, 0xf0, 0xf8],
      [0xc1, 0xc9, 0xd1, 0xd9, 0xe1, 0xe9, 0xf1, 0xf9, 0xc1, 0xc9, 0xd1, 0xd9, 0xe1, 0xe9, 0xf1, 0xf9],
      [0xc2, 0xca, 0xd2, 0xda, 0xe2, 0xea, 0xf2, 0xfa, 0xc2, 0xca, 0xd2, 0xda, 0xe2, 0xea, 0xf2, 0xfa],
      [0xc3, 0xcb, 0xd3, 0xdb, 0xe3, 0xeb, 0xf3, 0xfb, 0xc3, 0xcb, 0xd3, 0xdb, 0xe3, 0xeb, 0xf3, 0xfb],
      [0xc4, 0xcc, 0xd4, 0xdc, 0xe4, 0xec, 0xf4, 0xfc, 0xc4, 0xcc, 0xd4, 0xdc, 0xe4, 0xec, 0xf4, 0xfc],
      [0xc5, 0xcd, 0xd5, 0xdd, 0xe5, 0xed, 0xf5, 0xfd, 0xc5, 0xcd, 0xd5, 0xdd, 0xe5, 0xed, 0xf5, 0xfd],
      [0xc6, 0xce, 0xd6, 0xde, 0xe6, 0xee, 0xf6, 0xfe, 0xc6, 0xce, 0xd6, 0xde, 0xe6, 0xee, 0xf6, 0xfe],
      [0xc7, 0xcf, 0xd7, 0xdf, 0xe7, 0xef, 0xf7, 0xff, 0xc7, 0xcf, 0xd7, 0xdf, 0xe7, 0xef, 0xf7, 0xff]
    ]
  ]

  // The table's 64 rows agree with the closed formula, two rows at a time.

  lemma TablePlane0Rows0(m: nat, rm: nat, r: nat)
    requires m == 0 && 0 <= rm < 2 && r < 16
    ensures |HexTable| == 4 && |HexTable[m]| == 16 && |HexTable[m][rm]| == 16
    ensures HexTable[m][rm][r] == 64 * m + 8 * (r % 8) + rm % 8
  {
    if rm == 0 {} else {}
  }

  lemma TablePlane0Rows2(m: nat, rm: nat, r: nat)
    requires m == 0 && 2 <= rm < 4 && r < 16
    ensures |HexTable| == 4 && |HexTable[m]| == 16 && |HexTable[m][rm]| == 16
    ensures HexTable[m][rm][r] == 64 * m + 8 * (r % 8) + rm % 8
  {
    if rm == 2 {} else {}
  }

  lemma TablePlane0Rows4(m: nat, rm: nat, r: nat)
    requires m == 0 && 4 <= rm < 6 && r < 16
    ensures |HexTable| == 4 && |HexTable[m]| == 16 && |HexTable[m][rm]| == 16
    ensures HexTable[m][rm][r] == 64 * m + 8 * (r % 8) + rm % 8
  {
    if rm == 4 {} else {}
  }

  lemma TablePlane0Rows6(m: nat, rm: nat, r: nat)
    requires m == 0 && 6 <= rm < 8 && r < 16
    ensures |HexTable| == 4 && |HexTable[m]| == 16 && |HexTable[m][rm]| == 16
    ensures HexTable[m][rm][r] == 64 * m + 8 * (r % 8) + rm % 8
  {
    if rm == 6 {} else {}
  }

  lemma TablePlane0Rows8(m: nat, rm: nat, r: nat)
    requires m == 0 && 8 <= rm < 10 && r < 16
    ensures |HexTable| == 4 && |HexTable[m]| == 16 && |HexTable[m][rm]| == 16
    ensures HexTable[m][rm][r] == 64 * m + 8 * (r % 8) + rm % 8
  {
    if rm == 8 {} else {}
  }

  lemma TablePlane0Rows10(m: nat, rm: nat, r: nat)
    requires m == 0 && 10 <= rm < 12 && r < 16
    ensures |HexTable| == 4 && |HexTable[m]| == 16 && |HexTable[m][rm]| == 16
    ensures HexTable[m][rm][r] == 64 * m + 8 * (r % 8) + rm % 8
  {
    if rm == 10 {} else {}
  }

  lemma TablePlane0Rows12(m: nat, rm: nat, r: nat)
    requires m == 0 && 12 <= rm < 14 && r < 16
    ensures |HexTable| == 4 && |HexTable[m]| == 16 && |HexTable[m][rm]| == 16
    ensures HexTable[m][rm][r] == 64 * m + 8 * (r % 8) + rm % 8
  {
    if rm == 12 {} else {}
  }

  lemma TablePlane0Rows14(m: nat, rm: nat, r: nat)
    requires m == 0 && 14 <= rm < 16 && r < 16
    ensures |HexTable| == 4 && |HexTable[m]| == 16 && |HexTable[m][rm]| == 16
    ensures HexTable[m][rm][r] == 64 * m + 8 * (r % 8) + rm % 8
  {
    if rm == 14 {} else {}
  }

  lemma TablePlane1Rows0(m: nat, rm: nat, r: nat)
    requires m == 1 && 0 <= rm < 2 && r < 16
    ensures |HexTable| == 4 && |HexTable[m]| == 16 && |HexTable[m][rm]| == 16
    ensures HexTable[m][rm][r] == 64 * m + 8 * (r % 8) + rm % 8
  {
    if rm == 0 {} else {}
  }

  lemma TablePlane1Rows2(m: nat, rm: nat, r: nat)
    requires m == 1 && 2 <= rm < 4 && r < 16
    ensures |HexTable| == 4 && |HexTable[m]| == 16 && |HexTable[m][rm]| == 16
    ensures HexTable[m][rm][r] == 64 * m + 8 * (r % 8) + rm % 8
  {
    if rm == 2 {} else {}
  }

  lemma TablePlane1Rows4(m: nat, rm: nat, r: nat)
    requires m == 1 && 4 <= rm < 6 && r < 16
    ensures |HexTable| == 4 && |HexTable[m]| == 16 && |HexTable[m][rm]| == 16
    ensures HexTable[m][rm][r] == 64 * m + 8 * (r % 8) + rm % 8
  {
    if rm == 4 {} else {}
  }

  lemma TablePlane1Rows6(m: nat, rm: nat, r: nat)
    requires m == 1 && 6 <= rm < 8 && r < 16
    ensures |HexTable| == 4 && |HexTable[m]| == 16 && |HexTable[m][rm]| == 16
    ensures HexTable[m][rm][r] == 64 * m + 8 * (r % 8) + rm % 8
  {
    if rm == 6 {} else {}
  }

  lemma TablePlane1Rows8(m: nat, rm: nat, r: nat)
    requires m == 1 && 8 <= rm < 10 && r < 16
    ensures |HexTable| == 4 && |HexTable[m]| == 16 && |HexTable[m][rm]| == 16
    ensures HexTable[m][rm][r] == 64 * m + 8 * (r % 8) + rm % 8
  {
    if rm == 8 {} else {}
  }

  lemma TablePlane1Rows10(m: nat, rm: nat, r: nat)
    requires m == 1 && 10 <= rm < 12 && r < 16
    ensures |HexTable| == 4 && |HexTable[m]| == 16 && |HexTable[m][rm]| == 16
    ensures HexTable[m][rm][r] == 64 * m + 8 * (r % 8) + rm % 8
  {
    if rm == 10 {} else {}
  }

  lemma TablePlane1Rows12(m: nat, rm: nat, r: nat)
    requires m == 1 && 12 <= rm < 14 && r < 16
    ensures |HexTable| == 4 && |HexTable[m]| == 16 && |HexTable[m][rm]| == 16
    ensures HexTable[m][rm][r] == 64 * m + 8 * (r % 8) + rm % 8
  {
    if rm == 12 {} else {}
  }

  lemma TablePlane1Rows14(m: nat, rm: nat, r: nat)
    requires m == 1 && 14 <= rm < 16 && r < 16
    ensures |HexTable| == 4 && |HexTable[m]| == 16 && |HexTable[m][rm]| == 16
    ensures HexTable[m][rm][r] == 64 * m + 8 * (r % 8) + rm % 8
  {
    if rm == 14 {} else {}
  }

  lemma TablePlane2Rows0(m: nat, rm: nat, r: nat)
    requires m == 2 && 0 <= rm < 2 && r < 16
    ensures |HexTable| == 4 && |HexTable[m]| == 16 && |HexTable[m][rm]| == 16
    ensures HexTable[m][rm][r] == 64 * m + 8 * (r % 8) + rm % 8
  {
    if rm == 0 {} else {}
  }

  lemma TablePlane2Rows2(m: nat, rm: nat, r: nat)
    requires m == 2 && 2 <= rm < 4 && r < 16
    ensures |HexTable| == 4 && |HexTable[m]| == 16 && |HexTable[m][rm]| == 16
    ensures HexTable[m][rm][r] == 64 * m + 8 * (r % 8) + rm % 8
  {
    if rm == 2 {} else {}
  }

  lemma TablePlane2Rows4(m: nat, rm: nat, r: nat)
    requires m == 2 && 4 <= rm < 6 && r < 16
    ensures |HexTable| == 4 && |HexTable[m]| == 16 && |HexTable[m][rm]| == 16
    ensures HexTable[m][rm][r] == 64 * m + 8 * (r % 8) + rm % 8
  {
    if rm == 4 {} else {}
  }

  lemma TablePlane2Rows6(m: nat, rm: nat, r: nat)
    requires m == 2 && 6 <= rm < 8 && r < 16
    ensures |HexTable| == 4 && |HexTable[m]| == 16 && |HexTable[m][rm]| == 16
    ensures HexTable[m][rm][r] == 64 * m + 8 * (r % 8) + rm % 8
  {
    if rm == 6 {} else {}
  }

  lemma TablePlane2Rows8(m: nat, rm: nat, r: nat)
    requires m == 2 && 8 <= rm < 10 && r < 16
    ensures |HexTable| == 4 && |HexTable[m]| == 16 && |HexTable[m][rm]| == 16
    ensures HexTable[m][rm][r] == 64 * m + 8 * (r % 8) + rm % 8
  {
    if rm == 8 {} else {}
  }

  lemma TablePlane2Rows10(m: nat, rm: nat, r: nat)
    requires m == 2 && 10 <= rm < 12 && r < 16
    ensures |HexTable| == 4 && |HexTable[m]| == 16 && |HexTable[m][rm]| == 16
    ensures HexTable[m][rm][r] == 64 * m + 8 * (r % 8) + rm % 8
  {
    if rm == 10 {} else {}
  }

  lemma TablePlane2Rows12(m: nat, rm: nat, r: nat)
    requires m == 2 && 12 <= rm < 14 && r < 16
    ensures |HexTable| == 4 && |HexTable[m]| == 16 && |HexTable[m][rm]| == 16
    ensures HexTable[m][rm][r] == 64 * m + 8 * (r % 8) + rm % 8
  {
    if rm == 12 {} else {}
  }

  lemma TablePlane2Rows14(m: nat, rm: nat, r: nat)
    requires m == 2 && 14 <= rm < 16 && r < 16
    ensures |HexTable| == 4 && |HexTable[m]| == 16 && |HexTable[m][rm]| == 16
    ensures HexTable[m][rm][r] == 64 * m + 8 * (r % 8) + rm % 8
  {
    if rm == 14 {} else {}
  }

  lemma TablePlane3Rows0(m: nat, rm: nat, r: nat)
    requires m == 3 && 0 <= rm < 2 && r < 16
    ensures |HexTable| == 4 && |HexTable[m]| == 16 && |HexTable[m][rm]| == 16
    ensures HexTable[m][rm][r] == 64 * m + 8 * (r % 8) + rm % 8
  {
    if rm == 0 {} else {}
  }

  lemma TablePlane3Rows2(m: nat, rm: nat, r: nat)
    requires m == 3 && 2 <= rm < 4 && r < 16
    ensures |HexTable| == 4 && |HexTable[m]| == 16 && |HexTable[m][rm]| == 16
    ensures HexTable[m][rm][r] == 64 * m + 8 * (r % 8) + rm % 8
  {
    if rm == 2 {} else {}
  }

  lemma TablePlane3Rows4(m: nat, rm: nat, r: nat)
    requires m == 3 && 4 <= rm < 6 && r < 16
    ensures |HexTable| == 4 && |HexTable[m]| == 16 && |HexTable[m][rm]| == 16
    ensures HexTable[m][rm][r] == 64 * m + 8 * (r % 8) + rm % 8
  {
    if rm == 4 {} else {}
  }

  lemma TablePlane3Rows6(m: nat, rm: nat, r: nat)
    requires m == 3 && 6 <= rm < 8 && r < 16
    ensures |HexTable| == 4 && |HexTable[m]| == 16 && |HexTable[m][rm]| == 16
    ensures HexTable[m][rm][r] == 64 * m + 8 * (r % 8) + rm % 8
  {
    if rm == 6 {} else {}
  }

  lemma TablePlane3Rows8(m: nat, rm: nat, r: nat)
    requires m == 3 && 8 <= rm < 10 && r < 16
    ensures |HexTable| == 4 && |HexTable[m]| == 16 && |HexTable[m][rm]| == 16
    ensures HexTable[m][rm][r] == 64 * m + 8 * (r % 8) + rm % 8
  {
    if rm == 8 {} else {}
  }

  lemma TablePlane3Rows10(m: nat, rm: nat, r: nat)
    requires m == 3 && 10 <= rm < 12 && r < 16
    ensures |HexTable| == 4 && |HexTable[m]| == 16 && |HexTable[m][rm]| == 16
    ensures HexTable[m][rm][r] == 64 * m + 8 * (r % 8) + rm % 8
  {
    if rm == 10 {} else {}
  }

  lemma TablePlane3Rows12(m: nat, rm: nat, r: nat)
    requires m == 3 && 12 <= rm < 14 && r < 16
    ensures |HexTable| == 4 && |HexTable[m]| == 16 && |HexTable[m][rm]| == 16
    ensures HexTable[m][rm][r] == 64 * m + 8 * (r % 8) + rm % 8
  {
    if rm == 12 {} else {}
  }

  lemma TablePlane3Rows14(m: nat, rm: nat, r: nat)
    requires m == 3 && 14 <= rm < 16 && r < 16
    ensures |HexTable| == 4 && |HexTable[m]| == 16 && |HexTable[m][rm]| == 16
    ensures HexTable[m][rm][r] == 64 * m + 8 * (r % 8) + rm % 8
  {
    if rm == 14 {} else {}
  }

  /** Every entry of the table is `mod << 6 | (r & 7) << 3 | (rm & 7)`. */
  lemma TableFormula(m: nat, rm: nat, r: nat)
    requires m < 4 && rm < 16 && r < 16
    ensures |HexTable| == 4 && |HexTable[m]| == 16 && |HexTable[m][rm]| == 16
    ensures HexTable[m][rm][r] == 64 * m + 8 * (r % 8) + rm % 8
  {
    if m == 0 {
      if rm < 2 { TablePlane0Rows0(m, rm, r); }
      else if rm < 4 { TablePlane0Rows2(m, rm, r); }
      else if rm < 6 { TablePlane0Rows4(m, rm, r); }
      else if rm < 8 { TablePlane0Rows6(m, rm, r); }
      else if rm < 10 { TablePlane0Rows8(m, rm, r); }
      else if rm < 12 { TablePlane0Rows10(m, rm, r); }
      else if rm < 14 { TablePlane0Rows12(m, rm, r); }
      else { TablePlane0Rows14(m, rm, r); }
    } else if m == 1 {
      if rm < 2 { TablePlane1Rows0(m, rm, r); }
      else if rm < 4 { TablePlane1Rows2(m, rm, r); }
      else if rm < 6 { TablePlane1Rows4(m, rm, r); }
      else if rm < 8 { TablePlane1Rows6(m, rm, r); }
      else if rm < 10 { TablePlane1Rows8(m, rm, r); }
      else if rm < 12 { TablePlane1Rows10(m, rm, r); }
      else if rm < 14 { TablePlane1Rows12(m, rm, r); }
      else { TablePlane1Rows14(m, rm, r); }
    } else if m == 2 {
      if rm < 2 { TablePlane2Rows0(m, rm, r); }
      else if rm < 4 { TablePlane2Rows2(m, rm, r); }
      else if rm < 6 { TablePlane2Rows4(m, rm, r); }
      else if rm < 8 { TablePlane2Rows6(m, rm, r); }
      else if rm < 10 { TablePlane2Rows8(m, rm, r); }
      else if rm < 12 { TablePlane2Rows10(m, rm, r); }
      else if rm < 14 { TablePlane2Rows12(m, rm, r); }
      else { TablePlane2Rows14(m, rm, r); }
    } else {
      if rm < 2 { TablePlane3Rows0(m, rm, r); }
      else if rm < 4 { TablePlane3Rows2(m, rm, r); }
      else if rm < 6 { TablePlane3Rows4(m, rm, r); }
      else if rm < 8 { TablePlane3Rows6(m, rm, r); }
      else if rm < 10 { TablePlane3Rows8(m, rm, r); }
      else if rm < 12 { TablePlane3Rows10(m, rm, r); }
      else if rm < 14 { TablePlane3Rows12(m, rm, r); }
      else { TablePlane3Rows14(m, rm, r); }
    }
  }

  /** The ModR/M byte for addressing mode `mod`, r/m field `rm` and reg
      field `r`; only the low three bits of each register field are kept. */
  function ModRm(mod: nat, rm: nat, r: nat): (b: byte)
    requires mod < 4 && rm < 16 && r < 16
    ensures b / 64 == mod && (b / 8) % 8 == r % 8 && b % 8 == rm % 8
  {
    TableFormula(mod, rm, r);
    Fields(mod, r % 8, rm % 8);
    HexTable[mod][rm][r]
  }

  /** The SIB byte: the same table read with its last two indices swapped. */
  function Sib(scale: nat, index: nat, base: nat): (b: byte)
    requires scale < 4 && index < 16 && base < 16
    ensures b / 64 == scale && (b / 8) % 8 == index % 8 && b % 8 == base % 8
  {
    TableFormula(scale, base, index);
    Fields(scale, index % 8, base % 8);
    HexTable[scale][base][index]
  }

  /** A byte built from a 2-bit and two 3-bit fields gives those fields back. */
  lemma Fields(hi: nat, mid: nat, lo: nat)
    requires hi < 4 && mid < 8 && lo < 8
    ensures (64 * hi + 8 * mid + lo) / 64 == hi
    ensures ((64 * hi + 8 * mid + lo) / 8) % 8 == mid
    ensures (64 * hi + 8 * mid + lo) % 8 == lo
  {
    var b := 64 * hi + 8 * mid + lo;
    DivModUnique(b, 64, hi, 8 * mid + lo);
    DivModUnique(b, 8, 8 * hi + mid, lo);
    DivModUnique(8 * hi + mid, 8, hi, mid);
  }

  // ---------------------------------------------------------------------
  // Memory operands: ModR/M, optional SIB, displacement

  /** `(b & ~8) == 5`: the base is RBP or R13, whose r/m value 5 under mod 0
      would mean RIP-relative addressing instead. */
  predicate RipDisp32(b: Register)
  {
    b.enc % 8 == 5
  }

  predicate Disp8(d: int)
  {
    -128 <= d < 128
  }

  /** The addressing mode chosen for a memory operand. */
  function MemMod(m: Mem): (mod: nat)
    ensures mod < 3
  {
    if m.base.None? then 0
    else if m.disp == 0 then (if RipDisp32(m.base.value) then 1 else 0)
    else if Disp8(m.disp) then 1
    else 2
  }

  /** A SIB byte is needed without a base, with an index, or when the base's
      low three bits collide with the SIB marker 4 (RSP, R12). */
  predicate NeedsSib(m: Mem)
  {
    m.base.None? || m.index.Some? || m.base.value.enc % 8 == 4
  }

  /** The SIB index field: RSP's encoding stands for "no index". */
  function SibIndex(m: Mem): Enc
  {
    if m.index.None? then RSP.enc else m.index.value.enc
  }

  /** The SIB base field: RBP's encoding stands for "no base". */
  function SibBase(m: Mem): Enc
  {
    if m.base.None? then RBP.enc else m.base.value.enc
  }

  /** How many displacement bytes follow the ModR/M and SIB bytes: four for
      a 32-bit displacement or a missing base, one for a nonzero 8-bit
      displacement, one (a zero byte) for RBP or R13 without displacement,
      and none otherwise. */
  function DispWidth(m: Mem): nat
  {
    if !Disp8(m.disp) || m.base.None? then 4
    else if Disp8(m.disp) && m.disp != 0 then 1
    else if RipDisp32(m.base.value) then 1
    else 0
  }

  /** The displacement bytes, least significant first. In the RBP/R13 case
      the displacement is zero, so the byte written is the zero byte. */
  function DispBytes(m: Mem): seq<byte>
  {
    LittleEndian(m.disp, DispWidth(m))
  }

  /** The bytes `emit_mod_rm(M, r)` writes: ModR/M, then SIB when needed,
      then the displacement. */
  function MemModRmBytes(m: Mem, r: Enc): seq<byte>
  {
    MemHeadBytes(m, r) + DispBytes(m)
  }

  /** The ModR/M byte, followed by the SIB byte when one is needed. */
  function MemHeadBytes(m: Mem, r: Enc): (bs: seq<byte>)
    ensures |bs| == if NeedsSib(m) then 2 else 1
  {
    if NeedsSib(m) then [ModRm(MemMod(m), 4, r), Sib(m.scale, SibIndex(m), SibBase(m))]
    else [ModRm(MemMod(m), m.base.value.enc, r)]
  }

  /** The number of displacement bytes the processor reads after the ModR/M
      and SIB bytes, given the mode and whether a base is encoded. */
  function DispLength(mod: nat, hasBase: bool): nat
  {
    if !hasBase || mod == 2 then 4 else if mod == 1 then 1 else 0
  }

  /** The mode field: no base gives 0; a zero displacement gives 0, except
      1 for RBP and R13; an 8-bit displacement gives 1; anything else 2. The
      reg field carries the low three bits of `r`. */
  lemma MemModField(m: Mem, r: Enc)
    ensures var bs := MemModRmBytes(m, r);
      && bs[0] / 64 == (if m.base.None? then 0
                        else if m.disp == 0 then (if m.base.value.enc % 8 == 5 then 1 else 0)
                        else if -128 <= m.disp < 128 then 1
                        else 2)
      && (bs[0] / 8) % 8 == r % 8
  {
    MemHead(m, r);
  }

  /** The leading ModR/M and SIB bytes of a memory operand's encoding. */
  lemma MemHead(m: Mem, r: Enc)
    ensures var bs := MemModRmBytes(m, r);
      && |bs| == (if NeedsSib(m) then 2 else 1) + |DispBytes(m)|
      && bs[0] == (if NeedsSib(m) then ModRm(MemMod(m), 4, r) else ModRm(MemMod(m), m.base.value.enc, r))
      && (NeedsSib(m) ==> bs[1] == Sib(m.scale, SibIndex(m), SibBase(m)))
      && bs[(if NeedsSib(m) then 2 else 1)..] == DispBytes(m)
  {
  }

  /** The r/m field is the SIB marker 4 exactly when a SIB byte follows;
      otherwise it holds the low three bits of the base. */
  lemma MemRmField(m: Mem, r: Enc)
    ensures var bs := MemModRmBytes(m, r);
      && (bs[0] % 8 == 4 <==> NeedsSib(m))
      && (!NeedsSib(m) ==> bs[0] % 8 == m.base.value.enc % 8)
  {
    MemHead(m, r);
  }

  /** A SIB byte holds the scale, the index (RSP's 4 when absent) and the
      base (RBP's 5 when absent). */
  lemma MemSibFields(m: Mem, r: Enc)
    requires NeedsSib(m)
    ensures var bs := MemModRmBytes(m, r);
      && bs[1] / 64 == m.scale
      && (bs[1] / 8) % 8 == SibIndex(m) % 8
      && bs[1] % 8 == SibBase(m) % 8
  {
    var b := MemModRmBytes(m, r)[1];
    assert b == MemHeadBytes(m, r)[1];
    assert b == Sib(m.scale, SibIndex(m), SibBase(m));
  }

  /** The encoding is one ModR/M byte, one SIB byte when needed, and as many
      displacement bytes as the mode calls for: none under mod 0 with a
      base, one under mod 1, four under mod 2 or without a base. */
  lemma MemLength(m: Mem, r: Enc)
    ensures var bs := MemModRmBytes(m, r);
      |bs| == 1 + (if NeedsSib(m) then 1 else 0) + DispLength(bs[0] / 64, m.base.Some?)
  {
    MemModField(m, r);
  }

  /** With base RBP or R13 and a zero displacement the encoder picks mod 1
      and emits exactly one zero displacement byte. */
  lemma RbpZeroDisplacement(m: Mem, r: Enc)
    requires m.base.Some? && m.base.value.enc % 8 == 5 && m.disp == 0
    ensures var bs := MemModRmBytes(m, r);
      && bs[0] / 64 == 1
      && |bs| == (if m.index.Some? then 3 else 2)
      && bs[|bs| - 1] == 0
  {
    MemModField(m, r);
  }

  /** Without base and index: mod 0, the SIB marker, SIB fields 4 and 5, and
      a four-byte displacement equal to the operand's, whatever its size. */
  lemma NoBaseNoIndex(m: Mem, r: Enc)
    requires m.base.None? && m.index.None?
    ensures var bs := MemModRmBytes(m, r);
      && |bs| == 6 && bs[0] / 64 == 0 && bs[0] % 8 == 4
      && (bs[1] / 8) % 8 == 4 && bs[1] % 8 == 5
      && Signed(FromLittleEndian(bs[2..]), 4) == m.disp
  {
    var bs := MemModRmBytes(m, r);
    MemRmField(m, r);
    MemSibFields(m, r);
    MemModField(m, r);
    MemHead(m, r);
    assert DispWidth(m) == 4;
    assert bs[2..] == LittleEndian(m.disp, 4);
    assert FitsSigned(m.disp, 4) by { assert Pow256(4) == 0x1_0000_0000; }
    LittleEndianSignedRoundTrip(m.disp, 4);
  }

  // ---------------------------------------------------------------------
  // REX prefix

  /** `low >> 2 == 1`: the byte-register hint is SPL, BPL, SIL or DIL, which
      the processor reaches only when some REX prefix is present. */
  predicate ForcesRex(low: Option<Register>)
  {
    low.Some? && low.value.enc / 4 == 1
  }

  /** REX.B from an r/m register: `rm >> 3`. */
  function RexB(rm: Enc): byte
  {
    rm / 8
  }

  /** REX.R from a reg-field register: `(r >> 1) & 0x4`. */
  function RexR(r: Enc): byte
  {
    if r >= 8 then 4 else 0
  }

  /** REX.B from a memory operand's base; an absent base contributes nothing. */
  function RexBaseB(m: Mem): byte
  {
    if m.base.Some? then m.base.value.enc / 8 else 0
  }

  /** REX.X from a memory operand's index; an absent index contributes nothing. */
  function RexIndexX(m: Mem): byte
  {
    if m.index.Some? && m.index.value.enc >= 8 then 2 else 0
  }

  /** At most one byte `0x40 | flags`, present when a flag is set or a REX
      prefix is forced. */
  function RexPrefix(flags: byte, force: bool): seq<byte>
  {
    if flags != 0 || force then [ByteOr(flags, 0x40)] else []
  }

  /** `emit_rex(rm, rex, low)`. */
  function RexRmBytes(rm: Enc, rex: byte, low: Option<Register>): seq<byte>
  {
    RexPrefix(ByteOr(rex, RexB(rm)), ForcesRex(low))
  }

  /** `emit_rex(rm, r, rex, low)`. */
  function RexRmRBytes(rm: Enc, r: Enc, rex: byte, low: Option<Register>): seq<byte>
  {
    RexPrefix(ByteOr(ByteOr(rex, RexB(rm)), RexR(r)), ForcesRex(low))
  }

  /** `emit_rex(M, r, rex, low)`. */
  function RexMemRBytes(m: Mem, r: Enc, rex: byte, low: Option<Register>): seq<byte>
  {
    RexPrefix(ByteOr(ByteOr(ByteOr(rex, RexR(r)), RexBaseB(m)), RexIndexX(m)), ForcesRex(low))
  }

  /** `emit_rex(M, rex, low)`: the hint must be null and is not consulted. */
  function RexMemBytes(m: Mem, rex: byte, low: Option<Register>): seq<byte>
    requires low.None?
  {
    RexPrefix(ByteOr(ByteOr(rex, RexBaseB(m)), RexIndexX(m)), false)
  }


  /** OR with a power of two above every bit of `a` is addition. */
  lemma {:induction false} BitOrHighBit(a: nat, k: nat)
    requires a < Pow2(k)
    ensures BitOr(a, Pow2(k)) == a + Pow2(k)
  {
    if a != 0 && k > 0 {
      BitOrHighBit(a / 2, k - 1);
    }
  }

  /** Adding a power of two above every bit of `x` keeps the bits of `x`. */
  lemma {:induction false} BitOfHighBit(x: nat, k: nat, j: nat)
    requires x < Pow2(k) && j < k
    ensures Bit(x + Pow2(k), j) == Bit(x, j)
  {
    if j > 0 {
      assert (x + Pow2(k)) / 2 == x / 2 + Pow2(k - 1);
      BitOfHighBit(x / 2, k - 1, j - 1);
    }
  }

  /** The byte `0x40 | flags` for flags below 16: bits 0-3 are those of
      `flags` and the byte lies in 0x40-0x4f. */
  lemma RexByteBits(flags: byte)
    requires flags < 16
    ensures var b := ByteOr(flags, 0x40);
      && b == 0x40 + flags
      && Bit(b, 0) == Bit(flags, 0) && Bit(b, 1) == Bit(flags, 1)
      && Bit(b, 2) == Bit(flags, 2) && Bit(b, 3) == Bit(flags, 3)
  {
    assert Pow2(6) == 64;
    BitOrHighBit(flags, 6);
    BitOfHighBit(flags, 6, 0);
    BitOfHighBit(flags, 6, 1);
    BitOfHighBit(flags, 6, 2);
    BitOfHighBit(flags, 6, 3);
  }

  /** `emit_rex(rm, rex, low)` writes a byte exactly when the caller's bits
      or REX.B are nonzero, or the hint is one of SPL, BPL, SIL, DIL. */
  lemma RexRmEmitted(rm: Enc, rex: byte, low: Option<Register>)
    ensures |RexRmBytes(rm, rex, low)| == if rex != 0 || rm >= 8 || ForcesRex(low) then 1 else 0
  {
  }

  /** `emit_rex(rm, r, rex, low)` also writes a byte when `r` needs REX.R. */
  lemma RexRmREmitted(rm: Enc, r: Enc, rex: byte, low: Option<Register>)
    ensures |RexRmRBytes(rm, r, rex, low)|
         == if rex != 0 || rm >= 8 || r >= 8 || ForcesRex(low) then 1 else 0
  {
  }

  /** `emit_rex(M, r, rex, low)`: REX.B comes from the base and REX.X from
      the index, each only when present and numbered 8 or above. */
  lemma RexMemREmitted(m: Mem, r: Enc, rex: byte, low: Option<Register>)
    ensures |RexMemRBytes(m, r, rex, low)|
         == if rex != 0 || r >= 8 || (m.base.Some? && m.base.value.enc >= 8)
               || (m.index.Some? && m.index.value.enc >= 8) || ForcesRex(low) then 1 else 0
  {
  }

  /** `emit_rex(M, rex, low)` ignores the hint altogether. */
  lemma RexMemEmitted(m: Mem, rex: byte)
    ensures |RexMemBytes(m, rex, None)|
         == if rex != 0 || (m.base.Some? && m.base.value.enc >= 8)
               || (m.index.Some? && m.index.value.enc >= 8) then 1 else 0
  {
  }

  /** Among byte registers the hint forces a prefix exactly for encodings
      4-7 outside the legacy low bytes; R8B-R15B get one from REX.B or REX.R
      instead. */
  lemma ByteHintForcesRex(low: Register)
    requires IsByte(low)
    ensures ForcesRex(Some(low)) <==> 4 <= low.enc < 8
    ensures low.cls == Rl ==> !ForcesRex(Some(low))
    ensures low.cls == Rb && low.enc >= 8 ==> RexRmBytes(low.enc, 0, None) != []
  {
  }
}
