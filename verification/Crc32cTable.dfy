/**
 The lookup table of the EROFS superblock checksum, and the proof that every entry is what eight steps of
 bit-at-a-time division give.
 */
module Crc32cTable {
  /** The polynomial of CRC32C (Appendix A of RFC 9260), least significant bit first. */
  const POLYNOMIAL: bv32 := 0x82F6_3B78

  /** One step of the division: one bit is shifted out. */
  function Shift(x: bv32): bv32 {
    if x & 1 == 1 then (x >> 1) ^ POLYNOMIAL else x >> 1
  }

  function ShiftByte(x: bv32): bv32 {
    Shift(Shift(Shift(Shift(Shift(Shift(Shift(Shift(x))))))))
  }

  function Part0(i: bv8): bv32 {
    if i == 0x00 then 0x00000000 else if i == 0x01 then 0xf26b8303 else if i == 0x02 then 0xe13b70f7
    else if i == 0x03 then 0x1350f3f4 else if i == 0x04 then 0xc79a971f else if i == 0x05 then 0x35f1141c
    else if i == 0x06 then 0x26a1e7e8 else if i == 0x07 then 0xd4ca64eb else if i == 0x08 then 0x8ad958cf
    else if i == 0x09 then 0x78b2dbcc else if i == 0x0A then 0x6be22838 else if i == 0x0B then 0x9989ab3b
    else if i == 0x0C then 0x4d43cfd0 else if i == 0x0D then 0xbf284cd3 else if i == 0x0E then 0xac78bf27
    else 0x5e133c24
  }

  function Part1(i: bv8): bv32 {
    if i == 0x10 then 0x105ec76f else if i == 0x11 then 0xe235446c else if i == 0x12 then 0xf165b798
    else if i == 0x13 then 0x030e349b else if i == 0x14 then 0xd7c45070 else if i == 0x15 then 0x25afd373
    else if i == 0x16 then 0x36ff2087 else if i == 0x17 then 0xc494a384 else if i == 0x18 then 0x9a879fa0
    else if i == 0x19 then 0x68ec1ca3 else if i == 0x1A then 0x7bbcef57 else if i == 0x1B then 0x89d76c54
    else if i == 0x1C then 0x5d1d08bf else if i == 0x1D then 0xaf768bbc else if i == 0x1E then 0xbc267848
    else 0x4e4dfb4b
  }

  function Part2(i: bv8): bv32 {
    if i == 0x20 then 0x20bd8ede else if i == 0x21 then 0xd2d60ddd else if i == 0x22 then 0xc186fe29
    else if i == 0x23 then 0x33ed7d2a else if i == 0x24 then 0xe72719c1 else if i == 0x25 then 0x154c9ac2
    else if i == 0x26 then 0x061c6936 else if i == 0x27 then 0xf477ea35 else if i == 0x28 then 0xaa64d611
    else if i == 0x29 then 0x580f5512 else if i == 0x2A then 0x4b5fa6e6 else if i == 0x2B then 0xb93425e5
    else if i == 0x2C then 0x6dfe410e else if i == 0x2D then 0x9f95c20d else if i == 0x2E then 0x8cc531f9
    else 0x7eaeb2fa
  }

  function Part3(i: bv8): bv32 {
    if i == 0x30 then 0x30e349b1 else if i == 0x31 then 0xc288cab2 else if i == 0x32 then 0xd1d83946
    else if i == 0x33 then 0x23b3ba45 else if i == 0x34 then 0xf779deae else if i == 0x35 then 0x05125dad
    else if i == 0x36 then 0x1642ae59 else if i == 0x37 then 0xe4292d5a else if i == 0x38 then 0xba3a117e
    else if i == 0x39 then 0x4851927d else if i == 0x3A then 0x5b016189 else if i == 0x3B then 0xa96ae28a
    else if i == 0x3C then 0x7da08661 else if i == 0x3D then 0x8fcb0562 else if i == 0x3E then 0x9c9bf696
    else 0x6ef07595
  }

  function Part4(i: bv8): bv32 {
    if i == 0x40 then 0x417b1dbc else if i == 0x41 then 0xb3109ebf else if i == 0x42 then 0xa0406d4b
    else if i == 0x43 then 0x522bee48 else if i == 0x44 then 0x86e18aa3 else if i == 0x45 then 0x748a09a0
    else if i == 0x46 then 0x67dafa54 else if i == 0x47 then 0x95b17957 else if i == 0x48 then 0xcba24573
    else if i == 0x49 then 0x39c9c670 else if i == 0x4A then 0x2a993584 else if i == 0x4B then 0xd8f2b687
    else if i == 0x4C then 0x0c38d26c else if i == 0x4D then 0xfe53516f else if i == 0x4E then 0xed03a29b
    else 0x1f682198
  }

  function Part5(i: bv8): bv32 {
    if i == 0x50 then 0x5125dad3 else if i == 0x51 then 0xa34e59d0 else if i == 0x52 then 0xb01eaa24
    else if i == 0x53 then 0x42752927 else if i == 0x54 then 0x96bf4dcc else if i == 0x55 then 0x64d4cecf
    else if i == 0x56 then 0x77843d3b else if i == 0x57 then 0x85efbe38 else if i == 0x58 then 0xdbfc821c
    else if i == 0x59 then 0x2997011f else if i == 0x5A then 0x3ac7f2eb else if i == 0x5B then 0xc8ac71e8
    else if i == 0x5C then 0x1c661503 else if i == 0x5D then 0xee0d9600 else if i == 0x5E then 0xfd5d65f4
    else 0x0f36e6f7
  }

  function Part6(i: bv8): bv32 {
    if i == 0x60 then 0x61c69362 else if i == 0x61 then 0x93ad1061 else if i == 0x62 then 0x80fde395
    else if i == 0x63 then 0x72966096 else if i == 0x64 then 0xa65c047d else if i == 0x65 then 0x5437877e
    else if i == 0x66 then 0x4767748a else if i == 0x67 then 0xb50cf789 else if i == 0x68 then 0xeb1fcbad
    else if i == 0x69 then 0x197448ae else if i == 0x6A then 0x0a24bb5a else if i == 0x6B then 0xf84f3859
    else if i == 0x6C then 0x2c855cb2 else if i == 0x6D then 0xdeeedfb1 else if i == 0x6E then 0xcdbe2c45
    else 0x3fd5af46
  }

  function Part7(i: bv8): bv32 {
    if i == 0x70 then 0x7198540d else if i == 0x71 then 0x83f3d70e else if i == 0x72 then 0x90a324fa
    else if i == 0x73 then 0x62c8a7f9 else if i == 0x74 then 0xb602c312 else if i == 0x75 then 0x44694011
    else if i == 0x76 then 0x5739b3e5 else if i == 0x77 then 0xa55230e6 else if i == 0x78 then 0xfb410cc2
    else if i == 0x79 then 0x092a8fc1 else if i == 0x7A then 0x1a7a7c35 else if i == 0x7B then 0xe811ff36
    else if i == 0x7C then 0x3cdb9bdd else if i == 0x7D then 0xceb018de else if i == 0x7E then 0xdde0eb2a
    else 0x2f8b6829
  }

  function Part8(i: bv8): bv32 {
    if i == 0x80 then 0x82f63b78 else if i == 0x81 then 0x709db87b else if i == 0x82 then 0x63cd4b8f
    else if i == 0x83 then 0x91a6c88c else if i == 0x84 then 0x456cac67 else if i == 0x85 then 0xb7072f64
    else if i == 0x86 then 0xa457dc90 else if i == 0x87 then 0x563c5f93 else if i == 0x88 then 0x082f63b7
    else if i == 0x89 then 0xfa44e0b4 else if i == 0x8A then 0xe9141340 else if i == 0x8B then 0x1b7f9043
    else if i == 0x8C then 0xcfb5f4a8 else if i == 0x8D then 0x3dde77ab else if i == 0x8E then 0x2e8e845f
    else 0xdce5075c
  }

  function Part9(i: bv8): bv32 {
    if i == 0x90 then 0x92a8fc17 else if i == 0x91 then 0x60c37f14 else if i == 0x92 then 0x73938ce0
    else if i == 0x93 then 0x81f80fe3 else if i == 0x94 then 0x55326b08 else if i == 0x95 then 0xa759e80b
    else if i == 0x96 then 0xb4091bff else if i == 0x97 then 0x466298fc else if i == 0x98 then 0x1871a4d8
    else if i == 0x99 then 0xea1a27db else if i == 0x9A then 0xf94ad42f else if i == 0x9B then 0x0b21572c
    else if i == 0x9C then 0xdfeb33c7 else if i == 0x9D then 0x2d80b0c4 else if i == 0x9E then 0x3ed04330
    else 0xccbbc033
  }

  function Part10(i: bv8): bv32 {
    if i == 0xA0 then 0xa24bb5a6 else if i == 0xA1 then 0x502036a5 else if i == 0xA2 then 0x4370c551
    else if i == 0xA3 then 0xb11b4652 else if i == 0xA4 then 0x65d122b9 else if i == 0xA5 then 0x97baa1ba
    else if i == 0xA6 then 0x84ea524e else if i == 0xA7 then 0x7681d14d else if i == 0xA8 then 0x2892ed69
    else if i == 0xA9 then 0xdaf96e6a else if i == 0xAA then 0xc9a99d9e else if i == 0xAB then 0x3bc21e9d
    else if i == 0xAC then 0xef087a76 else if i == 0xAD then 0x1d63f975 else if i == 0xAE then 0x0e330a81
    else 0xfc588982
  }

  function Part11(i: bv8): bv32 {
    if i == 0xB0 then 0xb21572c9 else if i == 0xB1 then 0x407ef1ca else if i == 0xB2 then 0x532e023e
    else if i == 0xB3 then 0xa145813d else if i == 0xB4 then 0x758fe5d6 else if i == 0xB5 then 0x87e466d5
    else if i == 0xB6 then 0x94b49521 else if i == 0xB7 then 0x66df1622 else if i == 0xB8 then 0x38cc2a06
    else if i == 0xB9 then 0xcaa7a905 else if i == 0xBA then 0xd9f75af1 else if i == 0xBB then 0x2b9cd9f2
    else if i == 0xBC then 0xff56bd19 else if i == 0xBD then 0x0d3d3e1a else if i == 0xBE then 0x1e6dcdee
    else 0xec064eed
  }

  function Part12(i: bv8): bv32 {
    if i == 0xC0 then 0xc38d26c4 else if i == 0xC1 then 0x31e6a5c7 else if i == 0xC2 then 0x22b65633
    else if i == 0xC3 then 0xd0ddd530 else if i == 0xC4 then 0x0417b1db else if i == 0xC5 then 0xf67c32d8
    else if i == 0xC6 then 0xe52cc12c else if i == 0xC7 then 0x1747422f else if i == 0xC8 then 0x49547e0b
    else if i == 0xC9 then 0xbb3ffd08 else if i == 0xCA then 0xa86f0efc else if i == 0xCB then 0x5a048dff
    else if i == 0xCC then 0x8ecee914 else if i == 0xCD then 0x7ca56a17 else if i == 0xCE then 0x6ff599e3
    else 0x9d9e1ae0
  }

  function Part13(i: bv8): bv32 {
    if i == 0xD0 then 0xd3d3e1ab else if i == 0xD1 then 0x21b862a8 else if i == 0xD2 then 0x32e8915c
    else if i == 0xD3 then 0xc083125f else if i == 0xD4 then 0x144976b4 else if i == 0xD5 then 0xe622f5b7
    else if i == 0xD6 then 0xf5720643 else if i == 0xD7 then 0x07198540 else if i == 0xD8 then 0x590ab964
    else if i == 0xD9 then 0xab613a67 else if i == 0xDA then 0xb831c993 else if i == 0xDB then 0x4a5a4a90
    else if i == 0xDC then 0x9e902e7b else if i == 0xDD then 0x6cfbad78 else if i == 0xDE then 0x7fab5e8c
    else 0x8dc0dd8f
  }

  function Part14(i: bv8): bv32 {
    if i == 0xE0 then 0xe330a81a else if i == 0xE1 then 0x115b2b19 else if i == 0xE2 then 0x020bd8ed
    else if i == 0xE3 then 0xf0605bee else if i == 0xE4 then 0x24aa3f05 else if i == 0xE5 then 0xd6c1bc06
    else if i == 0xE6 then 0xc5914ff2 else if i == 0xE7 then 0x37faccf1 else if i == 0xE8 then 0x69e9f0d5
    else if i == 0xE9 then 0x9b8273d6 else if i == 0xEA then 0x88d28022 else if i == 0xEB then 0x7ab90321
    else if i == 0xEC then 0xae7367ca else if i == 0xED then 0x5c18e4c9 else if i == 0xEE then 0x4f48173d
    else 0xbd23943e
  }

  function Part15(i: bv8): bv32 {
    if i == 0xF0 then 0xf36e6f75 else if i == 0xF1 then 0x0105ec76 else if i == 0xF2 then 0x12551f82
    else if i == 0xF3 then 0xe03e9c81 else if i == 0xF4 then 0x34f4f86a else if i == 0xF5 then 0xc69f7b69
    else if i == 0xF6 then 0xd5cf889d else if i == 0xF7 then 0x27a40b9e else if i == 0xF8 then 0x79b737ba
    else if i == 0xF9 then 0x8bdcb4b9 else if i == 0xFA then 0x988c474d else if i == 0xFB then 0x6ae7c44e
    else if i == 0xFC then 0xbe2da0a5 else if i == 0xFD then 0x4c4623a6 else if i == 0xFE then 0x5f16d052
    else 0xad7d5351
  }

  function Lookup(i: bv8): bv32 {
    if i < 0x10 then Part0(i) else if i < 0x20 then Part1(i) else if i < 0x30 then Part2(i) else if i < 0x40 then Part3(i)
    else if i < 0x50 then Part4(i) else if i < 0x60 then Part5(i) else if i < 0x70 then Part6(i) else if i < 0x80 then Part7(i)
    else if i < 0x90 then Part8(i) else if i < 0xA0 then Part9(i) else if i < 0xB0 then Part10(i) else if i < 0xC0 then Part11(i)
    else if i < 0xD0 then Part12(i) else if i < 0xE0 then Part13(i) else if i < 0xF0 then Part14(i) else Part15(i)
  }

  lemma Part0IsDivision(i: bv8)
    requires 0x00 <= i <= 0x0F
    ensures Part0(i) == ShiftByte(i as bv32)
  {
  }

  lemma Part1IsDivision(i: bv8)
    requires 0x10 <= i <= 0x1F
    ensures Part1(i) == ShiftByte(i as bv32)
  {
  }

  lemma Part2IsDivision(i: bv8)
    requires 0x20 <= i <= 0x2F
    ensures Part2(i) == ShiftByte(i as bv32)
  {
  }

  lemma Part3IsDivision(i: bv8)
    requires 0x30 <= i <= 0x3F
    ensures Part3(i) == ShiftByte(i as bv32)
  {
  }

  lemma Part4IsDivision(i: bv8)
    requires 0x40 <= i <= 0x4F
    ensures Part4(i) == ShiftByte(i as bv32)
  {
  }

  lemma Part5IsDivision(i: bv8)
    requires 0x50 <= i <= 0x5F
    ensures Part5(i) == ShiftByte(i as bv32)
  {
  }

  lemma Part6IsDivision(i: bv8)
    requires 0x60 <= i <= 0x6F
    ensures Part6(i) == ShiftByte(i as bv32)
  {
  }

  lemma Part7IsDivision(i: bv8)
    requires 0x70 <= i <= 0x7F
    ensures Part7(i) == ShiftByte(i as bv32)
  {
  }

  lemma Part8IsDivision(i: bv8)
    requires 0x80 <= i <= 0x8F
    ensures Part8(i) == ShiftByte(i as bv32)
  {
  }

  lemma Part9IsDivision(i: bv8)
    requires 0x90 <= i <= 0x9F
    ensures Part9(i) == ShiftByte(i as bv32)
  {
  }

  lemma Part10IsDivision(i: bv8)
    requires 0xA0 <= i <= 0xAF
    ensures Part10(i) == ShiftByte(i as bv32)
  {
  }

  lemma Part11IsDivision(i: bv8)
    requires 0xB0 <= i <= 0xBF
    ensures Part11(i) == ShiftByte(i as bv32)
  {
  }

  lemma Part12IsDivision(i: bv8)
    requires 0xC0 <= i <= 0xCF
    ensures Part12(i) == ShiftByte(i as bv32)
  {
  }

  lemma Part13IsDivision(i: bv8)
    requires 0xD0 <= i <= 0xDF
    ensures Part13(i) == ShiftByte(i as bv32)
  {
  }

  lemma Part14IsDivision(i: bv8)
    requires 0xE0 <= i <= 0xEF
    ensures Part14(i) == ShiftByte(i as bv32)
  {
  }

  lemma Part15IsDivision(i: bv8)
    requires 0xF0 <= i <= 0xFF
    ensures Part15(i) == ShiftByte(i as bv32)
  {
  }

  /** Each entry of the table is the remainder that its index leaves. */
  lemma TableIsDivision(i: bv8)
    ensures Lookup(i) == ShiftByte(i as bv32)
  {
    hide Part0, Part1, Part2, Part3, Part4, Part5, Part6, Part7;
    hide Part8, Part9, Part10, Part11, Part12, Part13, Part14, Part15, ShiftByte;
    if i < 0x10 {
      Part0IsDivision(i);
    } else if i < 0x20 {
      Part1IsDivision(i);
    } else if i < 0x30 {
      Part2IsDivision(i);
    } else if i < 0x40 {
      Part3IsDivision(i);
    } else if i < 0x50 {
      Part4IsDivision(i);
    } else if i < 0x60 {
      Part5IsDivision(i);
    } else if i < 0x70 {
      Part6IsDivision(i);
    } else if i < 0x80 {
      Part7IsDivision(i);
    } else if i < 0x90 {
      Part8IsDivision(i);
    } else if i < 0xA0 {
      Part9IsDivision(i);
    } else if i < 0xB0 {
      Part10IsDivision(i);
    } else if i < 0xC0 {
      Part11IsDivision(i);
    } else if i < 0xD0 {
      Part12IsDivision(i);
    } else if i < 0xE0 {
      Part13IsDivision(i);
    } else if i < 0xF0 {
      Part14IsDivision(i);
    } else {
      Part15IsDivision(i);
    }
  }
}
