/** The lookup table of the Ogg CRC engine and the reference definition it is
    checked against. */
module CrcTable {

  /** The generator polynomial named `poly` in `correct_checksum?`. */
  const Polynomial: bv32 := 0x04c11db7

  /** The lookup table `Page::CRC_LOOKUP`, value for value: entry `i` sits in
      row `i >> 4`, column `i & 15`. The table is laid out as sixteen
      rows of sixteen so that the verifier can evaluate an entry cheaply. */
  function CrcLookup(i: bv8): bv32 {
    match i >> 4
    case 0 => Row0(i & 15)
    case 1 => Row1(i & 15)
    case 2 => Row2(i & 15)
    case 3 => Row3(i & 15)
    case 4 => Row4(i & 15)
    case 5 => Row5(i & 15)
    case 6 => Row6(i & 15)
    case 7 => Row7(i & 15)
    case 8 => Row8(i & 15)
    case 9 => Row9(i & 15)
    case 10 => RowA(i & 15)
    case 11 => RowB(i & 15)
    case 12 => RowC(i & 15)
    case 13 => RowD(i & 15)
    case 14 => RowE(i & 15)
    case _ => RowF(i & 15)
  }

  function Row0(j: bv8): bv32 {
    match j
    case 0 => 0x00000000
    case 1 => 0x04c11db7
    case 2 => 0x09823b6e
    case 3 => 0x0d4326d9
    case 4 => 0x130476dc
    case 5 => 0x17c56b6b
    case 6 => 0x1a864db2
    case 7 => 0x1e475005
    case 8 => 0x2608edb8
    case 9 => 0x22c9f00f
    case 10 => 0x2f8ad6d6
    case 11 => 0x2b4bcb61
    case 12 => 0x350c9b64
    case 13 => 0x31cd86d3
    case 14 => 0x3c8ea00a
    case _ => 0x384fbdbd
  }

  function Row1(j: bv8): bv32 {
    match j
    case 0 => 0x4c11db70
    case 1 => 0x48d0c6c7
    case 2 => 0x4593e01e
    case 3 => 0x4152fda9
    case 4 => 0x5f15adac
    case 5 => 0x5bd4b01b
    case 6 => 0x569796c2
    case 7 => 0x52568b75
    case 8 => 0x6a1936c8
    case 9 => 0x6ed82b7f
    case 10 => 0x639b0da6
    case 11 => 0x675a1011
    case 12 => 0x791d4014
    case 13 => 0x7ddc5da3
    case 14 => 0x709f7b7a
    case _ => 0x745e66cd
  }

  function Row2(j: bv8): bv32 {
    match j
    case 0 => 0x9823b6e0
    case 1 => 0x9ce2ab57
    case 2 => 0x91a18d8e
    case 3 => 0x95609039
    case 4 => 0x8b27c03c
    case 5 => 0x8fe6dd8b
    case 6 => 0x82a5fb52
    case 7 => 0x8664e6e5
    case 8 => 0xbe2b5b58
    case 9 => 0xbaea46ef
    case 10 => 0xb7a96036
    case 11 => 0xb3687d81
    case 12 => 0xad2f2d84
    case 13 => 0xa9ee3033
    case 14 => 0xa4ad16ea
    case _ => 0xa06c0b5d
  }

  function Row3(j: bv8): bv32 {
    match j
    case 0 => 0xd4326d90
    case 1 => 0xd0f37027
    case 2 => 0xddb056fe
    case 3 => 0xd9714b49
    case 4 => 0xc7361b4c
    case 5 => 0xc3f706fb
    case 6 => 0xceb42022
    case 7 => 0xca753d95
    case 8 => 0xf23a8028
    case 9 => 0xf6fb9d9f
    case 10 => 0xfbb8bb46
    case 11 => 0xff79a6f1
    case 12 => 0xe13ef6f4
    case 13 => 0xe5ffeb43
    case 14 => 0xe8bccd9a
    case _ => 0xec7dd02d
  }

  function Row4(j: bv8): bv32 {
    match j
    case 0 => 0x34867077
    case 1 => 0x30476dc0
    case 2 => 0x3d044b19
    case 3 => 0x39c556ae
    case 4 => 0x278206ab
    case 5 => 0x23431b1c
    case 6 => 0x2e003dc5
    case 7 => 0x2ac12072
    case 8 => 0x128e9dcf
    case 9 => 0x164f8078
    case 10 => 0x1b0ca6a1
    case 11 => 0x1fcdbb16
    case 12 => 0x018aeb13
    case 13 => 0x054bf6a4
    case 14 => 0x0808d07d
    case _ => 0x0cc9cdca
  }

  function Row5(j: bv8): bv32 {
    match j
    case 0 => 0x7897ab07
    case 1 => 0x7c56b6b0
    case 2 => 0x71159069
    case 3 => 0x75d48dde
    case 4 => 0x6b93dddb
    case 5 => 0x6f52c06c
    case 6 => 0x6211e6b5
    case 7 => 0x66d0fb02
    case 8 => 0x5e9f46bf
    case 9 => 0x5a5e5b08
    case 10 => 0x571d7dd1
    case 11 => 0x53dc6066
    case 12 => 0x4d9b3063
    case 13 => 0x495a2dd4
    case 14 => 0x44190b0d
    case _ => 0x40d816ba
  }

  function Row6(j: bv8): bv32 {
    match j
    case 0 => 0xaca5c697
    case 1 => 0xa864db20
    case 2 => 0xa527fdf9
    case 3 => 0xa1e6e04e
    case 4 => 0xbfa1b04b
    case 5 => 0xbb60adfc
    case 6 => 0xb6238b25
    case 7 => 0xb2e29692
    case 8 => 0x8aad2b2f
    case 9 => 0x8e6c3698
    case 10 => 0x832f1041
    case 11 => 0x87ee0df6
    case 12 => 0x99a95df3
    case 13 => 0x9d684044
    case 14 => 0x902b669d
    case _ => 0x94ea7b2a
  }

  function Row7(j: bv8): bv32 {
    match j
    case 0 => 0xe0b41de7
    case 1 => 0xe4750050
    case 2 => 0xe9362689
    case 3 => 0xedf73b3e
    case 4 => 0xf3b06b3b
    case 5 => 0xf771768c
    case 6 => 0xfa325055
    case 7 => 0xfef34de2
    case 8 => 0xc6bcf05f
    case 9 => 0xc27dede8
    case 10 => 0xcf3ecb31
    case 11 => 0xcbffd686
    case 12 => 0xd5b88683
    case 13 => 0xd1799b34
    case 14 => 0xdc3abded
    case _ => 0xd8fba05a
  }

  function Row8(j: bv8): bv32 {
    match j
    case 0 => 0x690ce0ee
    case 1 => 0x6dcdfd59
    case 2 => 0x608edb80
    case 3 => 0x644fc637
    case 4 => 0x7a089632
    case 5 => 0x7ec98b85
    case 6 => 0x738aad5c
    case 7 => 0x774bb0eb
    case 8 => 0x4f040d56
    case 9 => 0x4bc510e1
    case 10 => 0x46863638
    case 11 => 0x42472b8f
    case 12 => 0x5c007b8a
    case 13 => 0x58c1663d
    case 14 => 0x558240e4
    case _ => 0x51435d53
  }

  function Row9(j: bv8): bv32 {
    match j
    case 0 => 0x251d3b9e
    case 1 => 0x21dc2629
    case 2 => 0x2c9f00f0
    case 3 => 0x285e1d47
    case 4 => 0x36194d42
    case 5 => 0x32d850f5
    case 6 => 0x3f9b762c
    case 7 => 0x3b5a6b9b
    case 8 => 0x0315d626
    case 9 => 0x07d4cb91
    case 10 => 0x0a97ed48
    case 11 => 0x0e56f0ff
    case 12 => 0x1011a0fa
    case 13 => 0x14d0bd4d
    case 14 => 0x19939b94
    case _ => 0x1d528623
  }

  function RowA(j: bv8): bv32 {
    match j
    case 0 => 0xf12f560e
    case 1 => 0xf5ee4bb9
    case 2 => 0xf8ad6d60
    case 3 => 0xfc6c70d7
    case 4 => 0xe22b20d2
    case 5 => 0xe6ea3d65
    case 6 => 0xeba91bbc
    case 7 => 0xef68060b
    case 8 => 0xd727bbb6
    case 9 => 0xd3e6a601
    case 10 => 0xdea580d8
    case 11 => 0xda649d6f
    case 12 => 0xc423cd6a
    case 13 => 0xc0e2d0dd
    case 14 => 0xcda1f604
    case _ => 0xc960ebb3
  }

  function RowB(j: bv8): bv32 {
    match j
    case 0 => 0xbd3e8d7e
    case 1 => 0xb9ff90c9
    case 2 => 0xb4bcb610
    case 3 => 0xb07daba7
    case 4 => 0xae3afba2
    case 5 => 0xaafbe615
    case 6 => 0xa7b8c0cc
    case 7 => 0xa379dd7b
    case 8 => 0x9b3660c6
    case 9 => 0x9ff77d71
    case 10 => 0x92b45ba8
    case 11 => 0x9675461f
    case 12 => 0x8832161a
    case 13 => 0x8cf30bad
    case 14 => 0x81b02d74
    case _ => 0x857130c3
  }

  function RowC(j: bv8): bv32 {
    match j
    case 0 => 0x5d8a9099
    case 1 => 0x594b8d2e
    case 2 => 0x5408abf7
    case 3 => 0x50c9b640
    case 4 => 0x4e8ee645
    case 5 => 0x4a4ffbf2
    case 6 => 0x470cdd2b
    case 7 => 0x43cdc09c
    case 8 => 0x7b827d21
    case 9 => 0x7f436096
    case 10 => 0x7200464f
    case 11 => 0x76c15bf8
    case 12 => 0x68860bfd
    case 13 => 0x6c47164a
    case 14 => 0x61043093
    case _ => 0x65c52d24
  }

  function RowD(j: bv8): bv32 {
    match j
    case 0 => 0x119b4be9
    case 1 => 0x155a565e
    case 2 => 0x18197087
    case 3 => 0x1cd86d30
    case 4 => 0x029f3d35
    case 5 => 0x065e2082
    case 6 => 0x0b1d065b
    case 7 => 0x0fdc1bec
    case 8 => 0x3793a651
    case 9 => 0x3352bbe6
    case 10 => 0x3e119d3f
    case 11 => 0x3ad08088
    case 12 => 0x2497d08d
    case 13 => 0x2056cd3a
    case 14 => 0x2d15ebe3
    case _ => 0x29d4f654
  }

  function RowE(j: bv8): bv32 {
    match j
    case 0 => 0xc5a92679
    case 1 => 0xc1683bce
    case 2 => 0xcc2b1d17
    case 3 => 0xc8ea00a0
    case 4 => 0xd6ad50a5
    case 5 => 0xd26c4d12
    case 6 => 0xdf2f6bcb
    case 7 => 0xdbee767c
    case 8 => 0xe3a1cbc1
    case 9 => 0xe760d676
    case 10 => 0xea23f0af
    case 11 => 0xeee2ed18
    case 12 => 0xf0a5bd1d
    case 13 => 0xf464a0aa
    case 14 => 0xf9278673
    case _ => 0xfde69bc4
  }

  function RowF(j: bv8): bv32 {
    match j
    case 0 => 0x89b8fd09
    case 1 => 0x8d79e0be
    case 2 => 0x803ac667
    case 3 => 0x84fbdbd0
    case 4 => 0x9abc8bd5
    case 5 => 0x9e7d9662
    case 6 => 0x933eb0bb
    case 7 => 0x97ffad0c
    case 8 => 0xafb010b1
    case 9 => 0xab710d06
    case 10 => 0xa6322bdf
    case 11 => 0xa2f33668
    case 12 => 0xbcb4666d
    case 13 => 0xb8757bda
    case 14 => 0xb5365d03
    case _ => 0xb1f740b4
  }

  // Reference definition of the table: entry i is what the bitwise
  // (shift-and-subtract) CRC register holds after shifting `i << 24` through
  // eight rounds of polynomial division.

  /** One bit of polynomial division: shift left, subtract the polynomial when
      the bit shifted out was set. */
  function Round(r: bv32): bv32 {
    if r & 0x8000_0000 != 0 then (r << 1) ^ Polynomial else r << 1
  }

  function ByteRounds(r: bv32): bv32 {
    Round(Round(Round(Round(Round(Round(Round(Round(r))))))))
  }

  function TableEntry(i: bv8): bv32 {
    ByteRounds((i as bv32) << 24)
  }

  // The table is checked 32 entries at a time.

  lemma EntriesFrom0(i: bv8)
    requires i >> 5 == 0
    ensures CrcLookup(i) == TableEntry(i)
  {
  }

  lemma EntriesFrom32(i: bv8)
    requires i >> 5 == 1
    ensures CrcLookup(i) == TableEntry(i)
  {
  }

  lemma EntriesFrom64(i: bv8)
    requires i >> 5 == 2
    ensures CrcLookup(i) == TableEntry(i)
  {
  }

  lemma EntriesFrom96(i: bv8)
    requires i >> 5 == 3
    ensures CrcLookup(i) == TableEntry(i)
  {
  }

  lemma EntriesFrom128(i: bv8)
    requires i >> 5 == 4
    ensures CrcLookup(i) == TableEntry(i)
  {
  }

  lemma EntriesFrom160(i: bv8)
    requires i >> 5 == 5
    ensures CrcLookup(i) == TableEntry(i)
  {
  }

  lemma EntriesFrom192(i: bv8)
    requires i >> 5 == 6
    ensures CrcLookup(i) == TableEntry(i)
  {
  }

  lemma EntriesFrom224(i: bv8)
    requires i >> 5 == 7
    ensures CrcLookup(i) == TableEntry(i)
  {
  }

  /** Every entry of `CRC_LOOKUP` is the bitwise CRC of its index shifted into
      the top byte; in particular T[0] = 0 and T[1] = 0x04c11db7. */
  lemma TableIsStandard()
    ensures forall i: bv8 :: CrcLookup(i) == TableEntry(i)
    ensures CrcLookup(0) == 0 && CrcLookup(1) == Polynomial
  {
    forall i: bv8
      ensures CrcLookup(i) == TableEntry(i)
    {
      if i >> 5 == 0 { EntriesFrom0(i); }
      else if i >> 5 == 1 { EntriesFrom32(i); }
      else if i >> 5 == 2 { EntriesFrom64(i); }
      else if i >> 5 == 3 { EntriesFrom96(i); }
      else if i >> 5 == 4 { EntriesFrom128(i); }
      else if i >> 5 == 5 { EntriesFrom160(i); }
      else if i >> 5 == 6 { EntriesFrom192(i); }
      else { EntriesFrom224(i); }
    }
  }
}
