/** The two table-driven checksums of fst_hash.c, proved equal to the bit-at-a-time
    definitions: the reflected CRC-32 of section 8 of RFC 1952 without its final
    complement, and the CRC with polynomial 0x1021. */
module Crc {
  import opened Bytes

  //////////////////////////////////////////////////////////////////////////
  // The definitions, one bit at a time.
  //////////////////////////////////////////////////////////////////////////

  function Bit32(c: bv32): bv32 {
    if c & 1 == 1 then (c >> 1) ^ 0xedb88320 else c >> 1
  }

  function Bits32(c: bv32): bv32 {
    Bit32(Bit32(Bit32(Bit32(Bit32(Bit32(Bit32(Bit32(c))))))))
  }

  function Xor32(a: bv32, b: bv32): bv32 { a ^ b }

  function Byte32(c: bv32, b: byte): bv32 {
    Bits32(Xor32(c, b as bv32))
  }

  function Crc32(c: bv32, data: seq<byte>): bv32
    decreases |data|
  {
    if data == [] then c else Crc32(Byte32(c, data[0]), data[1..])
  }

  function Bit16(c: bv16): bv16 {
    if c & 0x8000 == 0x8000 then (c << 1) ^ 0x1021 else c << 1
  }

  function Bits16(c: bv16): bv16 {
    Bit16(Bit16(Bit16(Bit16(Bit16(Bit16(Bit16(Bit16(c))))))))
  }

  function Xor16(a: bv16, b: bv16): bv16 { a ^ b }

  function Byte16(c: bv16, b: byte): bv16 {
    Bits16(Xor16(c, b as bv16 << 8))
  }

  function Crc16(c: bv16, data: seq<byte>): bv16
    decreases |data|
  {
    if data == [] then c else Crc16(Byte16(c, data[0]), data[1..])
  }

  lemma {:induction false} Crc32Append(c: bv32, a: seq<byte>, b: seq<byte>)
    ensures Crc32(c, a + b) == Crc32(Crc32(c, a), b)
    decreases |a|
  {
    hide Byte32;
    if a == [] {
      assert a + b == b;
    } else {
      assert (a + b)[1..] == a[1..] + b;
      Crc32Append(Byte32(c, a[0]), a[1..], b);
    }
  }

  //////////////////////////////////////////////////////////////////////////
  // The CRC-32 table.
  //////////////////////////////////////////////////////////////////////////

  function SmallTable(i: byte): bv32 {
    match i >> 4
    case 0 => (match i & 0x0f
      case 0 => 0x00000000 case 1 => 0x77073096 case 2 => 0xee0e612c case 3 => 0x990951ba
      case 4 => 0x076dc419 case 5 => 0x706af48f case 6 => 0xe963a535 case 7 => 0x9e6495a3
      case 8 => 0x0edb8832 case 9 => 0x79dcb8a4 case 10 => 0xe0d5e91e case 11 => 0x97d2d988
      case 12 => 0x09b64c2b case 13 => 0x7eb17cbd case 14 => 0xe7b82d07 case 15 => 0x90bf1d91)
    case 1 => (match i & 0x0f
      case 0 => 0x1db71064 case 1 => 0x6ab020f2 case 2 => 0xf3b97148 case 3 => 0x84be41de
      case 4 => 0x1adad47d case 5 => 0x6ddde4eb case 6 => 0xf4d4b551 case 7 => 0x83d385c7
      case 8 => 0x136c9856 case 9 => 0x646ba8c0 case 10 => 0xfd62f97a case 11 => 0x8a65c9ec
      case 12 => 0x14015c4f case 13 => 0x63066cd9 case 14 => 0xfa0f3d63 case 15 => 0x8d080df5)
    case 2 => (match i & 0x0f
      case 0 => 0x3b6e20c8 case 1 => 0x4c69105e case 2 => 0xd56041e4 case 3 => 0xa2677172
      case 4 => 0x3c03e4d1 case 5 => 0x4b04d447 case 6 => 0xd20d85fd case 7 => 0xa50ab56b
      case 8 => 0x35b5a8fa case 9 => 0x42b2986c case 10 => 0xdbbbc9d6 case 11 => 0xacbcf940
      case 12 => 0x32d86ce3 case 13 => 0x45df5c75 case 14 => 0xdcd60dcf case 15 => 0xabd13d59)
    case 3 => (match i & 0x0f
      case 0 => 0x26d930ac case 1 => 0x51de003a case 2 => 0xc8d75180 case 3 => 0xbfd06116
      case 4 => 0x21b4f4b5 case 5 => 0x56b3c423 case 6 => 0xcfba9599 case 7 => 0xb8bda50f
      case 8 => 0x2802b89e case 9 => 0x5f058808 case 10 => 0xc60cd9b2 case 11 => 0xb10be924
      case 12 => 0x2f6f7c87 case 13 => 0x58684c11 case 14 => 0xc1611dab case 15 => 0xb6662d3d)
    case 4 => (match i & 0x0f
      case 0 => 0x76dc4190 case 1 => 0x01db7106 case 2 => 0x98d220bc case 3 => 0xefd5102a
      case 4 => 0x71b18589 case 5 => 0x06b6b51f case 6 => 0x9fbfe4a5 case 7 => 0xe8b8d433
      case 8 => 0x7807c9a2 case 9 => 0x0f00f934 case 10 => 0x9609a88e case 11 => 0xe10e9818
      case 12 => 0x7f6a0dbb case 13 => 0x086d3d2d case 14 => 0x91646c97 case 15 => 0xe6635c01)
    case 5 => (match i & 0x0f
      case 0 => 0x6b6b51f4 case 1 => 0x1c6c6162 case 2 => 0x856530d8 case 3 => 0xf262004e
      case 4 => 0x6c0695ed case 5 => 0x1b01a57b case 6 => 0x8208f4c1 case 7 => 0xf50fc457
      case 8 => 0x65b0d9c6 case 9 => 0x12b7e950 case 10 => 0x8bbeb8ea case 11 => 0xfcb9887c
      case 12 => 0x62dd1ddf case 13 => 0x15da2d49 case 14 => 0x8cd37cf3 case 15 => 0xfbd44c65)
    case 6 => (match i & 0x0f
      case 0 => 0x4db26158 case 1 => 0x3ab551ce case 2 => 0xa3bc0074 case 3 => 0xd4bb30e2
      case 4 => 0x4adfa541 case 5 => 0x3dd895d7 case 6 => 0xa4d1c46d case 7 => 0xd3d6f4fb
      case 8 => 0x4369e96a case 9 => 0x346ed9fc case 10 => 0xad678846 case 11 => 0xda60b8d0
      case 12 => 0x44042d73 case 13 => 0x33031de5 case 14 => 0xaa0a4c5f case 15 => 0xdd0d7cc9)
    case 7 => (match i & 0x0f
      case 0 => 0x5005713c case 1 => 0x270241aa case 2 => 0xbe0b1010 case 3 => 0xc90c2086
      case 4 => 0x5768b525 case 5 => 0x206f85b3 case 6 => 0xb966d409 case 7 => 0xce61e49f
      case 8 => 0x5edef90e case 9 => 0x29d9c998 case 10 => 0xb0d09822 case 11 => 0xc7d7a8b4
      case 12 => 0x59b33d17 case 13 => 0x2eb40d81 case 14 => 0xb7bd5c3b case 15 => 0xc0ba6cad)
    case 8 => (match i & 0x0f
      case 0 => 0xedb88320 case 1 => 0x9abfb3b6 case 2 => 0x03b6e20c case 3 => 0x74b1d29a
      case 4 => 0xead54739 case 5 => 0x9dd277af case 6 => 0x04db2615 case 7 => 0x73dc1683
      case 8 => 0xe3630b12 case 9 => 0x94643b84 case 10 => 0x0d6d6a3e case 11 => 0x7a6a5aa8
      case 12 => 0xe40ecf0b case 13 => 0x9309ff9d case 14 => 0x0a00ae27 case 15 => 0x7d079eb1)
    case 9 => (match i & 0x0f
      case 0 => 0xf00f9344 case 1 => 0x8708a3d2 case 2 => 0x1e01f268 case 3 => 0x6906c2fe
      case 4 => 0xf762575d case 5 => 0x806567cb case 6 => 0x196c3671 case 7 => 0x6e6b06e7
      case 8 => 0xfed41b76 case 9 => 0x89d32be0 case 10 => 0x10da7a5a case 11 => 0x67dd4acc
      case 12 => 0xf9b9df6f case 13 => 0x8ebeeff9 case 14 => 0x17b7be43 case 15 => 0x60b08ed5)
    case 10 => (match i & 0x0f
      case 0 => 0xd6d6a3e8 case 1 => 0xa1d1937e case 2 => 0x38d8c2c4 case 3 => 0x4fdff252
      case 4 => 0xd1bb67f1 case 5 => 0xa6bc5767 case 6 => 0x3fb506dd case 7 => 0x48b2364b
      case 8 => 0xd80d2bda case 9 => 0xaf0a1b4c case 10 => 0x36034af6 case 11 => 0x41047a60
      case 12 => 0xdf60efc3 case 13 => 0xa867df55 case 14 => 0x316e8eef case 15 => 0x4669be79)
    case 11 => (match i & 0x0f
      case 0 => 0xcb61b38c case 1 => 0xbc66831a case 2 => 0x256fd2a0 case 3 => 0x5268e236
      case 4 => 0xcc0c7795 case 5 => 0xbb0b4703 case 6 => 0x220216b9 case 7 => 0x5505262f
      case 8 => 0xc5ba3bbe case 9 => 0xb2bd0b28 case 10 => 0x2bb45a92 case 11 => 0x5cb36a04
      case 12 => 0xc2d7ffa7 case 13 => 0xb5d0cf31 case 14 => 0x2cd99e8b case 15 => 0x5bdeae1d)
    case 12 => (match i & 0x0f
      case 0 => 0x9b64c2b0 case 1 => 0xec63f226 case 2 => 0x756aa39c case 3 => 0x026d930a
      case 4 => 0x9c0906a9 case 5 => 0xeb0e363f case 6 => 0x72076785 case 7 => 0x05005713
      case 8 => 0x95bf4a82 case 9 => 0xe2b87a14 case 10 => 0x7bb12bae case 11 => 0x0cb61b38
      case 12 => 0x92d28e9b case 13 => 0xe5d5be0d case 14 => 0x7cdcefb7 case 15 => 0x0bdbdf21)
    case 13 => (match i & 0x0f
      case 0 => 0x86d3d2d4 case 1 => 0xf1d4e242 case 2 => 0x68ddb3f8 case 3 => 0x1fda836e
      case 4 => 0x81be16cd case 5 => 0xf6b9265b case 6 => 0x6fb077e1 case 7 => 0x18b74777
      case 8 => 0x88085ae6 case 9 => 0xff0f6a70 case 10 => 0x66063bca case 11 => 0x11010b5c
      case 12 => 0x8f659eff case 13 => 0xf862ae69 case 14 => 0x616bffd3 case 15 => 0x166ccf45)
    case 14 => (match i & 0x0f
      case 0 => 0xa00ae278 case 1 => 0xd70dd2ee case 2 => 0x4e048354 case 3 => 0x3903b3c2
      case 4 => 0xa7672661 case 5 => 0xd06016f7 case 6 => 0x4969474d case 7 => 0x3e6e77db
      case 8 => 0xaed16a4a case 9 => 0xd9d65adc case 10 => 0x40df0b66 case 11 => 0x37d83bf0
      case 12 => 0xa9bcae53 case 13 => 0xdebb9ec5 case 14 => 0x47b2cf7f case 15 => 0x30b5ffe9)
    case 15 => (match i & 0x0f
      case 0 => 0xbdbdf21c case 1 => 0xcabac28a case 2 => 0x53b39330 case 3 => 0x24b4a3a6
      case 4 => 0xbad03605 case 5 => 0xcdd70693 case 6 => 0x54de5729 case 7 => 0x23d967bf
      case 8 => 0xb3667a2e case 9 => 0xc4614ab8 case 10 => 0x5d681b02 case 11 => 0x2a6f2b94
      case 12 => 0xb40bbe37 case 13 => 0xc30c8ea1 case 14 => 0x5a05df1b case 15 => 0x2d02ef8d)
  }

  lemma SmallTable0(i: byte)
    requires i >> 6 == 0
    ensures SmallTable(i) == Bits32(i as bv32)
  {
    match i >> 4
    case 0 =>
    case 1 =>
    case 2 =>
    case _ =>
  }

  lemma SmallTable1(i: byte)
    requires i >> 6 == 1
    ensures SmallTable(i) == Bits32(i as bv32)
  {
    match i >> 4
    case 4 =>
    case 5 =>
    case 6 =>
    case _ =>
  }

  lemma SmallTable2(i: byte)
    requires i >> 6 == 2
    ensures SmallTable(i) == Bits32(i as bv32)
  {
    match i >> 4
    case 8 =>
    case 9 =>
    case 10 =>
    case _ =>
  }

  lemma SmallTable3(i: byte)
    requires i >> 6 == 3
    ensures SmallTable(i) == Bits32(i as bv32)
  {
    match i >> 4
    case 12 =>
    case 13 =>
    case 14 =>
    case _ =>
  }

  /** Bits32 is linear, and only shifts while the low bits are zero. */
  lemma {:induction false} Bit32Xor(a: bv32, b: bv32)
    ensures Bit32(Xor32(a, b)) == Xor32(Bit32(a), Bit32(b))
  {
    Odd32(a);
    Odd32(b);
    ShiftXor32(a, b);
    Cancel32(a >> 1, b >> 1, 0xedb88320);
  }

  lemma Odd32(a: bv32)
    ensures a & 1 == 0 || a & 1 == 1
  {
  }

  lemma ShiftXor32(a: bv32, b: bv32)
    ensures (a ^ b) >> 1 == (a >> 1) ^ (b >> 1)
    ensures (a ^ b) & 1 == (a & 1) ^ (b & 1)
  {
  }

  lemma Cancel32(x: bv32, y: bv32, k: bv32)
    ensures (x ^ k) ^ (y ^ k) == x ^ y && (x ^ k) ^ y == (x ^ y) ^ k == x ^ (y ^ k)
  {
  }

  lemma {:induction false} Bits32Xor(a: bv32, b: bv32)
    ensures Bits32(Xor32(a, b)) == Xor32(Bits32(a), Bits32(b))
  {
    hide Bit32, Xor32;
    Bit32Xor(a, b);
    var a1, b1 := Bit32(a), Bit32(b);
    Bit32Xor(a1, b1);
    var a2, b2 := Bit32(a1), Bit32(b1);
    Bit32Xor(a2, b2);
    var a3, b3 := Bit32(a2), Bit32(b2);
    Bit32Xor(a3, b3);
    var a4, b4 := Bit32(a3), Bit32(b3);
    Bit32Xor(a4, b4);
    var a5, b5 := Bit32(a4), Bit32(b4);
    Bit32Xor(a5, b5);
    var a6, b6 := Bit32(a5), Bit32(b5);
    Bit32Xor(a6, b6);
    Bit32Xor(Bit32(a6), Bit32(b6));
  }

  lemma Shift32(h: bv32, k: bv32)
    requires k < 8
    ensures var x := (h & 0xffffff00) >> k; x & 1 == 0 && x >> 1 == (h & 0xffffff00) >> (k + 1)
  {
  }

  lemma Bits32High(c: bv32)
    ensures Bits32(c & 0xffffff00) == c >> 8
  {
    Shift32(c, 0);
    Shift32(c, 1);
    Shift32(c, 2);
    Shift32(c, 3);
    Shift32(c, 4);
    Shift32(c, 5);
    Shift32(c, 6);
    Shift32(c, 7);
  }

  lemma SmallTableIsBits(i: byte)
    ensures SmallTable(i) == Bits32(i as bv32)
  {
    hide SmallTable, Bits32;
    match i >> 6
    case 0 => SmallTable0(i);
    case 1 => SmallTable1(i);
    case 2 => SmallTable2(i);
    case 3 => SmallTable3(i);
  }

  function SmallByte(c: bv32, b: byte): bv32 {
    Xor32(SmallTable(b ^ (c & 0xff) as byte), c >> 8)
  }

  lemma Split32(c: bv32, b: byte)
    ensures Xor32(c, b as bv32) == Xor32((b ^ (c & 0xff) as byte) as bv32, c & 0xffffff00)
  {
  }

  /** One table step is eight bit steps. */
  lemma {:induction false} SmallByteIsBits(c: bv32, b: byte)
    ensures SmallByte(c, b) == Byte32(c, b)
  {
    hide SmallTable, Bits32, Xor32;
    SmallTableIsBits(b ^ (c & 0xff) as byte);
    Split32(c, b);
    Bits32Xor((b ^ (c & 0xff) as byte) as bv32, c & 0xffffff00);
    Bits32High(c);
  }

  /** fst_hash_small. */
  method Small(smallhash: bv32, data: seq<byte>) returns (h: bv32)
    ensures h == Crc32(smallhash, data)
  {
    hide SmallByte, Byte32;
    h := smallhash;
    for i := 0 to |data|
      invariant Crc32(h, data[i..]) == Crc32(smallhash, data)
    {
      SmallByteIsBits(h, data[i]);
      assert data[i..][1..] == data[i + 1..];
      h := SmallByte(h, data[i]);
    }
  }

  //////////////////////////////////////////////////////////////////////////
  // The 0x1021 table.
  //////////////////////////////////////////////////////////////////////////

  function ChecksumTable(i: byte): bv16 {
    match i >> 4
    case 0 => (match i & 0x0f
      case 0 => 0x0000 case 1 => 0x1021 case 2 => 0x2042 case 3 => 0x3063
      case 4 => 0x4084 case 5 => 0x50a5 case 6 => 0x60c6 case 7 => 0x70e7
      case 8 => 0x8108 case 9 => 0x9129 case 10 => 0xa14a case 11 => 0xb16b
      case 12 => 0xc18c case 13 => 0xd1ad case 14 => 0xe1ce case 15 => 0xf1ef)
    case 1 => (match i & 0x0f
      case 0 => 0x1231 case 1 => 0x0210 case 2 => 0x3273 case 3 => 0x2252
      case 4 => 0x52b5 case 5 => 0x4294 case 6 => 0x72f7 case 7 => 0x62d6
      case 8 => 0x9339 case 9 => 0x8318 case 10 => 0xb37b case 11 => 0xa35a
      case 12 => 0xd3bd case 13 => 0xc39c case 14 => 0xf3ff case 15 => 0xe3de)
    case 2 => (match i & 0x0f
      case 0 => 0x2462 case 1 => 0x3443 case 2 => 0x0420 case 3 => 0x1401
      case 4 => 0x64e6 case 5 => 0x74c7 case 6 => 0x44a4 case 7 => 0x5485
      case 8 => 0xa56a case 9 => 0xb54b case 10 => 0x8528 case 11 => 0x9509
      case 12 => 0xe5ee case 13 => 0xf5cf case 14 => 0xc5ac case 15 => 0xd58d)
    case 3 => (match i & 0x0f
      case 0 => 0x3653 case 1 => 0x2672 case 2 => 0x1611 case 3 => 0x0630
      case 4 => 0x76d7 case 5 => 0x66f6 case 6 => 0x5695 case 7 => 0x46b4
      case 8 => 0xb75b case 9 => 0xa77a case 10 => 0x9719 case 11 => 0x8738
      case 12 => 0xf7df case 13 => 0xe7fe case 14 => 0xd79d case 15 => 0xc7bc)
    case 4 => (match i & 0x0f
      case 0 => 0x48c4 case 1 => 0x58e5 case 2 => 0x6886 case 3 => 0x78a7
      case 4 => 0x0840 case 5 => 0x1861 case 6 => 0x2802 case 7 => 0x3823
      case 8 => 0xc9cc case 9 => 0xd9ed case 10 => 0xe98e case 11 => 0xf9af
      case 12 => 0x8948 case 13 => 0x9969 case 14 => 0xa90a case 15 => 0xb92b)
    case 5 => (match i & 0x0f
      case 0 => 0x5af5 case 1 => 0x4ad4 case 2 => 0x7ab7 case 3 => 0x6a96
      case 4 => 0x1a71 case 5 => 0x0a50 case 6 => 0x3a33 case 7 => 0x2a12
      case 8 => 0xdbfd case 9 => 0xcbdc case 10 => 0xfbbf case 11 => 0xeb9e
      case 12 => 0x9b79 case 13 => 0x8b58 case 14 => 0xbb3b case 15 => 0xab1a)
    case 6 => (match i & 0x0f
      case 0 => 0x6ca6 case 1 => 0x7c87 case 2 => 0x4ce4 case 3 => 0x5cc5
      case 4 => 0x2c22 case 5 => 0x3c03 case 6 => 0x0c60 case 7 => 0x1c41
      case 8 => 0xedae case 9 => 0xfd8f case 10 => 0xcdec case 11 => 0xddcd
      case 12 => 0xad2a case 13 => 0xbd0b case 14 => 0x8d68 case 15 => 0x9d49)
    case 7 => (match i & 0x0f
      case 0 => 0x7e97 case 1 => 0x6eb6 case 2 => 0x5ed5 case 3 => 0x4ef4
      case 4 => 0x3e13 case 5 => 0x2e32 case 6 => 0x1e51 case 7 => 0x0e70
      case 8 => 0xff9f case 9 => 0xefbe case 10 => 0xdfdd case 11 => 0xcffc
      case 12 => 0xbf1b case 13 => 0xaf3a case 14 => 0x9f59 case 15 => 0x8f78)
    case 8 => (match i & 0x0f
      case 0 => 0x9188 case 1 => 0x81a9 case 2 => 0xb1ca case 3 => 0xa1eb
      case 4 => 0xd10c case 5 => 0xc12d case 6 => 0xf14e case 7 => 0xe16f
      case 8 => 0x1080 case 9 => 0x00a1 case 10 => 0x30c2 case 11 => 0x20e3
      case 12 => 0x5004 case 13 => 0x4025 case 14 => 0x7046 case 15 => 0x6067)
    case 9 => (match i & 0x0f
      case 0 => 0x83b9 case 1 => 0x9398 case 2 => 0xa3fb case 3 => 0xb3da
      case 4 => 0xc33d case 5 => 0xd31c case 6 => 0xe37f case 7 => 0xf35e
      case 8 => 0x02b1 case 9 => 0x1290 case 10 => 0x22f3 case 11 => 0x32d2
      case 12 => 0x4235 case 13 => 0x5214 case 14 => 0x6277 case 15 => 0x7256)
    case 10 => (match i & 0x0f
      case 0 => 0xb5ea case 1 => 0xa5cb case 2 => 0x95a8 case 3 => 0x8589
      case 4 => 0xf56e case 5 => 0xe54f case 6 => 0xd52c case 7 => 0xc50d
      case 8 => 0x34e2 case 9 => 0x24c3 case 10 => 0x14a0 case 11 => 0x0481
      case 12 => 0x7466 case 13 => 0x6447 case 14 => 0x5424 case 15 => 0x4405)
    case 11 => (match i & 0x0f
      case 0 => 0xa7db case 1 => 0xb7fa case 2 => 0x8799 case 3 => 0x97b8
      case 4 => 0xe75f case 5 => 0xf77e case 6 => 0xc71d case 7 => 0xd73c
      case 8 => 0x26d3 case 9 => 0x36f2 case 10 => 0x0691 case 11 => 0x16b0
      case 12 => 0x6657 case 13 => 0x7676 case 14 => 0x4615 case 15 => 0x5634)
    case 12 => (match i & 0x0f
      case 0 => 0xd94c case 1 => 0xc96d case 2 => 0xf90e case 3 => 0xe92f
      case 4 => 0x99c8 case 5 => 0x89e9 case 6 => 0xb98a case 7 => 0xa9ab
      case 8 => 0x5844 case 9 => 0x4865 case 10 => 0x7806 case 11 => 0x6827
      case 12 => 0x18c0 case 13 => 0x08e1 case 14 => 0x3882 case 15 => 0x28a3)
    case 13 => (match i & 0x0f
      case 0 => 0xcb7d case 1 => 0xdb5c case 2 => 0xeb3f case 3 => 0xfb1e
      case 4 => 0x8bf9 case 5 => 0x9bd8 case 6 => 0xabbb case 7 => 0xbb9a
      case 8 => 0x4a75 case 9 => 0x5a54 case 10 => 0x6a37 case 11 => 0x7a16
      case 12 => 0x0af1 case 13 => 0x1ad0 case 14 => 0x2ab3 case 15 => 0x3a92)
    case 14 => (match i & 0x0f
      case 0 => 0xfd2e case 1 => 0xed0f case 2 => 0xdd6c case 3 => 0xcd4d
      case 4 => 0xbdaa case 5 => 0xad8b case 6 => 0x9de8 case 7 => 0x8dc9
      case 8 => 0x7c26 case 9 => 0x6c07 case 10 => 0x5c64 case 11 => 0x4c45
      case 12 => 0x3ca2 case 13 => 0x2c83 case 14 => 0x1ce0 case 15 => 0x0cc1)
    case 15 => (match i & 0x0f
      case 0 => 0xef1f case 1 => 0xff3e case 2 => 0xcf5d case 3 => 0xdf7c
      case 4 => 0xaf9b case 5 => 0xbfba case 6 => 0x8fd9 case 7 => 0x9ff8
      case 8 => 0x6e17 case 9 => 0x7e36 case 10 => 0x4e55 case 11 => 0x5e74
      case 12 => 0x2e93 case 13 => 0x3eb2 case 14 => 0x0ed1 case 15 => 0x1ef0)
  }

  lemma ChecksumTable0(i: byte)
    requires i >> 6 == 0
    ensures ChecksumTable(i) == Bits16(i as bv16 << 8)
  {
    match i >> 4
    case 0 =>
    case 1 =>
    case 2 =>
    case _ =>
  }

  lemma ChecksumTable1(i: byte)
    requires i >> 6 == 1
    ensures ChecksumTable(i) == Bits16(i as bv16 << 8)
  {
    match i >> 4
    case 4 =>
    case 5 =>
    case 6 =>
    case _ =>
  }

  lemma ChecksumTable2(i: byte)
    requires i >> 6 == 2
    ensures ChecksumTable(i) == Bits16(i as bv16 << 8)
  {
    match i >> 4
    case 8 =>
    case 9 =>
    case 10 =>
    case _ =>
  }

  lemma ChecksumTable3(i: byte)
    requires i >> 6 == 3
    ensures ChecksumTable(i) == Bits16(i as bv16 << 8)
  {
    match i >> 4
    case 12 =>
    case 13 =>
    case 14 =>
    case _ =>
  }

  lemma {:induction false} Bit16Xor(a: bv16, b: bv16)
    ensures Bit16(Xor16(a, b)) == Xor16(Bit16(a), Bit16(b))
  {
    Top16(a);
    Top16(b);
    ShiftXor16(a, b);
    Cancel16(a << 1, b << 1, 0x1021);
  }

  lemma Top16(a: bv16)
    ensures a & 0x8000 == 0 || a & 0x8000 == 0x8000
  {
  }

  lemma ShiftXor16(a: bv16, b: bv16)
    ensures (a ^ b) << 1 == (a << 1) ^ (b << 1)
    ensures (a ^ b) & 0x8000 == (a & 0x8000) ^ (b & 0x8000)
  {
  }

  lemma Cancel16(x: bv16, y: bv16, k: bv16)
    ensures (x ^ k) ^ (y ^ k) == x ^ y && (x ^ k) ^ y == (x ^ y) ^ k == x ^ (y ^ k)
  {
  }

  lemma {:induction false} Bits16Xor(a: bv16, b: bv16)
    ensures Bits16(Xor16(a, b)) == Xor16(Bits16(a), Bits16(b))
  {
    hide Bit16, Xor16;
    Bit16Xor(a, b);
    var a1, b1 := Bit16(a), Bit16(b);
    Bit16Xor(a1, b1);
    var a2, b2 := Bit16(a1), Bit16(b1);
    Bit16Xor(a2, b2);
    var a3, b3 := Bit16(a2), Bit16(b2);
    Bit16Xor(a3, b3);
    var a4, b4 := Bit16(a3), Bit16(b3);
    Bit16Xor(a4, b4);
    var a5, b5 := Bit16(a4), Bit16(b4);
    Bit16Xor(a5, b5);
    var a6, b6 := Bit16(a5), Bit16(b5);
    Bit16Xor(a6, b6);
    Bit16Xor(Bit16(a6), Bit16(b6));
  }

  lemma Shift16(l: bv16, k: bv16)
    requires k < 8
    ensures var x := (l & 0xff) << k; x & 0x8000 == 0 && x << 1 == (l & 0xff) << (k + 1)
  {
  }

  lemma Bits16Low(c: bv16)
    ensures Bits16(c & 0xff) == c << 8
  {
    Shift16(c, 0);
    Shift16(c, 1);
    Shift16(c, 2);
    Shift16(c, 3);
    Shift16(c, 4);
    Shift16(c, 5);
    Shift16(c, 6);
    Shift16(c, 7);
  }

  lemma ChecksumTableIsBits(i: byte)
    ensures ChecksumTable(i) == Bits16(i as bv16 << 8)
  {
    hide ChecksumTable, Bits16;
    match i >> 6
    case 0 => ChecksumTable0(i);
    case 1 => ChecksumTable1(i);
    case 2 => ChecksumTable2(i);
    case 3 => ChecksumTable3(i);
  }

  function ChecksumByte(c: bv16, b: byte): bv16 {
    Xor16(ChecksumTable(b ^ (c >> 8) as byte), c << 8)
  }

  lemma Split16(c: bv16, b: byte)
    ensures Xor16(c, b as bv16 << 8) == Xor16((b ^ (c >> 8) as byte) as bv16 << 8, c & 0xff)
  {
  }

  lemma {:induction false} ChecksumByteIsBits(c: bv16, b: byte)
    ensures ChecksumByte(c, b) == Byte16(c, b)
  {
    hide ChecksumTable, Bits16, Xor16;
    ChecksumTableIsBits(b ^ (c >> 8) as byte);
    Split16(c, b);
    Bits16Xor((b ^ (c >> 8) as byte) as bv16 << 8, c & 0xff);
    Bits16Low(c);
  }

  lemma FourteenBits(c: bv16)
    ensures c & 0x3fff < 0x4000
  {
  }

  lemma NextCrc16(c: bv16, s: seq<byte>, i: nat)
    requires i < |s|
    ensures Crc16(c, s[i..]) == Crc16(ChecksumByte(c, s[i]), s[i + 1..])
  {
    hide ChecksumByte, Byte16;
    ChecksumByteIsBits(c, s[i]);
    assert s[i..][1..] == s[i + 1..];
  }

  lemma NoMoreCrc16(c: bv16)
    ensures Crc16(c, []) == c
  {
  }

  /** fst_hash_checksum over the fthash bytes. */
  method Checksum(fthash: seq<byte>) returns (sum: bv16)
    ensures sum == Crc16(0, fthash) & 0x3fff < 0x4000
  {
    hide ChecksumByte, Crc16;
    var c := 0;
    assert fthash[0..] == fthash;
    for i := 0 to |fthash|
      invariant Crc16(c, fthash[i..]) == Crc16(0, fthash)
    {
      NextCrc16(c, fthash, i);
      c := ChecksumByte(c, fthash[i]);
    }
    assert fthash[|fthash|..] == [];
    NoMoreCrc16(c);
    sum := c & 0x3fff;
    FourteenBits(c);
  }
}
