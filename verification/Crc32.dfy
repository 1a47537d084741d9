/** The firmware checksum: a table-driven CRC-32 (polynomial 0xEDB88320, reflected) that starts at 0 and is not
    complemented. */
module Crc32 {

  // ---------------------------------------------------------------- the table

  function Row0(j: bv8): bv32 {
    if j == 0 then 0x00000000 else if j == 1 then 0x77073096 else if j == 2 then 0xee0e612c else
    if j == 3 then 0x990951ba else if j == 4 then 0x076dc419 else if j == 5 then 0x706af48f else
    if j == 6 then 0xe963a535 else if j == 7 then 0x9e6495a3 else if j == 8 then 0x0edb8832 else
    if j == 9 then 0x79dcb8a4 else if j == 10 then 0xe0d5e91e else if j == 11 then 0x97d2d988 else
    if j == 12 then 0x09b64c2b else if j == 13 then 0x7eb17cbd else if j == 14 then 0xe7b82d07 else
    0x90bf1d91
  }

  function Row1(j: bv8): bv32 {
    if j == 0 then 0x1db71064 else if j == 1 then 0x6ab020f2 else if j == 2 then 0xf3b97148 else
    if j == 3 then 0x84be41de else if j == 4 then 0x1adad47d else if j == 5 then 0x6ddde4eb else
    if j == 6 then 0xf4d4b551 else if j == 7 then 0x83d385c7 else if j == 8 then 0x136c9856 else
    if j == 9 then 0x646ba8c0 else if j == 10 then 0xfd62f97a else if j == 11 then 0x8a65c9ec else
    if j == 12 then 0x14015c4f else if j == 13 then 0x63066cd9 else if j == 14 then 0xfa0f3d63 else
    0x8d080df5
  }

  function Row2(j: bv8): bv32 {
    if j == 0 then 0x3b6e20c8 else if j == 1 then 0x4c69105e else if j == 2 then 0xd56041e4 else
    if j == 3 then 0xa2677172 else if j == 4 then 0x3c03e4d1 else if j == 5 then 0x4b04d447 else
    if j == 6 then 0xd20d85fd else if j == 7 then 0xa50ab56b else if j == 8 then 0x35b5a8fa else
    if j == 9 then 0x42b2986c else if j == 10 then 0xdbbbc9d6 else if j == 11 then 0xacbcf940 else
    if j == 12 then 0x32d86ce3 else if j == 13 then 0x45df5c75 else if j == 14 then 0xdcd60dcf else
    0xabd13d59
  }

  function Row3(j: bv8): bv32 {
    if j == 0 then 0x26d930ac else if j == 1 then 0x51de003a else if j == 2 then 0xc8d75180 else
    if j == 3 then 0xbfd06116 else if j == 4 then 0x21b4f4b5 else if j == 5 then 0x56b3c423 else
    if j == 6 then 0xcfba9599 else if j == 7 then 0xb8bda50f else if j == 8 then 0x2802b89e else
    if j == 9 then 0x5f058808 else if j == 10 then 0xc60cd9b2 else if j == 11 then 0xb10be924 else
    if j == 12 then 0x2f6f7c87 else if j == 13 then 0x58684c11 else if j == 14 then 0xc1611dab else
    0xb6662d3d
  }

  function Row4(j: bv8): bv32 {
    if j == 0 then 0x76dc4190 else if j == 1 then 0x01db7106 else if j == 2 then 0x98d220bc else
    if j == 3 then 0xefd5102a else if j == 4 then 0x71b18589 else if j == 5 then 0x06b6b51f else
    if j == 6 then 0x9fbfe4a5 else if j == 7 then 0xe8b8d433 else if j == 8 then 0x7807c9a2 else
    if j == 9 then 0x0f00f934 else if j == 10 then 0x9609a88e else if j == 11 then 0xe10e9818 else
    if j == 12 then 0x7f6a0dbb else if j == 13 then 0x086d3d2d else if j == 14 then 0x91646c97 else
    0xe6635c01
  }

  function Row5(j: bv8): bv32 {
    if j == 0 then 0x6b6b51f4 else if j == 1 then 0x1c6c6162 else if j == 2 then 0x856530d8 else
    if j == 3 then 0xf262004e else if j == 4 then 0x6c0695ed else if j == 5 then 0x1b01a57b else
    if j == 6 then 0x8208f4c1 else if j == 7 then 0xf50fc457 else if j == 8 then 0x65b0d9c6 else
    if j == 9 then 0x12b7e950 else if j == 10 then 0x8bbeb8ea else if j == 11 then 0xfcb9887c else
    if j == 12 then 0x62dd1ddf else if j == 13 then 0x15da2d49 else if j == 14 then 0x8cd37cf3 else
    0xfbd44c65
  }

  function Row6(j: bv8): bv32 {
    if j == 0 then 0x4db26158 else if j == 1 then 0x3ab551ce else if j == 2 then 0xa3bc0074 else
    if j == 3 then 0xd4bb30e2 else if j == 4 then 0x4adfa541 else if j == 5 then 0x3dd895d7 else
    if j == 6 then 0xa4d1c46d else if j == 7 then 0xd3d6f4fb else if j == 8 then 0x4369e96a else
    if j == 9 then 0x346ed9fc else if j == 10 then 0xad678846 else if j == 11 then 0xda60b8d0 else
    if j == 12 then 0x44042d73 else if j == 13 then 0x33031de5 else if j == 14 then 0xaa0a4c5f else
    0xdd0d7cc9
  }

  function Row7(j: bv8): bv32 {
    if j == 0 then 0x5005713c else if j == 1 then 0x270241aa else if j == 2 then 0xbe0b1010 else
    if j == 3 then 0xc90c2086 else if j == 4 then 0x5768b525 else if j == 5 then 0x206f85b3 else
    if j == 6 then 0xb966d409 else if j == 7 then 0xce61e49f else if j == 8 then 0x5edef90e else
    if j == 9 then 0x29d9c998 else if j == 10 then 0xb0d09822 else if j == 11 then 0xc7d7a8b4 else
    if j == 12 then 0x59b33d17 else if j == 13 then 0x2eb40d81 else if j == 14 then 0xb7bd5c3b else
    0xc0ba6cad
  }

  function Row8(j: bv8): bv32 {
    if j == 0 then 0xedb88320 else if j == 1 then 0x9abfb3b6 else if j == 2 then 0x03b6e20c else
    if j == 3 then 0x74b1d29a else if j == 4 then 0xead54739 else if j == 5 then 0x9dd277af else
    if j == 6 then 0x04db2615 else if j == 7 then 0x73dc1683 else if j == 8 then 0xe3630b12 else
    if j == 9 then 0x94643b84 else if j == 10 then 0x0d6d6a3e else if j == 11 then 0x7a6a5aa8 else
    if j == 12 then 0xe40ecf0b else if j == 13 then 0x9309ff9d else if j == 14 then 0x0a00ae27 else
    0x7d079eb1
  }

  function Row9(j: bv8): bv32 {
    if j == 0 then 0xf00f9344 else if j == 1 then 0x8708a3d2 else if j == 2 then 0x1e01f268 else
    if j == 3 then 0x6906c2fe else if j == 4 then 0xf762575d else if j == 5 then 0x806567cb else
    if j == 6 then 0x196c3671 else if j == 7 then 0x6e6b06e7 else if j == 8 then 0xfed41b76 else
    if j == 9 then 0x89d32be0 else if j == 10 then 0x10da7a5a else if j == 11 then 0x67dd4acc else
    if j == 12 then 0xf9b9df6f else if j == 13 then 0x8ebeeff9 else if j == 14 then 0x17b7be43 else
    0x60b08ed5
  }

  function RowA(j: bv8): bv32 {
    if j == 0 then 0xd6d6a3e8 else if j == 1 then 0xa1d1937e else if j == 2 then 0x38d8c2c4 else
    if j == 3 then 0x4fdff252 else if j == 4 then 0xd1bb67f1 else if j == 5 then 0xa6bc5767 else
    if j == 6 then 0x3fb506dd else if j == 7 then 0x48b2364b else if j == 8 then 0xd80d2bda else
    if j == 9 then 0xaf0a1b4c else if j == 10 then 0x36034af6 else if j == 11 then 0x41047a60 else
    if j == 12 then 0xdf60efc3 else if j == 13 then 0xa867df55 else if j == 14 then 0x316e8eef else
    0x4669be79
  }

  function RowB(j: bv8): bv32 {
    if j == 0 then 0xcb61b38c else if j == 1 then 0xbc66831a else if j == 2 then 0x256fd2a0 else
    if j == 3 then 0x5268e236 else if j == 4 then 0xcc0c7795 else if j == 5 then 0xbb0b4703 else
    if j == 6 then 0x220216b9 else if j == 7 then 0x5505262f else if j == 8 then 0xc5ba3bbe else
    if j == 9 then 0xb2bd0b28 else if j == 10 then 0x2bb45a92 else if j == 11 then 0x5cb36a04 else
    if j == 12 then 0xc2d7ffa7 else if j == 13 then 0xb5d0cf31 else if j == 14 then 0x2cd99e8b else
    0x5bdeae1d
  }

  function RowC(j: bv8): bv32 {
    if j == 0 then 0x9b64c2b0 else if j == 1 then 0xec63f226 else if j == 2 then 0x756aa39c else
    if j == 3 then 0x026d930a else if j == 4 then 0x9c0906a9 else if j == 5 then 0xeb0e363f else
    if j == 6 then 0x72076785 else if j == 7 then 0x05005713 else if j == 8 then 0x95bf4a82 else
    if j == 9 then 0xe2b87a14 else if j == 10 then 0x7bb12bae else if j == 11 then 0x0cb61b38 else
    if j == 12 then 0x92d28e9b else if j == 13 then 0xe5d5be0d else if j == 14 then 0x7cdcefb7 else
    0x0bdbdf21
  }

  function RowD(j: bv8): bv32 {
    if j == 0 then 0x86d3d2d4 else if j == 1 then 0xf1d4e242 else if j == 2 then 0x68ddb3f8 else
    if j == 3 then 0x1fda836e else if j == 4 then 0x81be16cd else if j == 5 then 0xf6b9265b else
    if j == 6 then 0x6fb077e1 else if j == 7 then 0x18b74777 else if j == 8 then 0x88085ae6 else
    if j == 9 then 0xff0f6a70 else if j == 10 then 0x66063bca else if j == 11 then 0x11010b5c else
    if j == 12 then 0x8f659eff else if j == 13 then 0xf862ae69 else if j == 14 then 0x616bffd3 else
    0x166ccf45
  }

  function RowE(j: bv8): bv32 {
    if j == 0 then 0xa00ae278 else if j == 1 then 0xd70dd2ee else if j == 2 then 0x4e048354 else
    if j == 3 then 0x3903b3c2 else if j == 4 then 0xa7672661 else if j == 5 then 0xd06016f7 else
    if j == 6 then 0x4969474d else if j == 7 then 0x3e6e77db else if j == 8 then 0xaed16a4a else
    if j == 9 then 0xd9d65adc else if j == 10 then 0x40df0b66 else if j == 11 then 0x37d83bf0 else
    if j == 12 then 0xa9bcae53 else if j == 13 then 0xdebb9ec5 else if j == 14 then 0x47b2cf7f else
    0x30b5ffe9
  }

  function RowF(j: bv8): bv32 {
    if j == 0 then 0xbdbdf21c else if j == 1 then 0xcabac28a else if j == 2 then 0x53b39330 else
    if j == 3 then 0x24b4a3a6 else if j == 4 then 0xbad03605 else if j == 5 then 0xcdd70693 else
    if j == 6 then 0x54de5729 else if j == 7 then 0x23d967bf else if j == 8 then 0xb3667a2e else
    if j == 9 then 0xc4614ab8 else if j == 10 then 0x5d681b02 else if j == 11 then 0x2a6f2b94 else
    if j == 12 then 0xb40bbe37 else if j == 13 then 0xc30c8ea1 else if j == 14 then 0x5a05df1b else
    0x2d02ef8d
  }

  function CrcTab(i: bv8): bv32 {
    var r, j := i >> 4, i & 0xf;
    if r == 0 then Row0(j) else
    if r == 1 then Row1(j) else
    if r == 2 then Row2(j) else
    if r == 3 then Row3(j) else
    if r == 4 then Row4(j) else
    if r == 5 then Row5(j) else
    if r == 6 then Row6(j) else
    if r == 7 then Row7(j) else
    if r == 8 then Row8(j) else
    if r == 9 then Row9(j) else
    if r == 10 then RowA(j) else
    if r == 11 then RowB(j) else
    if r == 12 then RowC(j) else
    if r == 13 then RowD(j) else
    if r == 14 then RowE(j) else
    RowF(j)
  }

  // ---------------------------------------------------------------- bits

  /** Shifts one bit out of the register and reduces by the polynomial. */
  function Shift(x: bv32): bv32 {
    if x & 1 == 1 then (x >> 1) ^ 0xEDB88320 else x >> 1
  }

  function Shift2(x: bv32): bv32 { Shift(Shift(x)) }

  function Shift4(x: bv32): bv32 { Shift2(Shift2(x)) }

  function Shift8(x: bv32): bv32 { Shift4(Shift4(x)) }

  lemma LowBit(x: bv32)
    ensures x & 1 == 0 || x & 1 == 1
  {
  }

  // A shift whose low bit is known takes one branch; with the whole low byte known, eight of them are plain moves.

  lemma HighBits0(x: bv32)
    requires x & 0xf == 0
    ensures Shift8(x) == Shift8(x & 0xff) ^ (x >> 8)
  {
    if x & 0xf0 == 0x00 { } else if x & 0xf0 == 0x10 { } else if x & 0xf0 == 0x20 { } else if x & 0xf0 == 0x30 { } else
    if x & 0xf0 == 0x40 { } else if x & 0xf0 == 0x50 { } else if x & 0xf0 == 0x60 { } else if x & 0xf0 == 0x70 { } else
    if x & 0xf0 == 0x80 { } else if x & 0xf0 == 0x90 { } else if x & 0xf0 == 0xa0 { } else if x & 0xf0 == 0xb0 { } else
    if x & 0xf0 == 0xc0 { } else if x & 0xf0 == 0xd0 { } else if x & 0xf0 == 0xe0 { } else { }
  }

  lemma HighBits1(x: bv32)
    requires x & 0xf == 1
    ensures Shift8(x) == Shift8(x & 0xff) ^ (x >> 8)
  {
    if x & 0xf0 == 0x00 { } else if x & 0xf0 == 0x10 { } else if x & 0xf0 == 0x20 { } else if x & 0xf0 == 0x30 { } else
    if x & 0xf0 == 0x40 { } else if x & 0xf0 == 0x50 { } else if x & 0xf0 == 0x60 { } else if x & 0xf0 == 0x70 { } else
    if x & 0xf0 == 0x80 { } else if x & 0xf0 == 0x90 { } else if x & 0xf0 == 0xa0 { } else if x & 0xf0 == 0xb0 { } else
    if x & 0xf0 == 0xc0 { } else if x & 0xf0 == 0xd0 { } else if x & 0xf0 == 0xe0 { } else { }
  }

  lemma HighBits2(x: bv32)
    requires x & 0xf == 2
    ensures Shift8(x) == Shift8(x & 0xff) ^ (x >> 8)
  {
    if x & 0xf0 == 0x00 { } else if x & 0xf0 == 0x10 { } else if x & 0xf0 == 0x20 { } else if x & 0xf0 == 0x30 { } else
    if x & 0xf0 == 0x40 { } else if x & 0xf0 == 0x50 { } else if x & 0xf0 == 0x60 { } else if x & 0xf0 == 0x70 { } else
    if x & 0xf0 == 0x80 { } else if x & 0xf0 == 0x90 { } else if x & 0xf0 == 0xa0 { } else if x & 0xf0 == 0xb0 { } else
    if x & 0xf0 == 0xc0 { } else if x & 0xf0 == 0xd0 { } else if x & 0xf0 == 0xe0 { } else { }
  }

  lemma HighBits3(x: bv32)
    requires x & 0xf == 3
    ensures Shift8(x) == Shift8(x & 0xff) ^ (x >> 8)
  {
    if x & 0xf0 == 0x00 { } else if x & 0xf0 == 0x10 { } else if x & 0xf0 == 0x20 { } else if x & 0xf0 == 0x30 { } else
    if x & 0xf0 == 0x40 { } else if x & 0xf0 == 0x50 { } else if x & 0xf0 == 0x60 { } else if x & 0xf0 == 0x70 { } else
    if x & 0xf0 == 0x80 { } else if x & 0xf0 == 0x90 { } else if x & 0xf0 == 0xa0 { } else if x & 0xf0 == 0xb0 { } else
    if x & 0xf0 == 0xc0 { } else if x & 0xf0 == 0xd0 { } else if x & 0xf0 == 0xe0 { } else { }
  }

  lemma HighBits4(x: bv32)
    requires x & 0xf == 4
    ensures Shift8(x) == Shift8(x & 0xff) ^ (x >> 8)
  {
    if x & 0xf0 == 0x00 { } else if x & 0xf0 == 0x10 { } else if x & 0xf0 == 0x20 { } else if x & 0xf0 == 0x30 { } else
    if x & 0xf0 == 0x40 { } else if x & 0xf0 == 0x50 { } else if x & 0xf0 == 0x60 { } else if x & 0xf0 == 0x70 { } else
    if x & 0xf0 == 0x80 { } else if x & 0xf0 == 0x90 { } else if x & 0xf0 == 0xa0 { } else if x & 0xf0 == 0xb0 { } else
    if x & 0xf0 == 0xc0 { } else if x & 0xf0 == 0xd0 { } else if x & 0xf0 == 0xe0 { } else { }
  }

  lemma HighBits5(x: bv32)
    requires x & 0xf == 5
    ensures Shift8(x) == Shift8(x & 0xff) ^ (x >> 8)
  {
    if x & 0xf0 == 0x00 { } else if x & 0xf0 == 0x10 { } else if x & 0xf0 == 0x20 { } else if x & 0xf0 == 0x30 { } else
    if x & 0xf0 == 0x40 { } else if x & 0xf0 == 0x50 { } else if x & 0xf0 == 0x60 { } else if x & 0xf0 == 0x70 { } else
    if x & 0xf0 == 0x80 { } else if x & 0xf0 == 0x90 { } else if x & 0xf0 == 0xa0 { } else if x & 0xf0 == 0xb0 { } else
    if x & 0xf0 == 0xc0 { } else if x & 0xf0 == 0xd0 { } else if x & 0xf0 == 0xe0 { } else { }
  }

  lemma HighBits6(x: bv32)
    requires x & 0xf == 6
    ensures Shift8(x) == Shift8(x & 0xff) ^ (x >> 8)
  {
    if x & 0xf0 == 0x00 { } else if x & 0xf0 == 0x10 { } else if x & 0xf0 == 0x20 { } else if x & 0xf0 == 0x30 { } else
    if x & 0xf0 == 0x40 { } else if x & 0xf0 == 0x50 { } else if x & 0xf0 == 0x60 { } else if x & 0xf0 == 0x70 { } else
    if x & 0xf0 == 0x80 { } else if x & 0xf0 == 0x90 { } else if x & 0xf0 == 0xa0 { } else if x & 0xf0 == 0xb0 { } else
    if x & 0xf0 == 0xc0 { } else if x & 0xf0 == 0xd0 { } else if x & 0xf0 == 0xe0 { } else { }
  }

  lemma HighBits7(x: bv32)
    requires x & 0xf == 7
    ensures Shift8(x) == Shift8(x & 0xff) ^ (x >> 8)
  {
    if x & 0xf0 == 0x00 { } else if x & 0xf0 == 0x10 { } else if x & 0xf0 == 0x20 { } else if x & 0xf0 == 0x30 { } else
    if x & 0xf0 == 0x40 { } else if x & 0xf0 == 0x50 { } else if x & 0xf0 == 0x60 { } else if x & 0xf0 == 0x70 { } else
    if x & 0xf0 == 0x80 { } else if x & 0xf0 == 0x90 { } else if x & 0xf0 == 0xa0 { } else if x & 0xf0 == 0xb0 { } else
    if x & 0xf0 == 0xc0 { } else if x & 0xf0 == 0xd0 { } else if x & 0xf0 == 0xe0 { } else { }
  }

  lemma HighBits8(x: bv32)
    requires x & 0xf == 8
    ensures Shift8(x) == Shift8(x & 0xff) ^ (x >> 8)
  {
    if x & 0xf0 == 0x00 { } else if x & 0xf0 == 0x10 { } else if x & 0xf0 == 0x20 { } else if x & 0xf0 == 0x30 { } else
    if x & 0xf0 == 0x40 { } else if x & 0xf0 == 0x50 { } else if x & 0xf0 == 0x60 { } else if x & 0xf0 == 0x70 { } else
    if x & 0xf0 == 0x80 { } else if x & 0xf0 == 0x90 { } else if x & 0xf0 == 0xa0 { } else if x & 0xf0 == 0xb0 { } else
    if x & 0xf0 == 0xc0 { } else if x & 0xf0 == 0xd0 { } else if x & 0xf0 == 0xe0 { } else { }
  }

  lemma HighBits9(x: bv32)
    requires x & 0xf == 9
    ensures Shift8(x) == Shift8(x & 0xff) ^ (x >> 8)
  {
    if x & 0xf0 == 0x00 { } else if x & 0xf0 == 0x10 { } else if x & 0xf0 == 0x20 { } else if x & 0xf0 == 0x30 { } else
    if x & 0xf0 == 0x40 { } else if x & 0xf0 == 0x50 { } else if x & 0xf0 == 0x60 { } else if x & 0xf0 == 0x70 { } else
    if x & 0xf0 == 0x80 { } else if x & 0xf0 == 0x90 { } else if x & 0xf0 == 0xa0 { } else if x & 0xf0 == 0xb0 { } else
    if x & 0xf0 == 0xc0 { } else if x & 0xf0 == 0xd0 { } else if x & 0xf0 == 0xe0 { } else { }
  }

  lemma HighBitsA(x: bv32)
    requires x & 0xf == 10
    ensures Shift8(x) == Shift8(x & 0xff) ^ (x >> 8)
  {
    if x & 0xf0 == 0x00 { } else if x & 0xf0 == 0x10 { } else if x & 0xf0 == 0x20 { } else if x & 0xf0 == 0x30 { } else
    if x & 0xf0 == 0x40 { } else if x & 0xf0 == 0x50 { } else if x & 0xf0 == 0x60 { } else if x & 0xf0 == 0x70 { } else
    if x & 0xf0 == 0x80 { } else if x & 0xf0 == 0x90 { } else if x & 0xf0 == 0xa0 { } else if x & 0xf0 == 0xb0 { } else
    if x & 0xf0 == 0xc0 { } else if x & 0xf0 == 0xd0 { } else if x & 0xf0 == 0xe0 { } else { }
  }

  lemma HighBitsB(x: bv32)
    requires x & 0xf == 11
    ensures Shift8(x) == Shift8(x & 0xff) ^ (x >> 8)
  {
    if x & 0xf0 == 0x00 { } else if x & 0xf0 == 0x10 { } else if x & 0xf0 == 0x20 { } else if x & 0xf0 == 0x30 { } else
    if x & 0xf0 == 0x40 { } else if x & 0xf0 == 0x50 { } else if x & 0xf0 == 0x60 { } else if x & 0xf0 == 0x70 { } else
    if x & 0xf0 == 0x80 { } else if x & 0xf0 == 0x90 { } else if x & 0xf0 == 0xa0 { } else if x & 0xf0 == 0xb0 { } else
    if x & 0xf0 == 0xc0 { } else if x & 0xf0 == 0xd0 { } else if x & 0xf0 == 0xe0 { } else { }
  }

  lemma HighBitsC(x: bv32)
    requires x & 0xf == 12
    ensures Shift8(x) == Shift8(x & 0xff) ^ (x >> 8)
  {
    if x & 0xf0 == 0x00 { } else if x & 0xf0 == 0x10 { } else if x & 0xf0 == 0x20 { } else if x & 0xf0 == 0x30 { } else
    if x & 0xf0 == 0x40 { } else if x & 0xf0 == 0x50 { } else if x & 0xf0 == 0x60 { } else if x & 0xf0 == 0x70 { } else
    if x & 0xf0 == 0x80 { } else if x & 0xf0 == 0x90 { } else if x & 0xf0 == 0xa0 { } else if x & 0xf0 == 0xb0 { } else
    if x & 0xf0 == 0xc0 { } else if x & 0xf0 == 0xd0 { } else if x & 0xf0 == 0xe0 { } else { }
  }

  lemma HighBitsD(x: bv32)
    requires x & 0xf == 13
    ensures Shift8(x) == Shift8(x & 0xff) ^ (x >> 8)
  {
    if x & 0xf0 == 0x00 { } else if x & 0xf0 == 0x10 { } else if x & 0xf0 == 0x20 { } else if x & 0xf0 == 0x30 { } else
    if x & 0xf0 == 0x40 { } else if x & 0xf0 == 0x50 { } else if x & 0xf0 == 0x60 { } else if x & 0xf0 == 0x70 { } else
    if x & 0xf0 == 0x80 { } else if x & 0xf0 == 0x90 { } else if x & 0xf0 == 0xa0 { } else if x & 0xf0 == 0xb0 { } else
    if x & 0xf0 == 0xc0 { } else if x & 0xf0 == 0xd0 { } else if x & 0xf0 == 0xe0 { } else { }
  }

  lemma HighBitsE(x: bv32)
    requires x & 0xf == 14
    ensures Shift8(x) == Shift8(x & 0xff) ^ (x >> 8)
  {
    if x & 0xf0 == 0x00 { } else if x & 0xf0 == 0x10 { } else if x & 0xf0 == 0x20 { } else if x & 0xf0 == 0x30 { } else
    if x & 0xf0 == 0x40 { } else if x & 0xf0 == 0x50 { } else if x & 0xf0 == 0x60 { } else if x & 0xf0 == 0x70 { } else
    if x & 0xf0 == 0x80 { } else if x & 0xf0 == 0x90 { } else if x & 0xf0 == 0xa0 { } else if x & 0xf0 == 0xb0 { } else
    if x & 0xf0 == 0xc0 { } else if x & 0xf0 == 0xd0 { } else if x & 0xf0 == 0xe0 { } else { }
  }

  lemma HighBitsF(x: bv32)
    requires x & 0xf == 15
    ensures Shift8(x) == Shift8(x & 0xff) ^ (x >> 8)
  {
    if x & 0xf0 == 0x00 { } else if x & 0xf0 == 0x10 { } else if x & 0xf0 == 0x20 { } else if x & 0xf0 == 0x30 { } else
    if x & 0xf0 == 0x40 { } else if x & 0xf0 == 0x50 { } else if x & 0xf0 == 0x60 { } else if x & 0xf0 == 0x70 { } else
    if x & 0xf0 == 0x80 { } else if x & 0xf0 == 0x90 { } else if x & 0xf0 == 0xa0 { } else if x & 0xf0 == 0xb0 { } else
    if x & 0xf0 == 0xc0 { } else if x & 0xf0 == 0xd0 { } else if x & 0xf0 == 0xe0 { } else { }
  }

  /** Bits above the low byte pass through eight shifts unchanged. */
  lemma HighBits(x: bv32)
    ensures Shift8(x) == Shift8(x & 0xff) ^ (x >> 8)
  {
    if x & 0xf == 0 {
      HighBits0(x);
    } else if x & 0xf == 1 {
      HighBits1(x);
    } else if x & 0xf == 2 {
      HighBits2(x);
    } else if x & 0xf == 3 {
      HighBits3(x);
    } else if x & 0xf == 4 {
      HighBits4(x);
    } else if x & 0xf == 5 {
      HighBits5(x);
    } else if x & 0xf == 6 {
      HighBits6(x);
    } else if x & 0xf == 7 {
      HighBits7(x);
    } else if x & 0xf == 8 {
      HighBits8(x);
    } else if x & 0xf == 9 {
      HighBits9(x);
    } else if x & 0xf == 10 {
      HighBitsA(x);
    } else if x & 0xf == 11 {
      HighBitsB(x);
    } else if x & 0xf == 12 {
      HighBitsC(x);
    } else if x & 0xf == 13 {
      HighBitsD(x);
    } else if x & 0xf == 14 {
      HighBitsE(x);
    } else {
      HighBitsF(x);
    }
  }

  lemma Row0IsGood(j: bv8)
    requires j < 16
    ensures Row0(j) == Shift8((j | 0x00) as bv32)
  {
  }

  lemma Row1IsGood(j: bv8)
    requires j < 16
    ensures Row1(j) == Shift8((j | 0x10) as bv32)
  {
  }

  lemma Row2IsGood(j: bv8)
    requires j < 16
    ensures Row2(j) == Shift8((j | 0x20) as bv32)
  {
  }

  lemma Row3IsGood(j: bv8)
    requires j < 16
    ensures Row3(j) == Shift8((j | 0x30) as bv32)
  {
  }

  lemma Row4IsGood(j: bv8)
    requires j < 16
    ensures Row4(j) == Shift8((j | 0x40) as bv32)
  {
  }

  lemma Row5IsGood(j: bv8)
    requires j < 16
    ensures Row5(j) == Shift8((j | 0x50) as bv32)
  {
  }

  lemma Row6IsGood(j: bv8)
    requires j < 16
    ensures Row6(j) == Shift8((j | 0x60) as bv32)
  {
  }

  lemma Row7IsGood(j: bv8)
    requires j < 16
    ensures Row7(j) == Shift8((j | 0x70) as bv32)
  {
  }

  lemma Row8IsGood(j: bv8)
    requires j < 16
    ensures Row8(j) == Shift8((j | 0x80) as bv32)
  {
  }

  lemma Row9IsGood(j: bv8)
    requires j < 16
    ensures Row9(j) == Shift8((j | 0x90) as bv32)
  {
  }

  lemma RowAIsGood(j: bv8)
    requires j < 16
    ensures RowA(j) == Shift8((j | 0xA0) as bv32)
  {
  }

  lemma RowBIsGood(j: bv8)
    requires j < 16
    ensures RowB(j) == Shift8((j | 0xB0) as bv32)
  {
  }

  lemma RowCIsGood(j: bv8)
    requires j < 16
    ensures RowC(j) == Shift8((j | 0xC0) as bv32)
  {
  }

  lemma RowDIsGood(j: bv8)
    requires j < 16
    ensures RowD(j) == Shift8((j | 0xD0) as bv32)
  {
  }

  lemma RowEIsGood(j: bv8)
    requires j < 16
    ensures RowE(j) == Shift8((j | 0xE0) as bv32)
  {
  }

  lemma RowFIsGood(j: bv8)
    requires j < 16
    ensures RowF(j) == Shift8((j | 0xF0) as bv32)
  {
  }

  lemma Nibbles(i: bv8, j: bv8, h: bv8)
    requires i >> 4 == h && i & 0xf == j
    ensures i == j | (h << 4) && j < 16
  {
  }

  /** The literal entry i. */
  lemma Entry(i: bv8)
    ensures CrcTab(i) == Shift8(i as bv32)
  {
    var h, j := i >> 4, i & 0xf;
    Nibbles(i, j, h);
    if h == 0 {
      Row0IsGood(j);
    } else if h == 1 {
      Row1IsGood(j);
    } else if h == 2 {
      Row2IsGood(j);
    } else if h == 3 {
      Row3IsGood(j);
    } else if h == 4 {
      Row4IsGood(j);
    } else if h == 5 {
      Row5IsGood(j);
    } else if h == 6 {
      Row6IsGood(j);
    } else if h == 7 {
      Row7IsGood(j);
    } else if h == 8 {
      Row8IsGood(j);
    } else if h == 9 {
      Row9IsGood(j);
    } else if h == 10 {
      RowAIsGood(j);
    } else if h == 11 {
      RowBIsGood(j);
    } else if h == 12 {
      RowCIsGood(j);
    } else if h == 13 {
      RowDIsGood(j);
    } else if h == 14 {
      RowEIsGood(j);
    } else {
      RowFIsGood(j);
    }
  }

  type Table = bv8 -> bv32

  /** Every entry is its index shifted through the polynomial eight times. */
  ghost predicate GoodTable(tab: Table) {
    forall i: bv8 :: tab(i) == Shift8(i as bv32)
  }

  lemma CrcTabIsGood()
    ensures GoodTable(CrcTab)
  {
    forall i: bv8 ensures CrcTab(i) == Shift8(i as bv32) {
      Entry(i);
    }
  }

  // ---------------------------------------------------------------- bytes

  function Index(s: bv32, b: bv8): bv8 { ((s ^ (b as bv32)) & 0xff) as bv8 }

  function Mix(v: bv32, s: bv32): bv32 { v ^ (s >> 8) }

  /** One byte through the table. */
  function Step(tab: Table, s: bv32, b: bv8): bv32 {
    Mix(tab(Index(s, b)), s)
  }

  function Crc(tab: Table, s: bv32, data: seq<bv8>): bv32
    decreases |data|
  {
    if data == [] then s else Crc(tab, Step(tab, s, data[0]), data[1..])
  }

  /** firmware.__crc32 */
  method ComputeCrc(tab: Table, data: seq<bv8>, state: bv32) returns (s: bv32)
    ensures s == Crc(tab, state, data)
  {
    s := state;
    for i := 0 to |data|
      invariant Crc(tab, s, data[i..]) == Crc(tab, state, data)
    {
      var index := ((s ^ (data[i] as bv32)) & 0xff) as bv8;
      assert data[i..][1..] == data[i + 1..];
      s := tab(index) ^ (s >> 8);
    }
  }

  lemma {:induction false} CrcAppend(tab: Table, s: bv32, a: seq<bv8>, b: seq<bv8>)
    ensures Crc(tab, s, a + b) == Crc(tab, Crc(tab, s, a), b)
    decreases |a|
  {
    if a == [] {
      assert a + b == b;
    } else {
      assert (a + b)[1..] == a[1..] + b;
      CrcAppend(tab, Step(tab, s, a[0]), a[1..], b);
    }
  }

  // ---------------------------------------------------------------- the serial reference

  /** One message bit, the low bit of w, enters the shift register. */
  function SerialBit(s: bv32, w: bv32): bv32 {
    if (s ^ w) & 1 == 1 then (s >> 1) ^ 0xEDB88320 else s >> 1
  }

  /** The n low bits of w, lowest first. */
  function SerialBits(s: bv32, w: bv32, n: nat): bv32
    decreases n, s
  {
    if n == 0 then s else SerialBits(SerialBit(s, w), w >> 1, n - 1)
  }

  /** The textbook bit-by-bit CRC. */
  function SerialCrc(s: bv32, data: seq<bv8>): bv32
    decreases |data|
  {
    if data == [] then s else SerialCrc(SerialBits(s, data[0] as bv32, 8), data[1..])
  }

  function ShiftN(x: bv32, n: nat): bv32
    decreases n, x
  {
    if n == 0 then x else ShiftN(Shift(x), n - 1)
  }

  lemma FourShifts(x: bv32, n: nat)
    ensures ShiftN(x, n + 4) == ShiftN(Shift4(x), n)
  {
    assert ShiftN(x, n + 4) == ShiftN(Shift(x), n + 3);
    assert ShiftN(Shift(x), n + 3) == ShiftN(Shift2(x), n + 2);
    assert ShiftN(Shift2(x), n + 2) == ShiftN(Shift(Shift2(x)), n + 1);
  }

  lemma EightShifts(x: bv32)
    ensures ShiftN(x, 8) == Shift8(x)
  {
    FourShifts(x, 4);
    FourShifts(Shift4(x), 0);
  }

  lemma SerialEven(s: bv32, w: bv32)
    requires (s ^ w) & 1 == 0
    ensures Shift(s ^ w) == SerialBit(s, w) ^ (w >> 1)
  {
  }

  lemma SerialOdd(s: bv32, w: bv32)
    requires (s ^ w) & 1 == 1
    ensures Shift(s ^ w) == SerialBit(s, w) ^ (w >> 1)
  {
  }

  lemma SerialBitIsShift(s: bv32, w: bv32)
    ensures Shift(s ^ w) == SerialBit(s, w) ^ (w >> 1)
  {
    LowBit(s ^ w);
    if (s ^ w) & 1 == 0 {
      SerialEven(s, w);
    } else {
      SerialOdd(s, w);
    }
  }

  /** w has at most n significant bits. */
  predicate Short(w: bv32, n: nat)
    decreases n, w
  {
    if n == 0 then w == 0 else Short(w >> 1, n - 1)
  }

  lemma {:induction false} SerialIsShifts(s: bv32, w: bv32, n: nat)
    requires Short(w, n)
    ensures SerialBits(s, w, n) == ShiftN(s ^ w, n)
    decreases n
  {
    if n > 0 {
      SerialBitIsShift(s, w);
      SerialIsShifts(SerialBit(s, w), w >> 1, n - 1);
    }
  }

  lemma ByteIsShort(w: bv32)
    requires w >> 8 == 0
    ensures Short(w, 8)
  {
    FourShort(w, 4);
    FourShort(w >> 4, 0);
    assert w >> 4 >> 4 == w >> 8;
  }

  lemma FourShort(w: bv32, n: nat)
    ensures Short(w, n + 4) == Short(w >> 4, n)
  {
    assert Short(w, n + 4) == Short(w >> 1, n + 3);
    assert Short(w >> 1, n + 3) == Short(w >> 1 >> 1, n + 2);
    assert Short(w >> 1 >> 1, n + 2) == Short(w >> 1 >> 1 >> 1, n + 1);
    assert w >> 1 >> 1 >> 1 >> 1 == w >> 4;
  }

  lemma IndexBits(s: bv32, b: bv8)
    ensures (Index(s, b) as bv32) == (s ^ (b as bv32)) & 0xff && (s ^ (b as bv32)) >> 8 == s >> 8
  {
  }

  lemma TableValue(tab: Table, i: bv8, y: bv32)
    requires GoodTable(tab) && (i as bv32) == y
    ensures tab(i) == Shift8(y)
  {
  }

  lemma StepEntry(tab: Table, s: bv32, b: bv8, x: bv32)
    requires GoodTable(tab) && x == s ^ (b as bv32)
    ensures tab(Index(s, b)) == Shift8(x & 0xff)
  {
    IndexBits(s, b);
    TableValue(tab, Index(s, b), x & 0xff);
  }

  lemma HighPart(s: bv32, b: bv8, x: bv32)
    requires x == s ^ (b as bv32)
    ensures x >> 8 == s >> 8
  {
  }

  lemma StepIsShifts(tab: Table, s: bv32, b: bv8, x: bv32)
    requires GoodTable(tab) && x == s ^ (b as bv32)
    ensures Step(tab, s, b) == Shift8(x)
  {
    StepEntry(tab, s, b, x);
    HighBits(x);
    HighPart(s, b, x);
  }

  lemma SerialByte(s: bv32, b: bv8)
    ensures SerialBits(s, b as bv32, 8) == Shift8(s ^ (b as bv32))
  {
    ByteIsShort(b as bv32);
    SerialIsShifts(s, b as bv32, 8);
    EightShifts(s ^ (b as bv32));
  }

  /** The table step advances the register by the eight bits of the byte. */
  lemma StepIsSerial(tab: Table, s: bv32, b: bv8)
    requires GoodTable(tab)
    ensures Step(tab, s, b) == SerialBits(s, b as bv32, 8)
  {
    StepIsShifts(tab, s, b, s ^ (b as bv32));
    SerialByte(s, b);
  }

  /** The table-driven CRC is the bit-by-bit CRC. */
  lemma {:induction false} CrcIsSerial(tab: Table, s: bv32, data: seq<bv8>)
    requires GoodTable(tab)
    ensures Crc(tab, s, data) == SerialCrc(s, data)
    decreases |data|
  {
    if data != [] {
      StepIsSerial(tab, s, data[0]);
      CrcIsSerial(tab, Step(tab, s, data[0]), data[1..]);
    }
  }

  // ---------------------------------------------------------------- error detection

  /** Names a pair of indices to compare; it holds of all. */
  predicate Compared(i: bv8, j: bv8) { true }

  /** The top byte of an entry determines its index. */
  ghost predicate TopInjective(tab: Table) {
    forall i: bv8, j: bv8 {:trigger Compared(i, j)} ::
      Compared(i, j) && tab(i) >> 24 == tab(j) >> 24 ==> i == j
  }

  lemma GoodIsInjective(tab: Table)
    requires GoodTable(tab)
    ensures TopInjective(tab)
  {
    forall i: bv8, j: bv8 | Compared(i, j) && tab(i) >> 24 == tab(j) >> 24 ensures i == j {
      TopByteOfShift(i, j);
    }
  }

  lemma TopByteOfShift(i: bv8, j: bv8)
    requires Shift8(i as bv32) >> 24 == Shift8(j as bv32) >> 24
    ensures i == j
  {
  }

  /** The registers agree in all but their n low bytes. */
  predicate Agree(n: nat, s: bv32, t: bv32) {
    if n == 0 then s == t
    else if n == 1 then s >> 8 == t >> 8
    else if n == 2 then s >> 16 == t >> 16
    else if n == 3 then s >> 24 == t >> 24
    else true
  }

  lemma AgreeLess(n: nat, s: bv32, t: bv32)
    requires n <= 3 && Agree(n, s, t)
    ensures Agree(3, s, t)
  {
  }

  lemma MixTop(v: bv32, s: bv32)
    ensures Mix(v, s) >> 24 == v >> 24
  {
  }

  /** Steps that agree in the top byte used the same entry. */
  lemma SameEntry(tab: Table, s: bv32, b: bv8, t: bv32, c: bv8)
    requires TopInjective(tab) && Agree(3, Step(tab, s, b), Step(tab, t, c))
    ensures Index(s, b) == Index(t, c)
  {
    MixTop(tab(Index(s, b)), s);
    MixTop(tab(Index(t, c)), t);
    assert Compared(Index(s, b), Index(t, c));
  }

  lemma Cancel0(v: bv32, s: bv32, t: bv32)
    requires Mix(v, s) == Mix(v, t)
    ensures s >> 8 == t >> 8
  {
  }

  lemma Cancel1(v: bv32, s: bv32, t: bv32)
    requires Mix(v, s) >> 8 == Mix(v, t) >> 8
    ensures s >> 16 == t >> 16
  {
  }

  lemma Cancel2(v: bv32, s: bv32, t: bv32)
    requires Mix(v, s) >> 16 == Mix(v, t) >> 16
    ensures s >> 24 == t >> 24
  {
  }

  /** What is left of the registers before the step when the entry cancels. */
  lemma Cancel(v: bv32, s: bv32, t: bv32, n: nat)
    requires n <= 2 && Agree(n, Mix(v, s), Mix(v, t))
    ensures Agree(n + 1, s, t)
  {
    if n == 0 {
      Cancel0(v, s, t);
    } else if n == 1 {
      Cancel1(v, s, t);
    } else {
      Cancel2(v, s, t);
    }
  }

  lemma SameByte(s: bv32, b: bv8, c: bv8)
    requires Index(s, b) == Index(s, c)
    ensures b == c
  {
  }

  lemma SameRegister(s: bv32, t: bv32, b: bv8)
    requires Index(s, b) == Index(t, b) && Agree(1, s, t)
    ensures s == t
  {
  }

  /** Going back over a step loses one byte of agreement, whatever the data. */
  lemma LastStep(tab: Table, s: bv32, b: bv8, t: bv32, c: bv8, n: nat)
    requires TopInjective(tab) && n <= 2 && Agree(n, Step(tab, s, b), Step(tab, t, c))
    ensures Agree(n + 1, s, t)
  {
    AgreeLess(n, Step(tab, s, b), Step(tab, t, c));
    SameEntry(tab, s, b, t, c);
    Cancel(tab(Index(s, b)), s, t, n);
  }

  lemma StepInjective(tab: Table, s: bv32, t: bv32, b: bv8)
    requires TopInjective(tab) && Step(tab, s, b) == Step(tab, t, b)
    ensures s == t
  {
    AgreeLess(0, Step(tab, s, b), Step(tab, t, b));
    SameEntry(tab, s, b, t, b);
    LastStep(tab, s, b, t, b, 0);
    SameRegister(s, t, b);
  }

  /** Equal data keeps different registers different. */
  lemma {:induction false} CrcInjective(tab: Table, s: bv32, t: bv32, data: seq<bv8>)
    requires TopInjective(tab) && Crc(tab, s, data) == Crc(tab, t, data)
    ensures s == t
    decreases |data|
  {
    if data != [] {
      CrcInjective(tab, Step(tab, s, data[0]), Step(tab, t, data[0]), data[1..]);
      StepInjective(tab, s, t, data[0]);
    }
  }

  lemma SameStep(tab: Table, s: bv32, b: bv8, c: bv8)
    requires TopInjective(tab) && Agree(3, Step(tab, s, b), Step(tab, s, c))
    ensures b == c
  {
    SameEntry(tab, s, b, s, c);
    SameByte(s, b, c);
  }

  lemma {:induction false} Back(tab: Table, s: bv32, t: bv32, b: seq<bv8>, c: seq<bv8>)
    requires TopInjective(tab) && |b| == |c| <= 3 && Crc(tab, s, b) == Crc(tab, t, c)
    ensures Agree(|b|, s, t)
    decreases |b|
  {
    if |b| > 0 {
      Back(tab, Step(tab, s, b[0]), Step(tab, t, c[0]), b[1..], c[1..]);
      LastStep(tab, s, b[0], t, c[0], |b| - 1);
    }
  }

  /** Up to four steps from one register are injective in the data. */
  lemma {:induction false} FourSteps(tab: Table, s: bv32, b: seq<bv8>, c: seq<bv8>)
    requires TopInjective(tab) && |b| == |c| <= 4 && Crc(tab, s, b) == Crc(tab, s, c)
    ensures b == c
    decreases |b|
  {
    if |b| > 0 {
      Back(tab, Step(tab, s, b[0]), Step(tab, s, c[0]), b[1..], c[1..]);
      AgreeLess(|b| - 1, Step(tab, s, b[0]), Step(tab, s, c[0]));
      SameStep(tab, s, b[0], c[0]);
      FourSteps(tab, Step(tab, s, b[0]), b[1..], c[1..]);
      assert b == [b[0]] + b[1..] && c == [c[0]] + c[1..];
    }
  }

  /** A change confined to four consecutive bytes always changes the CRC. */
  lemma BurstDetected(tab: Table, s: bv32, x: seq<bv8>, y: seq<bv8>, k: nat, n: nat)
    requires TopInjective(tab) && |x| == |y| && n <= 4 && k + n <= |x| && x != y
    requires x[..k] == y[..k] && x[k + n..] == y[k + n..]
    ensures Crc(tab, s, x) != Crc(tab, s, y)
  {
    var p, u, v, q := x[..k], x[k..k + n], y[k..k + n], x[k + n..];
    assert x == p + (u + q) && y == p + (v + q);
    var r := Crc(tab, s, p);
    CrcAppend(tab, s, p, u + q);
    CrcAppend(tab, s, p, v + q);
    CrcAppend(tab, r, u, q);
    CrcAppend(tab, r, v, q);
    if Crc(tab, s, x) == Crc(tab, s, y) {
      CrcInjective(tab, Crc(tab, r, u), Crc(tab, r, v), q);
      FourSteps(tab, r, u, v);
    }
  }
}
