/**
  The table crc32_tab, entry by entry, and the proof that it is the table of section 8 of RFC 1952.
 */
module CrcTable {
  import opened GenimageFile
  import opened Crc32

  // ---------------------------------------------------------------- the table

  /** crc32_tab[16 * r + c]. */
  function Tab(r: nat, c: nat): bv32 {
    match r
    case 0 => (match c
      case 0 => 0x00000000 case 1 => 0x77073096 case 2 => 0xee0e612c case 3 => 0x990951ba
      case 4 => 0x076dc419 case 5 => 0x706af48f case 6 => 0xe963a535 case 7 => 0x9e6495a3
      case 8 => 0x0edb8832 case 9 => 0x79dcb8a4 case 10 => 0xe0d5e91e case 11 => 0x97d2d988
      case 12 => 0x09b64c2b case 13 => 0x7eb17cbd case 14 => 0xe7b82d07 case _ => 0x90bf1d91)
    case 1 => (match c
      case 0 => 0x1db71064 case 1 => 0x6ab020f2 case 2 => 0xf3b97148 case 3 => 0x84be41de
      case 4 => 0x1adad47d case 5 => 0x6ddde4eb case 6 => 0xf4d4b551 case 7 => 0x83d385c7
      case 8 => 0x136c9856 case 9 => 0x646ba8c0 case 10 => 0xfd62f97a case 11 => 0x8a65c9ec
      case 12 => 0x14015c4f case 13 => 0x63066cd9 case 14 => 0xfa0f3d63 case _ => 0x8d080df5)
    case 2 => (match c
      case 0 => 0x3b6e20c8 case 1 => 0x4c69105e case 2 => 0xd56041e4 case 3 => 0xa2677172
      case 4 => 0x3c03e4d1 case 5 => 0x4b04d447 case 6 => 0xd20d85fd case 7 => 0xa50ab56b
      case 8 => 0x35b5a8fa case 9 => 0x42b2986c case 10 => 0xdbbbc9d6 case 11 => 0xacbcf940
      case 12 => 0x32d86ce3 case 13 => 0x45df5c75 case 14 => 0xdcd60dcf case _ => 0xabd13d59)
    case 3 => (match c
      case 0 => 0x26d930ac case 1 => 0x51de003a case 2 => 0xc8d75180 case 3 => 0xbfd06116
      case 4 => 0x21b4f4b5 case 5 => 0x56b3c423 case 6 => 0xcfba9599 case 7 => 0xb8bda50f
      case 8 => 0x2802b89e case 9 => 0x5f058808 case 10 => 0xc60cd9b2 case 11 => 0xb10be924
      case 12 => 0x2f6f7c87 case 13 => 0x58684c11 case 14 => 0xc1611dab case _ => 0xb6662d3d)
    case 4 => (match c
      case 0 => 0x76dc4190 case 1 => 0x01db7106 case 2 => 0x98d220bc case 3 => 0xefd5102a
      case 4 => 0x71b18589 case 5 => 0x06b6b51f case 6 => 0x9fbfe4a5 case 7 => 0xe8b8d433
      case 8 => 0x7807c9a2 case 9 => 0x0f00f934 case 10 => 0x9609a88e case 11 => 0xe10e9818
      case 12 => 0x7f6a0dbb case 13 => 0x086d3d2d case 14 => 0x91646c97 case _ => 0xe6635c01)
    case 5 => (match c
      case 0 => 0x6b6b51f4 case 1 => 0x1c6c6162 case 2 => 0x856530d8 case 3 => 0xf262004e
      case 4 => 0x6c0695ed case 5 => 0x1b01a57b case 6 => 0x8208f4c1 case 7 => 0xf50fc457
      case 8 => 0x65b0d9c6 case 9 => 0x12b7e950 case 10 => 0x8bbeb8ea case 11 => 0xfcb9887c
      case 12 => 0x62dd1ddf case 13 => 0x15da2d49 case 14 => 0x8cd37cf3 case _ => 0xfbd44c65)
    case 6 => (match c
      case 0 => 0x4db26158 case 1 => 0x3ab551ce case 2 => 0xa3bc0074 case 3 => 0xd4bb30e2
      case 4 => 0x4adfa541 case 5 => 0x3dd895d7 case 6 => 0xa4d1c46d case 7 => 0xd3d6f4fb
      case 8 => 0x4369e96a case 9 => 0x346ed9fc case 10 => 0xad678846 case 11 => 0xda60b8d0
      case 12 => 0x44042d73 case 13 => 0x33031de5 case 14 => 0xaa0a4c5f case _ => 0xdd0d7cc9)
    case 7 => (match c
      case 0 => 0x5005713c case 1 => 0x270241aa case 2 => 0xbe0b1010 case 3 => 0xc90c2086
      case 4 => 0x5768b525 case 5 => 0x206f85b3 case 6 => 0xb966d409 case 7 => 0xce61e49f
      case 8 => 0x5edef90e case 9 => 0x29d9c998 case 10 => 0xb0d09822 case 11 => 0xc7d7a8b4
      case 12 => 0x59b33d17 case 13 => 0x2eb40d81 case 14 => 0xb7bd5c3b case _ => 0xc0ba6cad)
    case 8 => (match c
      case 0 => 0xedb88320 case 1 => 0x9abfb3b6 case 2 => 0x03b6e20c case 3 => 0x74b1d29a
      case 4 => 0xead54739 case 5 => 0x9dd277af case 6 => 0x04db2615 case 7 => 0x73dc1683
      case 8 => 0xe3630b12 case 9 => 0x94643b84 case 10 => 0x0d6d6a3e case 11 => 0x7a6a5aa8
      case 12 => 0xe40ecf0b case 13 => 0x9309ff9d case 14 => 0x0a00ae27 case _ => 0x7d079eb1)
    case 9 => (match c
      case 0 => 0xf00f9344 case 1 => 0x8708a3d2 case 2 => 0x1e01f268 case 3 => 0x6906c2fe
      case 4 => 0xf762575d case 5 => 0x806567cb case 6 => 0x196c3671 case 7 => 0x6e6b06e7
      case 8 => 0xfed41b76 case 9 => 0x89d32be0 case 10 => 0x10da7a5a case 11 => 0x67dd4acc
      case 12 => 0xf9b9df6f case 13 => 0x8ebeeff9 case 14 => 0x17b7be43 case _ => 0x60b08ed5)
    case 10 => (match c
      case 0 => 0xd6d6a3e8 case 1 => 0xa1d1937e case 2 => 0x38d8c2c4 case 3 => 0x4fdff252
      case 4 => 0xd1bb67f1 case 5 => 0xa6bc5767 case 6 => 0x3fb506dd case 7 => 0x48b2364b
      case 8 => 0xd80d2bda case 9 => 0xaf0a1b4c case 10 => 0x36034af6 case 11 => 0x41047a60
      case 12 => 0xdf60efc3 case 13 => 0xa867df55 case 14 => 0x316e8eef case _ => 0x4669be79)
    case 11 => (match c
      case 0 => 0xcb61b38c case 1 => 0xbc66831a case 2 => 0x256fd2a0 case 3 => 0x5268e236
      case 4 => 0xcc0c7795 case 5 => 0xbb0b4703 case 6 => 0x220216b9 case 7 => 0x5505262f
      case 8 => 0xc5ba3bbe case 9 => 0xb2bd0b28 case 10 => 0x2bb45a92 case 11 => 0x5cb36a04
      case 12 => 0xc2d7ffa7 case 13 => 0xb5d0cf31 case 14 => 0x2cd99e8b case _ => 0x5bdeae1d)
    case 12 => (match c
      case 0 => 0x9b64c2b0 case 1 => 0xec63f226 case 2 => 0x756aa39c case 3 => 0x026d930a
      case 4 => 0x9c0906a9 case 5 => 0xeb0e363f case 6 => 0x72076785 case 7 => 0x05005713
      case 8 => 0x95bf4a82 case 9 => 0xe2b87a14 case 10 => 0x7bb12bae case 11 => 0x0cb61b38
      case 12 => 0x92d28e9b case 13 => 0xe5d5be0d case 14 => 0x7cdcefb7 case _ => 0x0bdbdf21)
    case 13 => (match c
      case 0 => 0x86d3d2d4 case 1 => 0xf1d4e242 case 2 => 0x68ddb3f8 case 3 => 0x1fda836e
      case 4 => 0x81be16cd case 5 => 0xf6b9265b case 6 => 0x6fb077e1 case 7 => 0x18b74777
      case 8 => 0x88085ae6 case 9 => 0xff0f6a70 case 10 => 0x66063bca case 11 => 0x11010b5c
      case 12 => 0x8f659eff case 13 => 0xf862ae69 case 14 => 0x616bffd3 case _ => 0x166ccf45)
    case 14 => (match c
      case 0 => 0xa00ae278 case 1 => 0xd70dd2ee case 2 => 0x4e048354 case 3 => 0x3903b3c2
      case 4 => 0xa7672661 case 5 => 0xd06016f7 case 6 => 0x4969474d case 7 => 0x3e6e77db
      case 8 => 0xaed16a4a case 9 => 0xd9d65adc case 10 => 0x40df0b66 case 11 => 0x37d83bf0
      case 12 => 0xa9bcae53 case 13 => 0xdebb9ec5 case 14 => 0x47b2cf7f case _ => 0x30b5ffe9)
    case _ => (match c
      case 0 => 0xbdbdf21c case 1 => 0xcabac28a case 2 => 0x53b39330 case 3 => 0x24b4a3a6
      case 4 => 0xbad03605 case 5 => 0xcdd70693 case 6 => 0x54de5729 case 7 => 0x23d967bf
      case 8 => 0xb3667a2e case 9 => 0xc4614ab8 case 10 => 0x5d681b02 case 11 => 0x2a6f2b94
      case 12 => 0xb40bbe37 case 13 => 0xc30c8ea1 case 14 => 0x5a05df1b case _ => 0x2d02ef8d)
  }

  /** One bit step on a machine word. */
  function Step(c: bv32): bv32 {
    if c & 1 != 0 then (c >> 1) ^ 0xEDB88320 else c >> 1
  }

  /** One bit step leads from the entry at (r, c) to the one at (x, y). */
  predicate EvenAt(r: nat, c: nat, x: nat, y: nat) {
    Step(Tab(r, c)) == Tab(x, y)
  }

  /** The entry behind the one at (r, c) differs from it by entry 1. */
  predicate OddAt(r: nat, c: nat) {
    Tab(r, c + 1) == Tab(r, c) ^ Tab(0, 1)
  }

  /** p holds wherever the table is tied so; the triggers keep the table out of the proofs about p. */
  ghost predicate FollowsEven(p: (nat, nat, nat, nat) -> bool) {
    forall r, c, x, y {:trigger EvenAt(r, c, x, y)} :: EvenAt(r, c, x, y) ==> p(r, c, x, y)
  }

  ghost predicate FollowsOdd(p: (nat, nat) -> bool) {
    forall r, c {:trigger OddAt(r, c)} :: OddAt(r, c) ==> p(r, c)
  }

  lemma Even0(p: (nat, nat, nat, nat) -> bool)
    requires FollowsEven(p)
    ensures p(0, 0, 0, 0) && p(0, 2, 0, 1) && p(0, 4, 0, 2) && p(0, 6, 0, 3)
    ensures p(0, 8, 0, 4) && p(0, 10, 0, 5) && p(0, 12, 0, 6) && p(0, 14, 0, 7)
  {
    assert EvenAt(0, 0, 0, 0) && EvenAt(0, 2, 0, 1) && EvenAt(0, 4, 0, 2) && EvenAt(0, 6, 0, 3);
    assert EvenAt(0, 8, 0, 4) && EvenAt(0, 10, 0, 5) && EvenAt(0, 12, 0, 6) && EvenAt(0, 14, 0, 7);
  }

  lemma Even1(p: (nat, nat, nat, nat) -> bool)
    requires FollowsEven(p)
    ensures p(1, 0, 0, 8) && p(1, 2, 0, 9) && p(1, 4, 0, 10) && p(1, 6, 0, 11)
    ensures p(1, 8, 0, 12) && p(1, 10, 0, 13) && p(1, 12, 0, 14) && p(1, 14, 0, 15)
  {
    assert EvenAt(1, 0, 0, 8) && EvenAt(1, 2, 0, 9) && EvenAt(1, 4, 0, 10) && EvenAt(1, 6, 0, 11);
    assert EvenAt(1, 8, 0, 12) && EvenAt(1, 10, 0, 13) && EvenAt(1, 12, 0, 14) && EvenAt(1, 14, 0, 15);
  }

  lemma Even2(p: (nat, nat, nat, nat) -> bool)
    requires FollowsEven(p)
    ensures p(2, 0, 1, 0) && p(2, 2, 1, 1) && p(2, 4, 1, 2) && p(2, 6, 1, 3)
    ensures p(2, 8, 1, 4) && p(2, 10, 1, 5) && p(2, 12, 1, 6) && p(2, 14, 1, 7)
  {
    assert EvenAt(2, 0, 1, 0) && EvenAt(2, 2, 1, 1) && EvenAt(2, 4, 1, 2) && EvenAt(2, 6, 1, 3);
    assert EvenAt(2, 8, 1, 4) && EvenAt(2, 10, 1, 5) && EvenAt(2, 12, 1, 6) && EvenAt(2, 14, 1, 7);
  }

  lemma Even3(p: (nat, nat, nat, nat) -> bool)
    requires FollowsEven(p)
    ensures p(3, 0, 1, 8) && p(3, 2, 1, 9) && p(3, 4, 1, 10) && p(3, 6, 1, 11)
    ensures p(3, 8, 1, 12) && p(3, 10, 1, 13) && p(3, 12, 1, 14) && p(3, 14, 1, 15)
  {
    assert EvenAt(3, 0, 1, 8) && EvenAt(3, 2, 1, 9) && EvenAt(3, 4, 1, 10) && EvenAt(3, 6, 1, 11);
    assert EvenAt(3, 8, 1, 12) && EvenAt(3, 10, 1, 13) && EvenAt(3, 12, 1, 14) && EvenAt(3, 14, 1, 15);
  }

  lemma Even4(p: (nat, nat, nat, nat) -> bool)
    requires FollowsEven(p)
    ensures p(4, 0, 2, 0) && p(4, 2, 2, 1) && p(4, 4, 2, 2) && p(4, 6, 2, 3)
    ensures p(4, 8, 2, 4) && p(4, 10, 2, 5) && p(4, 12, 2, 6) && p(4, 14, 2, 7)
  {
    assert EvenAt(4, 0, 2, 0) && EvenAt(4, 2, 2, 1) && EvenAt(4, 4, 2, 2) && EvenAt(4, 6, 2, 3);
    assert EvenAt(4, 8, 2, 4) && EvenAt(4, 10, 2, 5) && EvenAt(4, 12, 2, 6) && EvenAt(4, 14, 2, 7);
  }

  lemma Even5(p: (nat, nat, nat, nat) -> bool)
    requires FollowsEven(p)
    ensures p(5, 0, 2, 8) && p(5, 2, 2, 9) && p(5, 4, 2, 10) && p(5, 6, 2, 11)
    ensures p(5, 8, 2, 12) && p(5, 10, 2, 13) && p(5, 12, 2, 14) && p(5, 14, 2, 15)
  {
    assert EvenAt(5, 0, 2, 8) && EvenAt(5, 2, 2, 9) && EvenAt(5, 4, 2, 10) && EvenAt(5, 6, 2, 11);
    assert EvenAt(5, 8, 2, 12) && EvenAt(5, 10, 2, 13) && EvenAt(5, 12, 2, 14) && EvenAt(5, 14, 2, 15);
  }

  lemma Even6(p: (nat, nat, nat, nat) -> bool)
    requires FollowsEven(p)
    ensures p(6, 0, 3, 0) && p(6, 2, 3, 1) && p(6, 4, 3, 2) && p(6, 6, 3, 3)
    ensures p(6, 8, 3, 4) && p(6, 10, 3, 5) && p(6, 12, 3, 6) && p(6, 14, 3, 7)
  {
    assert EvenAt(6, 0, 3, 0) && EvenAt(6, 2, 3, 1) && EvenAt(6, 4, 3, 2) && EvenAt(6, 6, 3, 3);
    assert EvenAt(6, 8, 3, 4) && EvenAt(6, 10, 3, 5) && EvenAt(6, 12, 3, 6) && EvenAt(6, 14, 3, 7);
  }

  lemma Even7(p: (nat, nat, nat, nat) -> bool)
    requires FollowsEven(p)
    ensures p(7, 0, 3, 8) && p(7, 2, 3, 9) && p(7, 4, 3, 10) && p(7, 6, 3, 11)
    ensures p(7, 8, 3, 12) && p(7, 10, 3, 13) && p(7, 12, 3, 14) && p(7, 14, 3, 15)
  {
    assert EvenAt(7, 0, 3, 8) && EvenAt(7, 2, 3, 9) && EvenAt(7, 4, 3, 10) && EvenAt(7, 6, 3, 11);
    assert EvenAt(7, 8, 3, 12) && EvenAt(7, 10, 3, 13) && EvenAt(7, 12, 3, 14) && EvenAt(7, 14, 3, 15);
  }

  lemma Even8(p: (nat, nat, nat, nat) -> bool)
    requires FollowsEven(p)
    ensures p(8, 0, 4, 0) && p(8, 2, 4, 1) && p(8, 4, 4, 2) && p(8, 6, 4, 3)
    ensures p(8, 8, 4, 4) && p(8, 10, 4, 5) && p(8, 12, 4, 6) && p(8, 14, 4, 7)
  {
    assert EvenAt(8, 0, 4, 0) && EvenAt(8, 2, 4, 1) && EvenAt(8, 4, 4, 2) && EvenAt(8, 6, 4, 3);
    assert EvenAt(8, 8, 4, 4) && EvenAt(8, 10, 4, 5) && EvenAt(8, 12, 4, 6) && EvenAt(8, 14, 4, 7);
  }

  lemma Even9(p: (nat, nat, nat, nat) -> bool)
    requires FollowsEven(p)
    ensures p(9, 0, 4, 8) && p(9, 2, 4, 9) && p(9, 4, 4, 10) && p(9, 6, 4, 11)
    ensures p(9, 8, 4, 12) && p(9, 10, 4, 13) && p(9, 12, 4, 14) && p(9, 14, 4, 15)
  {
    assert EvenAt(9, 0, 4, 8) && EvenAt(9, 2, 4, 9) && EvenAt(9, 4, 4, 10) && EvenAt(9, 6, 4, 11);
    assert EvenAt(9, 8, 4, 12) && EvenAt(9, 10, 4, 13) && EvenAt(9, 12, 4, 14) && EvenAt(9, 14, 4, 15);
  }

  lemma Even10(p: (nat, nat, nat, nat) -> bool)
    requires FollowsEven(p)
    ensures p(10, 0, 5, 0) && p(10, 2, 5, 1) && p(10, 4, 5, 2) && p(10, 6, 5, 3)
    ensures p(10, 8, 5, 4) && p(10, 10, 5, 5) && p(10, 12, 5, 6) && p(10, 14, 5, 7)
  {
    assert EvenAt(10, 0, 5, 0) && EvenAt(10, 2, 5, 1) && EvenAt(10, 4, 5, 2) && EvenAt(10, 6, 5, 3);
    assert EvenAt(10, 8, 5, 4) && EvenAt(10, 10, 5, 5) && EvenAt(10, 12, 5, 6) && EvenAt(10, 14, 5, 7);
  }

  lemma Even11(p: (nat, nat, nat, nat) -> bool)
    requires FollowsEven(p)
    ensures p(11, 0, 5, 8) && p(11, 2, 5, 9) && p(11, 4, 5, 10) && p(11, 6, 5, 11)
    ensures p(11, 8, 5, 12) && p(11, 10, 5, 13) && p(11, 12, 5, 14) && p(11, 14, 5, 15)
  {
    assert EvenAt(11, 0, 5, 8) && EvenAt(11, 2, 5, 9) && EvenAt(11, 4, 5, 10) && EvenAt(11, 6, 5, 11);
    assert EvenAt(11, 8, 5, 12) && EvenAt(11, 10, 5, 13) && EvenAt(11, 12, 5, 14) && EvenAt(11, 14, 5, 15);
  }

  lemma Even12(p: (nat, nat, nat, nat) -> bool)
    requires FollowsEven(p)
    ensures p(12, 0, 6, 0) && p(12, 2, 6, 1) && p(12, 4, 6, 2) && p(12, 6, 6, 3)
    ensures p(12, 8, 6, 4) && p(12, 10, 6, 5) && p(12, 12, 6, 6) && p(12, 14, 6, 7)
  {
    assert EvenAt(12, 0, 6, 0) && EvenAt(12, 2, 6, 1) && EvenAt(12, 4, 6, 2) && EvenAt(12, 6, 6, 3);
    assert EvenAt(12, 8, 6, 4) && EvenAt(12, 10, 6, 5) && EvenAt(12, 12, 6, 6) && EvenAt(12, 14, 6, 7);
  }

  lemma Even13(p: (nat, nat, nat, nat) -> bool)
    requires FollowsEven(p)
    ensures p(13, 0, 6, 8) && p(13, 2, 6, 9) && p(13, 4, 6, 10) && p(13, 6, 6, 11)
    ensures p(13, 8, 6, 12) && p(13, 10, 6, 13) && p(13, 12, 6, 14) && p(13, 14, 6, 15)
  {
    assert EvenAt(13, 0, 6, 8) && EvenAt(13, 2, 6, 9) && EvenAt(13, 4, 6, 10) && EvenAt(13, 6, 6, 11);
    assert EvenAt(13, 8, 6, 12) && EvenAt(13, 10, 6, 13) && EvenAt(13, 12, 6, 14) && EvenAt(13, 14, 6, 15);
  }

  lemma Even14(p: (nat, nat, nat, nat) -> bool)
    requires FollowsEven(p)
    ensures p(14, 0, 7, 0) && p(14, 2, 7, 1) && p(14, 4, 7, 2) && p(14, 6, 7, 3)
    ensures p(14, 8, 7, 4) && p(14, 10, 7, 5) && p(14, 12, 7, 6) && p(14, 14, 7, 7)
  {
    assert EvenAt(14, 0, 7, 0) && EvenAt(14, 2, 7, 1) && EvenAt(14, 4, 7, 2) && EvenAt(14, 6, 7, 3);
    assert EvenAt(14, 8, 7, 4) && EvenAt(14, 10, 7, 5) && EvenAt(14, 12, 7, 6) && EvenAt(14, 14, 7, 7);
  }

  lemma Even15(p: (nat, nat, nat, nat) -> bool)
    requires FollowsEven(p)
    ensures p(15, 0, 7, 8) && p(15, 2, 7, 9) && p(15, 4, 7, 10) && p(15, 6, 7, 11)
    ensures p(15, 8, 7, 12) && p(15, 10, 7, 13) && p(15, 12, 7, 14) && p(15, 14, 7, 15)
  {
    assert EvenAt(15, 0, 7, 8) && EvenAt(15, 2, 7, 9) && EvenAt(15, 4, 7, 10) && EvenAt(15, 6, 7, 11);
    assert EvenAt(15, 8, 7, 12) && EvenAt(15, 10, 7, 13) && EvenAt(15, 12, 7, 14) && EvenAt(15, 14, 7, 15);
  }

  lemma Odd0(p: (nat, nat) -> bool)
    requires FollowsOdd(p)
    ensures p(0, 0) && p(0, 2) && p(0, 4) && p(0, 6)
    ensures p(0, 8) && p(0, 10) && p(0, 12) && p(0, 14)
  {
    assert OddAt(0, 0) && OddAt(0, 2) && OddAt(0, 4) && OddAt(0, 6);
    assert OddAt(0, 8) && OddAt(0, 10) && OddAt(0, 12) && OddAt(0, 14);
  }

  lemma Odd1(p: (nat, nat) -> bool)
    requires FollowsOdd(p)
    ensures p(1, 0) && p(1, 2) && p(1, 4) && p(1, 6)
    ensures p(1, 8) && p(1, 10) && p(1, 12) && p(1, 14)
  {
    assert OddAt(1, 0) && OddAt(1, 2) && OddAt(1, 4) && OddAt(1, 6);
    assert OddAt(1, 8) && OddAt(1, 10) && OddAt(1, 12) && OddAt(1, 14);
  }

  lemma Odd2(p: (nat, nat) -> bool)
    requires FollowsOdd(p)
    ensures p(2, 0) && p(2, 2) && p(2, 4) && p(2, 6)
    ensures p(2, 8) && p(2, 10) && p(2, 12) && p(2, 14)
  {
    assert OddAt(2, 0) && OddAt(2, 2) && OddAt(2, 4) && OddAt(2, 6);
    assert OddAt(2, 8) && OddAt(2, 10) && OddAt(2, 12) && OddAt(2, 14);
  }

  lemma Odd3(p: (nat, nat) -> bool)
    requires FollowsOdd(p)
    ensures p(3, 0) && p(3, 2) && p(3, 4) && p(3, 6)
    ensures p(3, 8) && p(3, 10) && p(3, 12) && p(3, 14)
  {
    assert OddAt(3, 0) && OddAt(3, 2) && OddAt(3, 4) && OddAt(3, 6);
    assert OddAt(3, 8) && OddAt(3, 10) && OddAt(3, 12) && OddAt(3, 14);
  }

  lemma Odd4(p: (nat, nat) -> bool)
    requires FollowsOdd(p)
    ensures p(4, 0) && p(4, 2) && p(4, 4) && p(4, 6)
    ensures p(4, 8) && p(4, 10) && p(4, 12) && p(4, 14)
  {
    assert OddAt(4, 0) && OddAt(4, 2) && OddAt(4, 4) && OddAt(4, 6);
    assert OddAt(4, 8) && OddAt(4, 10) && OddAt(4, 12) && OddAt(4, 14);
  }

  lemma Odd5(p: (nat, nat) -> bool)
    requires FollowsOdd(p)
    ensures p(5, 0) && p(5, 2) && p(5, 4) && p(5, 6)
    ensures p(5, 8) && p(5, 10) && p(5, 12) && p(5, 14)
  {
    assert OddAt(5, 0) && OddAt(5, 2) && OddAt(5, 4) && OddAt(5, 6);
    assert OddAt(5, 8) && OddAt(5, 10) && OddAt(5, 12) && OddAt(5, 14);
  }

  lemma Odd6(p: (nat, nat) -> bool)
    requires FollowsOdd(p)
    ensures p(6, 0) && p(6, 2) && p(6, 4) && p(6, 6)
    ensures p(6, 8) && p(6, 10) && p(6, 12) && p(6, 14)
  {
    assert OddAt(6, 0) && OddAt(6, 2) && OddAt(6, 4) && OddAt(6, 6);
    assert OddAt(6, 8) && OddAt(6, 10) && OddAt(6, 12) && OddAt(6, 14);
  }

  lemma Odd7(p: (nat, nat) -> bool)
    requires FollowsOdd(p)
    ensures p(7, 0) && p(7, 2) && p(7, 4) && p(7, 6)
    ensures p(7, 8) && p(7, 10) && p(7, 12) && p(7, 14)
  {
    assert OddAt(7, 0) && OddAt(7, 2) && OddAt(7, 4) && OddAt(7, 6);
    assert OddAt(7, 8) && OddAt(7, 10) && OddAt(7, 12) && OddAt(7, 14);
  }

  lemma Odd8(p: (nat, nat) -> bool)
    requires FollowsOdd(p)
    ensures p(8, 0) && p(8, 2) && p(8, 4) && p(8, 6)
    ensures p(8, 8) && p(8, 10) && p(8, 12) && p(8, 14)
  {
    assert OddAt(8, 0) && OddAt(8, 2) && OddAt(8, 4) && OddAt(8, 6);
    assert OddAt(8, 8) && OddAt(8, 10) && OddAt(8, 12) && OddAt(8, 14);
  }

  lemma Odd9(p: (nat, nat) -> bool)
    requires FollowsOdd(p)
    ensures p(9, 0) && p(9, 2) && p(9, 4) && p(9, 6)
    ensures p(9, 8) && p(9, 10) && p(9, 12) && p(9, 14)
  {
    assert OddAt(9, 0) && OddAt(9, 2) && OddAt(9, 4) && OddAt(9, 6);
    assert OddAt(9, 8) && OddAt(9, 10) && OddAt(9, 12) && OddAt(9, 14);
  }

  lemma Odd10(p: (nat, nat) -> bool)
    requires FollowsOdd(p)
    ensures p(10, 0) && p(10, 2) && p(10, 4) && p(10, 6)
    ensures p(10, 8) && p(10, 10) && p(10, 12) && p(10, 14)
  {
    assert OddAt(10, 0) && OddAt(10, 2) && OddAt(10, 4) && OddAt(10, 6);
    assert OddAt(10, 8) && OddAt(10, 10) && OddAt(10, 12) && OddAt(10, 14);
  }

  lemma Odd11(p: (nat, nat) -> bool)
    requires FollowsOdd(p)
    ensures p(11, 0) && p(11, 2) && p(11, 4) && p(11, 6)
    ensures p(11, 8) && p(11, 10) && p(11, 12) && p(11, 14)
  {
    assert OddAt(11, 0) && OddAt(11, 2) && OddAt(11, 4) && OddAt(11, 6);
    assert OddAt(11, 8) && OddAt(11, 10) && OddAt(11, 12) && OddAt(11, 14);
  }

  lemma Odd12(p: (nat, nat) -> bool)
    requires FollowsOdd(p)
    ensures p(12, 0) && p(12, 2) && p(12, 4) && p(12, 6)
    ensures p(12, 8) && p(12, 10) && p(12, 12) && p(12, 14)
  {
    assert OddAt(12, 0) && OddAt(12, 2) && OddAt(12, 4) && OddAt(12, 6);
    assert OddAt(12, 8) && OddAt(12, 10) && OddAt(12, 12) && OddAt(12, 14);
  }

  lemma Odd13(p: (nat, nat) -> bool)
    requires FollowsOdd(p)
    ensures p(13, 0) && p(13, 2) && p(13, 4) && p(13, 6)
    ensures p(13, 8) && p(13, 10) && p(13, 12) && p(13, 14)
  {
    assert OddAt(13, 0) && OddAt(13, 2) && OddAt(13, 4) && OddAt(13, 6);
    assert OddAt(13, 8) && OddAt(13, 10) && OddAt(13, 12) && OddAt(13, 14);
  }

  lemma Odd14(p: (nat, nat) -> bool)
    requires FollowsOdd(p)
    ensures p(14, 0) && p(14, 2) && p(14, 4) && p(14, 6)
    ensures p(14, 8) && p(14, 10) && p(14, 12) && p(14, 14)
  {
    assert OddAt(14, 0) && OddAt(14, 2) && OddAt(14, 4) && OddAt(14, 6);
    assert OddAt(14, 8) && OddAt(14, 10) && OddAt(14, 12) && OddAt(14, 14);
  }

  lemma Odd15(p: (nat, nat) -> bool)
    requires FollowsOdd(p)
    ensures p(15, 0) && p(15, 2) && p(15, 4) && p(15, 6)
    ensures p(15, 8) && p(15, 10) && p(15, 12) && p(15, 14)
  {
    assert OddAt(15, 0) && OddAt(15, 2) && OddAt(15, 4) && OddAt(15, 6);
    assert OddAt(15, 8) && OddAt(15, 10) && OddAt(15, 12) && OddAt(15, 14);
  }

  lemma AllEven(p: (nat, nat, nat, nat) -> bool, r: nat, h: nat, c: nat)
    requires FollowsEven(p) && r < 8 && h < 2 && c < 8
    ensures p(2 * r + h, 2 * c, r, 8 * h + c)
  {
    Even0(p); Even1(p); Even2(p); Even3(p); Even4(p); Even5(p); Even6(p); Even7(p);
    Even8(p); Even9(p); Even10(p); Even11(p); Even12(p); Even13(p); Even14(p); Even15(p);
  }

  lemma AllOdd(p: (nat, nat) -> bool, r: nat, h: nat, c: nat)
    requires FollowsOdd(p) && r < 8 && h < 2 && c < 8
    ensures p(2 * r + h, 2 * c)
  {
    Odd0(p); Odd1(p); Odd2(p); Odd3(p); Odd4(p); Odd5(p); Odd6(p); Odd7(p);
    Odd8(p); Odd9(p); Odd10(p); Odd11(p); Odd12(p); Odd13(p); Odd14(p); Odd15(p);
  }

  /** The ties of any table u: entry 2k to entry k = 16r + 8h + c, and entry 2k + 1 to entry 2k. */
  predicate EvenOf(u: (nat, nat) -> bv32, r: nat, h: nat, c: nat) {
    Step(u(2 * r + h, 2 * c)) == u(r, 8 * h + c)
  }

  predicate OddOf(u: (nat, nat) -> bv32, r: nat, h: nat, c: nat) {
    u(2 * r + h, 2 * c + 1) == u(2 * r + h, 2 * c) ^ u(0, 1)
  }

  lemma TabEven(r: nat, h: nat, c: nat)
    requires r < 8 && h < 2 && c < 8
    ensures EvenOf(Tab, r, h, c)
  {
    AllEven((r: nat, c: nat, x: nat, y: nat) => EvenAt(r, c, x, y), r, h, c);
  }

  lemma TabOdd(r: nat, h: nat, c: nat)
    requires r < 8 && h < 2 && c < 8
    ensures OddOf(Tab, r, h, c)
  {
    AllOdd((r: nat, c: nat) => OddAt(r, c), r, h, c);
  }

  // ---------------------------------------------------------------- machine words and their bits

  lemma {:induction false} OneBit(i: nat)
    ensures Mask(i) & (Mask(i) - 1) == 0
  {
    if i > 0 {
      OneBit(i - 1);
      ShiftOneBit(Mask(i - 1));
    }
  }

  lemma ShiftOneBit(m: bv32)
    requires m & (m - 1) == 0
    ensures (m << 1) & ((m << 1) - 1) == 0
  {
  }

  lemma XorMask(x: bv32, y: bv32, m: bv32)
    requires m & (m - 1) == 0
    ensures ((x ^ y) & m != 0) <==> ((x & m != 0) != (y & m != 0))
  {
  }

  lemma ShiftMask(x: bv32, y: bv32, m: bv32, n: bv32)
    requires y == x >> 1 && n == m << 1
    ensures y & m != 0 <==> x & n != 0
  {
  }

  lemma MaskNext(i: nat)
    ensures Mask(i + 1) == Mask(i) << 1
  {
  }

  lemma BitsOfXor(x: bv32, y: bv32)
    ensures BitsOf(x ^ y) == Xor(BitsOf(x), BitsOf(y))
  {
    forall i | 0 <= i < 32
      ensures Test(x ^ y, i) == (Test(x, i) != Test(y, i))
    {
      OneBit(i);
      XorMask(x, y, Mask(i));
    }
  }

  lemma TestMasks(x: bv32, y: bv32, m: bv32, n: bv32, i: nat)
    requires y == x >> 1 && n == m << 1 && m == Mask(i) && n == Mask(i + 1)
    ensures Test(y, i) == Test(x, i + 1)
  {
    ShiftMask(x, y, m, n);
  }

  lemma TestShift(x: bv32, y: bv32, i: nat)
    requires y == x >> 1
    ensures Test(y, i) == Test(x, i + 1)
  {
    MaskNext(i);
    TestMasks(x, y, Mask(i), Mask(i + 1), i);
  }

  lemma NoBit32(x: bv32)
    ensures !Test(x, 32)
  {
    assert Mask(8) == 0x100;
    assert Mask(16) == 0x1_0000;
    assert Mask(24) == 0x100_0000;
    assert Mask(32) == 0;
  }

  lemma BitsOfShift(x: bv32, y: bv32)
    requires y == x >> 1
    ensures BitsOf(y) == Shr(BitsOf(x), 1)
  {
    var l, r := BitsOf(y), Shr(BitsOf(x), 1);
    forall i | 0 <= i < 32
      ensures l[i] == r[i]
    {
      TestShift(x, y, i);
      if i == 31 {
        NoBit32(x);
      }
    }
  }

  lemma BitsOfStep(x: bv32)
    ensures BitsOf(Step(x)) == Bit(BitsOf(x))
  {
    assert Test(x, 0) == (x & 1 != 0);
    BitsOfShift(x, x >> 1);
    BitsOfXor(x >> 1, 0xEDB88320);
  }

  /** The entries of the table as words. */
  function Entry(r: nat, c: nat): Word {
    BitsOf(Tab(r, c))
  }

  // ---------------------------------------------------------------- rows one after the other

  /** The same for any table u of 16 rows and 16 columns of words. */
  ghost predicate EvenIn(u: (nat, nat) -> Word, r: nat, h: nat, c: nat) {
    Bit(u(2 * r + h, 2 * c)) == u(r, 8 * h + c)
  }

  ghost predicate OddIn(u: (nat, nat) -> Word, r: nat, h: nat, c: nat) {
    u(2 * r + h, 2 * c + 1) == Xor(u(2 * r + h, 2 * c), u(0, 1))
  }

  ghost predicate AllRegularIn(u: (nat, nat) -> Word) {
    && (forall r, h, c :: 0 <= r < 8 && 0 <= h < 2 && 0 <= c < 8 ==> EvenIn(u, r, h, c))
    && (forall r, h, c :: 0 <= r < 8 && 0 <= h < 2 && 0 <= c < 8 ==> OddIn(u, r, h, c))
  }

  /** The entries of w are the bits of those of u. */
  ghost predicate AreBits(u: (nat, nat) -> bv32, w: (nat, nat) -> Word) {
    forall r, c :: w(r, c) == BitsOf(u(r, c))
  }

  lemma EvenBits(u: (nat, nat) -> bv32, w: (nat, nat) -> Word, r: nat, h: nat, c: nat)
    requires AreBits(u, w) && EvenOf(u, r, h, c)
    ensures EvenIn(w, r, h, c)
  {
    BitsOfStep(u(2 * r + h, 2 * c));
  }

  lemma OddBits(u: (nat, nat) -> bv32, w: (nat, nat) -> Word, r: nat, h: nat, c: nat)
    requires AreBits(u, w) && OddOf(u, r, h, c)
    ensures OddIn(w, r, h, c)
  {
    BitsOfXor(u(2 * r + h, 2 * c), u(0, 1));
  }

  lemma AllBitsRegular(u: (nat, nat) -> bv32, w: (nat, nat) -> Word)
    requires AreBits(u, w)
    requires forall r, h, c :: 0 <= r < 8 && 0 <= h < 2 && 0 <= c < 8 ==> EvenOf(u, r, h, c)
    requires forall r, h, c :: 0 <= r < 8 && 0 <= h < 2 && 0 <= c < 8 ==> OddOf(u, r, h, c)
    ensures AllRegularIn(w)
  {
    forall r, h, c | 0 <= r < 8 && 0 <= h < 2 && 0 <= c < 8
      ensures EvenIn(w, r, h, c)
    {
      EvenBits(u, w, r, h, c);
    }
    forall r, h, c | 0 <= r < 8 && 0 <= h < 2 && 0 <= c < 8
      ensures OddIn(w, r, h, c)
    {
      OddBits(u, w, r, h, c);
    }
  }

  function WordAt(u: (nat, nat) -> Word, i: nat): Word {
    u(i / 16, i % 16)
  }

  function Words(u: (nat, nat) -> Word): (w: seq<Word>)
    ensures |w| == 256
  {
    var w: seq<Word> := seq(256, i requires 0 <= i => WordAt(u, i));
    w
  }

  lemma Split16(r: nat, c: nat)
    requires r < 16 && c < 16
    ensures 16 * r + c < 256 && (16 * r + c) / 16 == r && (16 * r + c) % 16 == c
  {
  }

  ghost predicate InPlace(w: seq<Word>, u: (nat, nat) -> Word, r: nat, c: nat) {
    16 * r + c < |w| && w[16 * r + c] == u(r, c)
  }

  /** The words are the rows of u, one after the other. */
  ghost predicate Filled(w: seq<Word>, u: (nat, nat) -> Word) {
    |w| == 256 && forall r, c :: 0 <= r < 16 && 0 <= c < 16 ==> InPlace(w, u, r, c)
  }

  lemma WordsFilled(u: (nat, nat) -> Word)
    ensures Filled(Words(u), u)
  {
    var w := Words(u);
    forall r, c | 0 <= r < 16 && 0 <= c < 16
      ensures InPlace(w, u, r, c)
    {
      Split16(r, c);
      assert w[16 * r + c] == WordAt(u, 16 * r + c);
    }
  }

  // ---------------------------------------------------------------- from entry to entry

  /** The words w are tied to each other as the entries of the table are; n is the number of bit steps. */
  ghost predicate Tied(w: seq<Word>, n: nat) {
    && |w| == 256 && w[0] == Zero() && w[1] == Bits(n, ByteWord(1))
    && forall k :: 0 <= k < 128 ==> TiedAt(w, k)
  }

  ghost predicate TiedAt(w: seq<Word>, k: nat)
    requires |w| == 256 && k < 128
  {
    Bit(w[2 * k]) == w[k] && w[2 * k + 1] == Xor(w[2 * k], w[1])
  }

  /** No two registers lead to the same one, since the highest bit of the polynomial is set. */
  lemma BitInjective(a: Word, b: Word)
    requires Bit(a) == Bit(b) && POLY[31]
    ensures a == b
  {
    assert Bit(a)[31] == a[0] && Bit(b)[31] == b[0];
    forall i | 1 <= i < 32
      ensures a[i] == b[i]
    {
      assert Bit(a)[i - 1] == Bit(b)[i - 1];
      assert Shr(a, 1)[i - 1] == a[i] && Shr(b, 1)[i - 1] == b[i];
    }
  }

  lemma BitLinear(a: Word, b: Word)
    ensures Bit(Xor(a, b)) == Xor(Bit(a), Bit(b))
  {
    var l, r := Bit(Xor(a, b)), Xor(Bit(a), Bit(b));
    forall i | 0 <= i < 32
      ensures l[i] == r[i]
    {
      assert Shr(Xor(a, b), 1)[i] == (Shr(a, 1)[i] != Shr(b, 1)[i]);
    }
  }

  lemma {:induction false} BitsLinear(n: nat, a: Word, b: Word)
    ensures Bits(n, Xor(a, b)) == Xor(Bits(n, a), Bits(n, b))
  {
    if n > 0 {
      BitLinear(a, b);
      BitsLinear(n - 1, Bit(a), Bit(b));
    }
  }

  lemma {:induction false} BitAfterBits(n: nat, c: Word)
    ensures Bit(Bits(n, c)) == Bits(n, Bit(c))
  {
    if n > 0 {
      BitAfterBits(n - 1, Bit(c));
    }
  }

  lemma {:induction false} DigitBelow(n: nat, i: nat)
    requires n < Pow2(i)
    ensures !BinaryDigit(n, i)
    decreases i
  {
    if i > 0 {
      DigitBelow(n / 2, i - 1);
    }
  }

  /** The word of byte 2k is the word of byte k one step before, and 2k + 1 adds the lowest bit. */
  lemma ByteWordDouble(k: nat)
    requires k < 128
    ensures Bit(ByteWord(2 * k)) == ByteWord(k)
    ensures ByteWord(2 * k + 1) == Xor(ByteWord(2 * k), ByteWord(1))
  {
    var a, b := ByteWord(2 * k), ByteWord(k);
    assert Pow2(7) == 128;
    DigitBelow(k, 7);
    forall i | 0 <= i < 32
      ensures Shr(a, 1)[i] == b[i]
    {
      if i < 7 {
        assert BinaryDigit(2 * k, i + 1) == BinaryDigit(k, i);
      }
    }
    var c, d := ByteWord(2 * k + 1), ByteWord(1);
    forall i | 0 <= i < 32
      ensures c[i] == (a[i] != d[i])
    {
      if 0 < i < 8 {
        assert BinaryDigit(2 * k + 1, i) == BinaryDigit(k, i - 1) == BinaryDigit(2 * k, i);
        assert Pow2(0) == 1;
        ZeroDigit(i - 1);
        assert BinaryDigit(1, i) == BinaryDigit(0, i - 1);
      }
    }
  }

  lemma {:induction false} ZeroDigit(i: nat)
    ensures !BinaryDigit(0, i)
  {
    if i > 0 {
      ZeroDigit(i - 1);
    }
  }

  lemma {:induction false} ZeroBits(n: nat)
    ensures Bits(n, Zero()) == Zero()
  {
    if n > 0 {
      assert Bit(Zero()) == Zero();
      ZeroBits(n - 1);
    }
  }

  /** Words tied in this way are the table. */
  lemma {:induction false} TiedIsTable(w: seq<Word>, n: nat, i: nat)
    requires Tied(w, n) && i < 256 && POLY[31]
    ensures w[i] == Bits(n, ByteWord(i))
  {
    if i == 0 {
      ZeroBits(n);
      ZeroWord();
    } else {
      var k := i / 2;
      TiedIsTable(w, n, k);
      TiedDouble(w, n, k);
      assert i == 2 * k || i == 2 * k + 1;
    }
  }

  lemma ZeroWord()
    ensures ByteWord(0) == Zero()
  {
    forall j: nat | j < 8
      ensures !BinaryDigit(0, j)
    {
      ZeroDigit(j);
    }
  }

  lemma TiedDouble(w: seq<Word>, n: nat, k: nat)
    requires Tied(w, n) && k < 128 && POLY[31] && w[k] == Bits(n, ByteWord(k))
    ensures w[2 * k] == Bits(n, ByteWord(2 * k)) && w[2 * k + 1] == Bits(n, ByteWord(2 * k + 1))
  {
    assert TiedAt(w, k);
    ByteWordDouble(k);
    BitAfterBits(n, ByteWord(2 * k));
    BitInjective(w[2 * k], Bits(n, ByteWord(2 * k)));
    BitsLinear(n, ByteWord(2 * k), ByteWord(1));
  }

  // ---------------------------------------------------------------- crc32_tab is the table

  lemma EvenTied(u: (nat, nat) -> Word, w: seq<Word>, r: nat, h: nat, c: nat)
    requires AllRegularIn(u) && Filled(w, u) && r < 8 && h < 2 && c < 8
    ensures Bit(w[16 * (2 * r + h) + 2 * c]) == w[16 * r + (8 * h + c)]
  {
    assert EvenIn(u, r, h, c);
    assert InPlace(w, u, r, 8 * h + c);
    assert InPlace(w, u, 2 * r + h, 2 * c);
  }

  lemma OddTied(u: (nat, nat) -> Word, w: seq<Word>, r: nat, h: nat, c: nat)
    requires AllRegularIn(u) && Filled(w, u) && r < 8 && h < 2 && c < 8
    ensures w[16 * (2 * r + h) + (2 * c + 1)] == Xor(w[16 * (2 * r + h) + 2 * c], w[1])
  {
    assert OddIn(u, r, h, c);
    assert InPlace(w, u, 2 * r + h, 2 * c);
    assert InPlace(w, u, 2 * r + h, 2 * c + 1);
    assert InPlace(w, u, 0, 1);
  }

  lemma AllTied(u: (nat, nat) -> Word, w: seq<Word>, k: nat)
    requires AllRegularIn(u) && Filled(w, u) && k < 128
    ensures TiedAt(w, k)
  {
    var r, h, c := Digits(k);
    EvenTied(u, w, r, h, c);
    OddTied(u, w, r, h, c);
    assert 16 * (2 * r + h) + 2 * c == 2 * k;
  }

  lemma Digits(k: nat) returns (r: nat, h: nat, c: nat)
    requires k < 128
    ensures r < 8 && h < 2 && c < 8 && k == 16 * r + (8 * h + c)
  {
    r, h, c := k / 16, k / 8 % 2, k % 8;
  }

  function Steps(n: nat, c: bv32): bv32 {
    if n == 0 then c else Steps(n - 1, Step(c))
  }

  lemma {:induction false} BitsOfSteps(n: nat, c: bv32)
    ensures BitsOf(Steps(n, c)) == Bits(n, BitsOf(c))
  {
    if n > 0 {
      BitsOfStep(c);
      BitsOfSteps(n - 1, Step(c));
    }
  }

  lemma EntryOne()
    ensures Steps(8, 1) == Tab(0, 1)
  {
    assert Steps(4, 1) == Step(Step(Step(Step(1))));
  }

  lemma EvenMask(m: bv32)
    ensures 1 & (m << 1) == 0
  {
  }

  lemma LowestOnly(i: nat)
    ensures Test(1, i) <==> i == 0
  {
    if i > 0 {
      EvenMask(Mask(i - 1));
    }
  }

  lemma OneDigit(i: nat)
    ensures BinaryDigit(1, i) <==> i == 0
  {
    if i > 0 {
      ZeroDigit(i - 1);
    }
  }

  lemma BitsOfOne()
    ensures BitsOf(1) == ByteWord(1)
  {
    forall i | 0 <= i < 32
      ensures BitsOf(1)[i] == ByteWord(1)[i]
    {
      LowestOnly(i);
      OneDigit(i);
    }
  }

  lemma BitsOfZero()
    ensures BitsOf(0) == Zero()
  {
  }

  lemma HighestBit()
    ensures POLY[31]
  {
    assert Mask(8) == 0x100;
    assert Mask(16) == 0x1_0000;
    assert Mask(24) == 0x100_0000;
    assert Mask(31) == 0x8000_0000;
  }

  lemma TabRegular()
    ensures AllRegularIn(Entry)
  {
    forall r, h, c | 0 <= r < 8 && 0 <= h < 2 && 0 <= c < 8
      ensures EvenOf(Tab, r, h, c) && OddOf(Tab, r, h, c)
    {
      TabEven(r, h, c);
      TabOdd(r, h, c);
    }
    assert AreBits(Tab, Entry);
    AllBitsRegular(Tab, Entry);
  }

  /** crc32_tab as the words that crc32_next looks up. */
  function CrcTab(): seq<Word> {
    Words(Entry)
  }

  lemma FilledIsTable(w: seq<Word>)
    requires Filled(w, Entry)
    ensures TableOk(w)
  {
    TabRegular();
    assert InPlace(w, Entry, 0, 0) && InPlace(w, Entry, 0, 1);
    BitsOfZero();
    BitsOfSteps(8, 1);
    EntryOne();
    BitsOfOne();
    HighestBit();
    forall k | 0 <= k < 128
      ensures TiedAt(w, k)
    {
      AllTied(Entry, w, k);
    }
    forall i | 0 <= i < 256
      ensures w[i] == Bits(8, ByteWord(i))
    {
      TiedIsTable(w, 8, i);
    }
  }

  /** Every entry of crc32_tab is what eight bit steps make of its index. */
  lemma CrcTabOk()
    ensures TableOk(CrcTab())
  {
    WordsFilled(Entry);
    FilledIsTable(CrcTab());
  }

  // ---------------------------------------------------------------- a known value

  lemma NotBits(x: bv32, y: bv32)
    requires y == x ^ 0xFFFF_FFFF
    ensures BitsOf(y) == Not(BitsOf(x))
  {
    BitsOfXor(x, 0xFFFF_FFFF);
    AllOnes();
    var l, r := Xor(BitsOf(x), BitsOf(0xFFFF_FFFF)), Not(BitsOf(x));
    forall i | 0 <= i < 32
      ensures l[i] == r[i]
    {
      assert BitsOf(0xFFFF_FFFF)[i];
    }
  }

  lemma {:induction false} MaskSet(i: nat)
    requires i < 32
    ensures Mask(i) != 0
  {
    assert Mask(0) == 1 && Mask(8) == 0x100 && Mask(16) == 0x1_0000 && Mask(24) == 0x100_0000;
    assert Mask(4) == 0x10 && Mask(12) == 0x1000 && Mask(20) == 0x10_0000 && Mask(28) == 0x1000_0000;
    MaskFrom(i / 4 * 4, i % 4);
  }

  lemma MaskFrom(j: nat, k: nat)
    requires j % 4 == 0 && j < 32 && k < 4
    requires Mask(0) == 1 && Mask(8) == 0x100 && Mask(16) == 0x1_0000 && Mask(24) == 0x100_0000
    requires Mask(4) == 0x10 && Mask(12) == 0x1000 && Mask(20) == 0x10_0000 && Mask(28) == 0x1000_0000
    ensures Mask(j + k) != 0
  {
    assert j == 0 || j == 4 || j == 8 || j == 12 || j == 16 || j == 20 || j == 24 || j == 28;
    assert k == 0 || k == 1 || k == 2 || k == 3;
    assert Mask(j + 1) == Mask(j) << 1 && Mask(j + 2) == Mask(j + 1) << 1 && Mask(j + 3) == Mask(j + 2) << 1;
  }

  lemma AllOnes()
    ensures forall i :: 0 <= i < 32 ==> BitsOf(0xFFFF_FFFF)[i]
  {
    forall i | 0 <= i < 32
      ensures Test(0xFFFF_FFFF, i)
    {
      MaskSet(i);
      OnesMask(Mask(i));
    }
  }

  lemma OnesMask(m: bv32)
    ensures 0xFFFF_FFFF & m == m
  {
  }

  lemma EightSteps()
    ensures Steps(8, 0xFFFF_FFFF) == 0x2DFD_1072
  {
    assert Steps(4, Step(Step(Step(Step(0xFFFF_FFFF))))) == 0x2DFD_1072;
  }

  /** The CRC-32 of a single zero byte is 0xD202EF8D. */
  lemma CrcOfZeroByte()
    ensures Crc([0], Zero()) == BitsOf(0xD202_EF8D)
  {
    NotBits(0, 0xFFFF_FFFF);
    BitsOfZero();
    var ones := Not(Zero());
    assert BitsOf(0xFFFF_FFFF) == ones;
    forall i: nat | i < 8
      ensures !BinaryDigit(0, i)
    {
      ZeroDigit(i);
    }
    assert Widen(FromNat(0, 8)) == Zero();
    assert Xor(ones, Zero()) == ones;
    FeedBits(ones, FromNat(0, 8));
    BitsOfSteps(8, 0xFFFF_FFFF);
    EightSteps();
    NotBits(0x2DFD_1072, 0xD202_EF8D);
    assert [0][1..] == [];
    assert Register([0], ones) == Register([], Feed(FromNat(0, 8), ones));
  }

  // ---------------------------------------------------------------- crc32_next

  /** crc32_next: the table-driven loop computes the bit-by-bit CRC. */
  method CrcNext(data: seq<Byte>, last: Word) returns (r: Word)
    ensures r == Crc(data, last)
  {
    var crc := Not(last);
    var n := 0;
    var tab := CrcTab();
    CrcTabOk();
    while n < |data|
      invariant 0 <= n <= |data|
      invariant Register(data[n..], crc) == Register(data, Not(last))
    {
      TableStep(tab, crc, data[n]);
      assert data[n..][1..] == data[n + 1..];
      crc := Xor(tab[ToNat(Xor(crc, ByteWord(data[n]))[..8])], Shr(crc, 8));
      n := n + 1;
    }
    r := Not(crc);
  }
}
