/** CRC-32 as the index files use it to pick a slot: a table-driven loop over the bytes of a
    key, proved equal to the bit-by-bit definition (the sample code in section 8 of RFC 1952),
    and the error-detection guarantees that follow. */
module Crc32 {
  type u8 = bv8
  type u32 = bv32

  /** One bit of reflected polynomial division: shift, and add the polynomial for a bit shifted out. */
  function Step(x: u32): u32 { Xor(Half(x), Tap(x)) }

  function Half(x: u32): u32 { x >> 1 }

  function Tap(x: u32): u32 { if x & 1 == 1 then 0xedb88320 else 0 }

  function Step8(x: u32): u32 {
    Step(Step(Step(Step(Step(Step(Step(Step(x))))))))
  }

  function Wide(b: u8): u32 { b as bv32 }

  function Xor(x: u32, y: u32): u32 { x ^ y }

  /** Feed bytes into the running remainder, bit by bit. */
  function Feed(crc: u32, s: seq<u8>): u32
    decreases |s|
  {
    if s == [] then crc else Feed(Step8(Xor(crc, Wide(s[0]))), s[1..])
  }

  /** The CRC-32 of a byte string. */
  function Hash(s: seq<u8>): u32 { Xor(Feed(0xffffffff, s), 0xffffffff) }

  /** The 256 remainders of single bytes, 32 rows of 8. */
  const CRC32_TABLE: seq<seq<u32>> := [
    [0x00000000, 0x77073096, 0xee0e612c, 0x990951ba, 0x076dc419, 0x706af48f, 0xe963a535, 0x9e6495a3],
    [0x0edb8832, 0x79dcb8a4, 0xe0d5e91e, 0x97d2d988, 0x09b64c2b, 0x7eb17cbd, 0xe7b82d07, 0x90bf1d91],
    [0x1db71064, 0x6ab020f2, 0xf3b97148, 0x84be41de, 0x1adad47d, 0x6ddde4eb, 0xf4d4b551, 0x83d385c7],
    [0x136c9856, 0x646ba8c0, 0xfd62f97a, 0x8a65c9ec, 0x14015c4f, 0x63066cd9, 0xfa0f3d63, 0x8d080df5],
    [0x3b6e20c8, 0x4c69105e, 0xd56041e4, 0xa2677172, 0x3c03e4d1, 0x4b04d447, 0xd20d85fd, 0xa50ab56b],
    [0x35b5a8fa, 0x42b2986c, 0xdbbbc9d6, 0xacbcf940, 0x32d86ce3, 0x45df5c75, 0xdcd60dcf, 0xabd13d59],
    [0x26d930ac, 0x51de003a, 0xc8d75180, 0xbfd06116, 0x21b4f4b5, 0x56b3c423, 0xcfba9599, 0xb8bda50f],
    [0x2802b89e, 0x5f058808, 0xc60cd9b2, 0xb10be924, 0x2f6f7c87, 0x58684c11, 0xc1611dab, 0xb6662d3d],
    [0x76dc4190, 0x01db7106, 0x98d220bc, 0xefd5102a, 0x71b18589, 0x06b6b51f, 0x9fbfe4a5, 0xe8b8d433],
    [0x7807c9a2, 0x0f00f934, 0x9609a88e, 0xe10e9818, 0x7f6a0dbb, 0x086d3d2d, 0x91646c97, 0xe6635c01],
    [0x6b6b51f4, 0x1c6c6162, 0x856530d8, 0xf262004e, 0x6c0695ed, 0x1b01a57b, 0x8208f4c1, 0xf50fc457],
    [0x65b0d9c6, 0x12b7e950, 0x8bbeb8ea, 0xfcb9887c, 0x62dd1ddf, 0x15da2d49, 0x8cd37cf3, 0xfbd44c65],
    [0x4db26158, 0x3ab551ce, 0xa3bc0074, 0xd4bb30e2, 0x4adfa541, 0x3dd895d7, 0xa4d1c46d, 0xd3d6f4fb],
    [0x4369e96a, 0x346ed9fc, 0xad678846, 0xda60b8d0, 0x44042d73, 0x33031de5, 0xaa0a4c5f, 0xdd0d7cc9],
    [0x5005713c, 0x270241aa, 0xbe0b1010, 0xc90c2086, 0x5768b525, 0x206f85b3, 0xb966d409, 0xce61e49f],
    [0x5edef90e, 0x29d9c998, 0xb0d09822, 0xc7d7a8b4, 0x59b33d17, 0x2eb40d81, 0xb7bd5c3b, 0xc0ba6cad],
    [0xedb88320, 0x9abfb3b6, 0x03b6e20c, 0x74b1d29a, 0xead54739, 0x9dd277af, 0x04db2615, 0x73dc1683],
    [0xe3630b12, 0x94643b84, 0x0d6d6a3e, 0x7a6a5aa8, 0xe40ecf0b, 0x9309ff9d, 0x0a00ae27, 0x7d079eb1],
    [0xf00f9344, 0x8708a3d2, 0x1e01f268, 0x6906c2fe, 0xf762575d, 0x806567cb, 0x196c3671, 0x6e6b06e7],
    [0xfed41b76, 0x89d32be0, 0x10da7a5a, 0x67dd4acc, 0xf9b9df6f, 0x8ebeeff9, 0x17b7be43, 0x60b08ed5],
    [0xd6d6a3e8, 0xa1d1937e, 0x38d8c2c4, 0x4fdff252, 0xd1bb67f1, 0xa6bc5767, 0x3fb506dd, 0x48b2364b],
    [0xd80d2bda, 0xaf0a1b4c, 0x36034af6, 0x41047a60, 0xdf60efc3, 0xa867df55, 0x316e8eef, 0x4669be79],
    [0xcb61b38c, 0xbc66831a, 0x256fd2a0, 0x5268e236, 0xcc0c7795, 0xbb0b4703, 0x220216b9, 0x5505262f],
    [0xc5ba3bbe, 0xb2bd0b28, 0x2bb45a92, 0x5cb36a04, 0xc2d7ffa7, 0xb5d0cf31, 0x2cd99e8b, 0x5bdeae1d],
    [0x9b64c2b0, 0xec63f226, 0x756aa39c, 0x026d930a, 0x9c0906a9, 0xeb0e363f, 0x72076785, 0x05005713],
    [0x95bf4a82, 0xe2b87a14, 0x7bb12bae, 0x0cb61b38, 0x92d28e9b, 0xe5d5be0d, 0x7cdcefb7, 0x0bdbdf21],
    [0x86d3d2d4, 0xf1d4e242, 0x68ddb3f8, 0x1fda836e, 0x81be16cd, 0xf6b9265b, 0x6fb077e1, 0x18b74777],
    [0x88085ae6, 0xff0f6a70, 0x66063bca, 0x11010b5c, 0x8f659eff, 0xf862ae69, 0x616bffd3, 0x166ccf45],
    [0xa00ae278, 0xd70dd2ee, 0x4e048354, 0x3903b3c2, 0xa7672661, 0xd06016f7, 0x4969474d, 0x3e6e77db],
    [0xaed16a4a, 0xd9d65adc, 0x40df0b66, 0x37d83bf0, 0xa9bcae53, 0xdebb9ec5, 0x47b2cf7f, 0x30b5ffe9],
    [0xbdbdf21c, 0xcabac28a, 0x53b39330, 0x24b4a3a6, 0xbad03605, 0xcdd70693, 0x54de5729, 0x23d967bf],
    [0xb3667a2e, 0xc4614ab8, 0x5d681b02, 0x2a6f2b94, 0xb40bbe37, 0xc30c8ea1, 0x5a05df1b, 0x2d02ef8d]
  ]

  predicate TableEntryOk(y: u8) {
    var i := y as int;
    i / 8 < |CRC32_TABLE| && i % 8 < |CRC32_TABLE[i / 8]| && CRC32_TABLE[i / 8][i % 8] == Step8(y as bv32)
  }

  lemma TableRows0To1(y: u8)
    requires y < 16
    ensures TableEntryOk(y)
  {
    assert y as int / 8 == if y < 8 then 0 else 1;
  }

  lemma TableRows2To3(y: u8)
    requires 16 <= y < 32
    ensures TableEntryOk(y)
  {
    assert y as int / 8 == if y < 24 then 2 else 3;
  }

  lemma TableRows4To5(y: u8)
    requires 32 <= y < 48
    ensures TableEntryOk(y)
  {
    assert y as int / 8 == if y < 40 then 4 else 5;
  }

  lemma TableRows6To7(y: u8)
    requires 48 <= y < 64
    ensures TableEntryOk(y)
  {
    assert y as int / 8 == if y < 56 then 6 else 7;
  }

  lemma TableRows8To9(y: u8)
    requires 64 <= y < 80
    ensures TableEntryOk(y)
  {
    assert y as int / 8 == if y < 72 then 8 else 9;
  }

  lemma TableRows10To11(y: u8)
    requires 80 <= y < 96
    ensures TableEntryOk(y)
  {
    assert y as int / 8 == if y < 88 then 10 else 11;
  }

  lemma TableRows12To13(y: u8)
    requires 96 <= y < 112
    ensures TableEntryOk(y)
  {
    assert y as int / 8 == if y < 104 then 12 else 13;
  }

  lemma TableRows14To15(y: u8)
    requires 112 <= y < 128
    ensures TableEntryOk(y)
  {
    assert y as int / 8 == if y < 120 then 14 else 15;
  }

  lemma TableRows16To17(y: u8)
    requires 128 <= y < 144
    ensures TableEntryOk(y)
  {
    assert y as int / 8 == if y < 136 then 16 else 17;
  }

  lemma TableRows18To19(y: u8)
    requires 144 <= y < 160
    ensures TableEntryOk(y)
  {
    assert y as int / 8 == if y < 152 then 18 else 19;
  }

  lemma TableRows20To21(y: u8)
    requires 160 <= y < 176
    ensures TableEntryOk(y)
  {
    assert y as int / 8 == if y < 168 then 20 else 21;
  }

  lemma TableRows22To23(y: u8)
    requires 176 <= y < 192
    ensures TableEntryOk(y)
  {
    assert y as int / 8 == if y < 184 then 22 else 23;
  }

  lemma TableRows24To25(y: u8)
    requires 192 <= y < 208
    ensures TableEntryOk(y)
  {
    assert y as int / 8 == if y < 200 then 24 else 25;
  }

  lemma TableRows26To27(y: u8)
    requires 208 <= y < 224
    ensures TableEntryOk(y)
  {
    assert y as int / 8 == if y < 216 then 26 else 27;
  }

  lemma TableRows28To29(y: u8)
    requires 224 <= y < 240
    ensures TableEntryOk(y)
  {
    assert y as int / 8 == if y < 232 then 28 else 29;
  }

  lemma TableRows30To31(y: u8)
    requires 240 <= y
    ensures TableEntryOk(y)
  {
    assert y as int / 8 == if y < 248 then 30 else 31;
  }

  /** Every table entry is eight bit-steps of its index. */
  lemma TableIsBitwise(y: u8)
    ensures TableEntryOk(y)
  {
    if y < 16 {
      TableRows0To1(y);
    } else if y < 32 {
      TableRows2To3(y);
    } else if y < 48 {
      TableRows4To5(y);
    } else if y < 64 {
      TableRows6To7(y);
    } else if y < 80 {
      TableRows8To9(y);
    } else if y < 96 {
      TableRows10To11(y);
    } else if y < 112 {
      TableRows12To13(y);
    } else if y < 128 {
      TableRows14To15(y);
    } else if y < 144 {
      TableRows16To17(y);
    } else if y < 160 {
      TableRows18To19(y);
    } else if y < 176 {
      TableRows20To21(y);
    } else if y < 192 {
      TableRows22To23(y);
    } else if y < 208 {
      TableRows24To25(y);
    } else if y < 224 {
      TableRows26To27(y);
    } else if y < 240 {
      TableRows28To29(y);
    } else {
      TableRows30To31(y);
    }
  }

  function DropByte(x: u32): u32 { x >> 8 }

  function LowByte(x: u32): u8 { (x & 0xff) as bv8 }

  /** Division is linear. */
  lemma StepIsLinear(x: u32, y: u32)
    ensures Step(Xor(x, y)) == Xor(Step(x), Step(y))
  {
    hide Xor, Half, Tap;
    HalfIsLinear(x, y);
    TapIsLinear(x, y);
    XorSwapsLast(Half(x), Half(y), Tap(x));
    XorAssociates(Xor(Half(x), Tap(x)), Half(y), Tap(y));
    XorAssociates(Xor(Half(x), Half(y)), Tap(x), Tap(y));
  }

  lemma HalfIsLinear(x: u32, y: u32)
    ensures Half(Xor(x, y)) == Xor(Half(x), Half(y))
  {
  }

  lemma TapIsLinear(x: u32, y: u32)
    ensures Tap(Xor(x, y)) == Xor(Tap(x), Tap(y))
  {
    assert (x ^ y) & 1 == (x & 1) ^ (y & 1);
  }

  lemma Step8IsLinear(x: u32, y: u32)
    ensures Step8(Xor(x, y)) == Xor(Step8(x), Step8(y))
  {
    hide Step, Xor;
    StepIsLinear(x, y);
    StepIsLinear(Step(x), Step(y));
    StepIsLinear(Step(Step(x)), Step(Step(y)));
    StepIsLinear(Step(Step(Step(x))), Step(Step(Step(y))));
    StepIsLinear(Step(Step(Step(Step(x)))), Step(Step(Step(Step(y)))));
    StepIsLinear(Step(Step(Step(Step(Step(x))))), Step(Step(Step(Step(Step(y))))));
    StepIsLinear(Step(Step(Step(Step(Step(Step(x)))))), Step(Step(Step(Step(Step(Step(y)))))));
    StepIsLinear(Step(Step(Step(Step(Step(Step(Step(x))))))), Step(Step(Step(Step(Step(Step(Step(y))))))));
  }

  function HighBytes(x: u32): u32 { x & 0xffff_ff00 }

  /** With a low byte of zeros, eight bit-steps only shift. */
  lemma HighBytesShift(x: u32)
    ensures Step8(HighBytes(x)) == DropByte(x)
  {
  }

  lemma BytesSplit(x: u32)
    ensures x == Xor(HighBytes(x), LowByte(x) as bv32)
  {
  }

  /** Shifting a whole byte out and folding its remainder back in equals eight bit-steps. */
  lemma ByteStep(x: u32)
    ensures Step8(x) == Xor(DropByte(x), Step8(LowByte(x) as bv32))
  {
    hide Step8, Xor, HighBytes, LowByte, DropByte;
    BytesSplit(x);
    Step8IsLinear(HighBytes(x), LowByte(x) as bv32);
    HighBytesShift(x);
  }

  /** The check value that catalogues of CRC algorithms give for this one: its result on "123456789". */
  lemma CheckValue()
    ensures Hash([0x31, 0x32, 0x33, 0x34, 0x35, 0x36, 0x37, 0x38, 0x39]) == 0xcbf43926
  {
    var s: seq<u8> := [0x31, 0x32, 0x33, 0x34, 0x35, 0x36, 0x37, 0x38, 0x39];
    assert s[0..] == s;
    FeedFirst(0xffffffff, s[0..], 0x7c231048);
    FeedFirst(0x7c231048, s[1..], 0xb0acbb32);
    FeedFirst(0xb0acbb32, s[2..], 0x77b79c2d);
    FeedFirst(0x77b79c2d, s[3..], 0x641c1f5c);
    FeedFirst(0x641c1f5c, s[4..], 0x340ac5e3);
    FeedFirst(0x340ac5e3, s[5..], 0xf68d2c9e);
    FeedFirst(0xf68d2c9e, s[6..], 0xaffc9660);
    FeedFirst(0xaffc9660, s[7..], 0x651f2550);
    FeedFirst(0x651f2550, s[8..], 0x340bc6d9);
    assert Xor(0x340bc6d9, 0xffffffff) == 0xcbf43926;
  }

  lemma FeedFirst(crc: u32, s: seq<u8>, next: u32)
    requires s != [] && Step8(Xor(crc, Wide(s[0]))) == next
    ensures Feed(crc, s) == Feed(next, s[1..])
  {
    hide Step8, Xor, Wide;
  }

  /** The table-driven loop computes the bitwise CRC of every byte string. */
  method HashBytes(bytes: seq<u8>) returns (h: u32)
    ensures h == Hash(bytes)
  {
    hide Step8, Wide, Xor;
    var crc: u32 := 0xffffffff;
    var n := 0;
    while n < |bytes|
      invariant 0 <= n <= |bytes|
      invariant Feed(crc, bytes[n..]) == Feed(0xffffffff, bytes)
    {
      assert bytes[n..][1..] == bytes[n + 1..];
      crc := TableUpdate(crc, bytes[n]);
      n := n + 1;
    }
    h := Xor(crc, 0xffffffff);
  }

  /** The loop body: shift a byte out and xor in one table entry. */
  function TableUpdate(crc: u32, b: u8): (r: u32)
    ensures r == Step8(Xor(crc, Wide(b)))
  {
    hide Step8, Wide, Xor, DropByte, LowByte;
    var index := LowByte(Xor(crc, Wide(b)));
    TableIsBitwise(index);
    ByteStep(Xor(crc, Wide(b)));
    UpperBytesUntouched(crc, b);
    Xor(DropByte(crc), CRC32_TABLE[index as int / 8][index as int % 8])
  }

  lemma UpperBytesUntouched(crc: u32, b: u8)
    ensures DropByte(Xor(crc, Wide(b))) == DropByte(crc)
  {
  }

  // ---------- what the hash can tell apart ----------

  lemma WideIsInjective(a: u8, b: u8)
    requires Wide(a) == Wide(b)
    ensures a == b
  {
  }

  lemma WideIsLow(b: u8)
    ensures Wide(b) & 0xff == Wide(b)
  {
  }

  lemma StepIsInjective(x: u32, y: u32)
    requires Step(x) == Step(y)
    ensures x == y
  {
  }

  lemma Step8IsInjective(x: u32, y: u32)
    requires Step8(x) == Step8(y)
    ensures x == y
  {
    hide Step;
    StepIsInjective(Step(Step(Step(Step(Step(Step(Step(x))))))), Step(Step(Step(Step(Step(Step(Step(y))))))));
    StepIsInjective(Step(Step(Step(Step(Step(Step(x)))))), Step(Step(Step(Step(Step(Step(y)))))));
    StepIsInjective(Step(Step(Step(Step(Step(x))))), Step(Step(Step(Step(Step(y))))));
    StepIsInjective(Step(Step(Step(Step(x)))), Step(Step(Step(Step(y)))));
    StepIsInjective(Step(Step(Step(x))), Step(Step(Step(y))));
    StepIsInjective(Step(Step(x)), Step(Step(y)));
    StepIsInjective(Step(x), Step(y));
    StepIsInjective(x, y);
  }

  /** The inverse of one bit-step: the top bit tells whether the polynomial was added. */
  function Unstep(y: u32): u32 {
    if y & 0x8000_0000 == 0 then y << 1 else ((y ^ 0xedb88320) << 1) | 1
  }

  function Unstep8(y: u32): u32 {
    Unstep(Unstep(Unstep(Unstep(Unstep(Unstep(Unstep(Unstep(y))))))))
  }

  lemma StepUnstep(y: u32)
    ensures Step(Unstep(y)) == y
  {
    if y & 0x8000_0000 == 0 {
      assert (y << 1) & 1 == 0;
    } else {
      assert (((y ^ 0xedb88320) << 1) | 1) & 1 == 1;
    }
  }

  lemma Step8Unstep8(e: u32)
    ensures Step8(Unstep8(e)) == e
  {
    hide Step, Unstep;
    StepUnstep(Unstep(Unstep(Unstep(Unstep(Unstep(Unstep(Unstep(e))))))));
    StepUnstep(Unstep(Unstep(Unstep(Unstep(Unstep(Unstep(e)))))));
    StepUnstep(Unstep(Unstep(Unstep(Unstep(Unstep(e))))));
    StepUnstep(Unstep(Unstep(Unstep(Unstep(e)))));
    StepUnstep(Unstep(Unstep(Unstep(e))));
    StepUnstep(Unstep(Unstep(e)));
    StepUnstep(Unstep(e));
    StepUnstep(e);
  }

  lemma XorCancels(c: u32, d: u32, x: u32)
    requires Xor(c, x) == Xor(d, x)
    ensures c == d
  {
  }

  lemma XorTwice(c: u32, x: u32)
    ensures Xor(Xor(c, x), x) == c
  {
  }

  lemma XorCommutes(a: u32, b: u32)
    ensures Xor(a, b) == Xor(b, a)
  {
  }

  lemma XorSwapsLast(a: u32, b: u32, c: u32)
    ensures Xor(Xor(a, b), c) == Xor(Xor(a, c), b)
  {
    hide Xor;
    XorAssociates(a, b, c);
    XorAssociates(a, c, b);
    XorCommutes(b, c);
  }

  lemma XorAssociates(a: u32, b: u32, c: u32)
    ensures Xor(Xor(a, b), c) == Xor(a, Xor(b, c))
  {
  }

  lemma FeedOne(c: u32, b: u8)
    ensures Feed(c, [b]) == Step8(Xor(c, Wide(b)))
  {
    hide Step8, Wide, Xor;
    assert Feed(Step8(Xor(c, Wide(b))), [b][1..]) == Step8(Xor(c, Wide(b)));
  }

  /** Feeding one fixed byte is a bijection on states: it is injective, and every state is
      reached. */
  lemma ByteUpdateIsBijection(b: u8)
    ensures forall c: u32, d: u32 :: Feed(c, [b]) == Feed(d, [b]) ==> c == d
    ensures forall e: u32 :: Feed(Xor(Unstep8(e), Wide(b)), [b]) == e
  {
    hide Step8, Unstep8, Wide, Xor;
    forall c: u32, d: u32 | Feed(c, [b]) == Feed(d, [b])
      ensures c == d
    {
      FeedIsInjective(c, d, [b]);
    }
    forall e: u32
      ensures Feed(Xor(Unstep8(e), Wide(b)), [b]) == e
    {
      FeedOne(Xor(Unstep8(e), Wide(b)), b);
      XorTwice(Unstep8(e), Wide(b));
      Step8Unstep8(e);
    }
  }

  lemma {:induction false} FeedConcat(c: u32, s: seq<u8>, t: seq<u8>)
    ensures Feed(c, s + t) == Feed(Feed(c, s), t)
    decreases |s|
  {
    hide Step8, Wide, Xor;
    if s == [] {
      assert s + t == t;
    } else {
      FeedConcat(Step8(Xor(c, Wide(s[0]))), s[1..], t);
      assert (s + t)[1..] == s[1..] + t;
    }
  }

  lemma {:induction false} FeedIsInjective(c: u32, d: u32, s: seq<u8>)
    requires Feed(c, s) == Feed(d, s)
    ensures c == d
    decreases |s|
  {
    hide Step8, Wide, Xor;
    if s != [] {
      var w := Wide(s[0]);
      FeedIsInjective(Step8(Xor(c, w)), Step8(Xor(d, w)), s[1..]);
      Step8IsInjective(Xor(c, w), Xor(d, w));
      XorCancels(c, d, w);
    }
  }

  /** A low byte with further bytes packed above it. */
  function Pack(low: u32, high: u32): u32 { low | (high << 8) }

  /** Up to four bytes packed into one word, first byte lowest. */
  function Load(s: seq<u8>): u32
    decreases |s|
  {
    if s == [] then 0 else Pack(Wide(s[0]), Load(s[1..]))
  }

  /** n rounds of eight bit-steps. */
  function Rounds(x: u32, n: nat): u32
    decreases n
  {
    if n == 0 then x else Rounds(Step8(x), n - 1)
  }

  lemma {:induction false} RoundsAreInjective(x: u32, y: u32, n: nat)
    requires Rounds(x, n) == Rounds(y, n)
    ensures x == y
    decreases n
  {
    hide Step8;
    if n > 0 {
      RoundsAreInjective(Step8(x), Step8(y), n - 1);
      Step8IsInjective(x, y);
    }
  }

  /** The word has at most n bytes. */
  predicate Below(x: u32, n: nat) {
    match n
    case 0 => x == 0
    case 1 => x & 0xffff_ff00 == 0
    case 2 => x & 0xffff_0000 == 0
    case 3 => x & 0xff00_0000 == 0
    case _ => true
  }

  lemma PackBelow(low: u32, high: u32, n: nat)
    requires low & 0xff == low && Below(high, n)
    ensures Below(Pack(low, high), n + 1)
  {
  }

  lemma {:induction false} LoadBelow(s: seq<u8>)
    requires |s| <= 4
    ensures Below(Load(s), |s|)
    decreases |s|
  {
    if s != [] {
      hide Wide, Pack, Below;
      LoadBelow(s[1..]);
      WideIsLow(s[0]);
      PackBelow(Wide(s[0]), Load(s[1..]), |s| - 1);
    }
  }

  lemma BelowThree(x: u32, n: nat)
    requires n <= 3 && Below(x, n)
    ensures x & 0xff00_0000 == 0
  {
    if n == 0 {
    } else if n == 1 {
      assert Below(x, 2);
    } else if n == 2 {
    } else {
    }
  }

  /** Bytes above the lowest one just move down, unchanged, through eight steps. */
  lemma HighBytesMoveDown(c: u32, low: u32, high: u32)
    requires low & 0xff == low && high & 0xff00_0000 == 0
    ensures Step8(Xor(c, Pack(low, high))) == Xor(Step8(Xor(c, low)), high)
  {
    hide Step8, Xor, Pack, HighBytes, DropByte;
    PackSplits(low, high);
    XorAssociates(c, low, high << 8);
    Step8IsLinear(Xor(c, low), high << 8);
    HighBytesShift(high << 8);
  }

  lemma PackSplits(low: u32, high: u32)
    requires low & 0xff == low && high & 0xff00_0000 == 0
    ensures Pack(low, high) == Xor(low, high << 8)
    ensures HighBytes(high << 8) == high << 8 && DropByte(high << 8) == high
  {
  }

  /** Feeding at most four bytes one at a time equals xoring them in as one word first. */
  lemma {:induction false} FeedWindow(c: u32, s: seq<u8>)
    requires |s| <= 4
    ensures Feed(c, s) == Rounds(Xor(c, Load(s)), |s|)
    decreases |s|
  {
    if s == [] {
    } else {
      hide Step8, Wide, Xor, Pack, Below;
      var w, high := Wide(s[0]), Load(s[1..]);
      FeedWindow(Step8(Xor(c, w)), s[1..]);
      LoadBelow(s[1..]);
      BelowThree(high, |s| - 1);
      WideIsLow(s[0]);
      HighBytesMoveDown(c, w, high);
    }
  }

  lemma PackParts(w: u32, high: u32)
    requires w & 0xff == w && high & 0xff00_0000 == 0
    ensures Pack(w, high) & 0xff == w && Pack(w, high) >> 8 == high
  {
  }

  lemma PackIsInjective(w: u32, high: u32, v: u32, top: u32)
    requires w & 0xff == w && v & 0xff == v && high & 0xff00_0000 == 0 && top & 0xff00_0000 == 0
    requires Pack(w, high) == Pack(v, top)
    ensures w == v && high == top
  {
    PackParts(w, high);
    PackParts(v, top);
  }

  lemma LoadParts(s: seq<u8>, t: seq<u8>)
    requires 0 < |s| == |t| <= 4 && Load(s) == Load(t)
    ensures Wide(s[0]) == Wide(t[0]) && Load(s[1..]) == Load(t[1..])
  {
    hide Wide, Pack, Below;
    LoadBelow(s[1..]);
    BelowThree(Load(s[1..]), |s| - 1);
    LoadBelow(t[1..]);
    BelowThree(Load(t[1..]), |t| - 1);
    WideIsLow(s[0]);
    WideIsLow(t[0]);
    PackIsInjective(Wide(s[0]), Load(s[1..]), Wide(t[0]), Load(t[1..]));
  }

  lemma {:induction false} LoadIsInjective(s: seq<u8>, t: seq<u8>)
    requires |s| == |t| <= 4 && Load(s) == Load(t)
    ensures s == t
    decreases |s|
  {
    if s != [] {
      hide Wide, Pack, Below;
      LoadParts(s, t);
      WideIsInjective(s[0], t[0]);
      LoadIsInjective(s[1..], t[1..]);
      assert s == [s[0]] + s[1..] && t == [t[0]] + t[1..];
    }
  }

  /** Equal hashes of strings that differ at most in one window force equal windows. */
  lemma WindowDecides(p: seq<u8>, v: seq<u8>, w: seq<u8>, q: seq<u8>)
    requires |v| == |w| <= 4 && Hash(p + (v + q)) == Hash(p + (w + q))
    ensures v == w
  {
    hide Step8, Wide, Xor;
    var c := Feed(0xffffffff, p);
    XorCancels(Feed(0xffffffff, p + (v + q)), Feed(0xffffffff, p + (w + q)), 0xffffffff);
    FeedConcat(0xffffffff, p, v + q);
    FeedConcat(0xffffffff, p, w + q);
    FeedConcat(c, v, q);
    FeedConcat(c, w, q);
    FeedIsInjective(Feed(c, v), Feed(c, w), q);
    SameWindow(c, v, w);
  }

  /** Two different keys of one length that differ only within four consecutive bytes never
      get the same hash. */
  lemma BurstsAreDetected(s: seq<u8>, t: seq<u8>, at: nat)
    requires |s| == |t| && s != t
    requires forall i | 0 <= i < |s| && !(at <= i < at + 4) :: s[i] == t[i]
    ensures Hash(s) != Hash(t)
  {
    hide Hash;
    var lo := if at <= |s| then at else |s|;
    var hi := if at + 4 <= |s| then at + 4 else |s|;
    assert s == s[..lo] + (s[lo..hi] + s[hi..]);
    assert t == s[..lo] + (t[lo..hi] + s[hi..]);
    if Hash(s) == Hash(t) {
      WindowDecides(s[..lo], s[lo..hi], t[lo..hi], s[hi..]);
    }
  }

  lemma SameWindow(c: u32, v: seq<u8>, w: seq<u8>)
    requires |v| == |w| <= 4 && Feed(c, v) == Feed(c, w)
    ensures v == w
  {
    hide Step8, Wide, Xor;
    FeedWindow(c, v);
    FeedWindow(c, w);
    RoundsAreInjective(Xor(c, Load(v)), Xor(c, Load(w)), |v|);
    XorCommutes(c, Load(v));
    XorCommutes(c, Load(w));
    XorCancels(Load(v), Load(w), c);
    LoadIsInjective(v, w);
  }
}
