/** The table of the command checksum of SD cards, and what each of its entries is. */
module Crc7Table {

  const ROWS_0: seq<bv8> := [
    0x00, 0x09, 0x12, 0x1B, 0x24, 0x2D, 0x36, 0x3F, 0x48, 0x41, 0x5A, 0x53, 0x6C, 0x65, 0x7E, 0x77,
    0x19, 0x10, 0x0B, 0x02, 0x3D, 0x34, 0x2F, 0x26, 0x51, 0x58, 0x43, 0x4A, 0x75, 0x7C, 0x67, 0x6E
  ]

  const ROWS_1: seq<bv8> := [
    0x32, 0x3B, 0x20, 0x29, 0x16, 0x1F, 0x04, 0x0D, 0x7A, 0x73, 0x68, 0x61, 0x5E, 0x57, 0x4C, 0x45,
    0x2B, 0x22, 0x39, 0x30, 0x0F, 0x06, 0x1D, 0x14, 0x63, 0x6A, 0x71, 0x78, 0x47, 0x4E, 0x55, 0x5C
  ]

  const ROWS_2: seq<bv8> := [
    0x64, 0x6D, 0x76, 0x7F, 0x40, 0x49, 0x52, 0x5B, 0x2C, 0x25, 0x3E, 0x37, 0x08, 0x01, 0x1A, 0x13,
    0x7D, 0x74, 0x6F, 0x66, 0x59, 0x50, 0x4B, 0x42, 0x35, 0x3C, 0x27, 0x2E, 0x11, 0x18, 0x03, 0x0A
  ]

  const ROWS_3: seq<bv8> := [
    0x56, 0x5F, 0x44, 0x4D, 0x72, 0x7B, 0x60, 0x69, 0x1E, 0x17, 0x0C, 0x05, 0x3A, 0x33, 0x28, 0x21,
    0x4F, 0x46, 0x5D, 0x54, 0x6B, 0x62, 0x79, 0x70, 0x07, 0x0E, 0x15, 0x1C, 0x23, 0x2A, 0x31, 0x38
  ]

  const ROWS_4: seq<bv8> := [
    0x41, 0x48, 0x53, 0x5A, 0x65, 0x6C, 0x77, 0x7E, 0x09, 0x00, 0x1B, 0x12, 0x2D, 0x24, 0x3F, 0x36,
    0x58, 0x51, 0x4A, 0x43, 0x7C, 0x75, 0x6E, 0x67, 0x10, 0x19, 0x02, 0x0B, 0x34, 0x3D, 0x26, 0x2F
  ]

  const ROWS_5: seq<bv8> := [
    0x73, 0x7A, 0x61, 0x68, 0x57, 0x5E, 0x45, 0x4C, 0x3B, 0x32, 0x29, 0x20, 0x1F, 0x16, 0x0D, 0x04,
    0x6A, 0x63, 0x78, 0x71, 0x4E, 0x47, 0x5C, 0x55, 0x22, 0x2B, 0x30, 0x39, 0x06, 0x0F, 0x14, 0x1D
  ]

  const ROWS_6: seq<bv8> := [
    0x25, 0x2C, 0x37, 0x3E, 0x01, 0x08, 0x13, 0x1A, 0x6D, 0x64, 0x7F, 0x76, 0x49, 0x40, 0x5B, 0x52,
    0x3C, 0x35, 0x2E, 0x27, 0x18, 0x11, 0x0A, 0x03, 0x74, 0x7D, 0x66, 0x6F, 0x50, 0x59, 0x42, 0x4B
  ]

  const ROWS_7: seq<bv8> := [
    0x17, 0x1E, 0x05, 0x0C, 0x33, 0x3A, 0x21, 0x28, 0x5F, 0x56, 0x4D, 0x44, 0x7B, 0x72, 0x69, 0x60,
    0x0E, 0x07, 0x1C, 0x15, 0x2A, 0x23, 0x38, 0x31, 0x46, 0x4F, 0x54, 0x5D, 0x62, 0x6B, 0x70, 0x79
  ]

  const TABLE: seq<bv8> := ROWS_0 + ROWS_1 + ROWS_2 + ROWS_3 + ROWS_4 + ROWS_5 + ROWS_6 + ROWS_7

  /** One step of the division when the message bit is zero. */
  function Shift1(c: bv8): bv8 {
    if c & 0x80 != 0 then (c << 1) ^ 0x12 else c << 1
  }

  function Shift8(c: bv8): bv8 {
    Shift1(Shift1(Shift1(Shift1(Shift1(Shift1(Shift1(Shift1(c))))))))
  }

  lemma Rows0(x: bv8)
    requires 0x00 <= x < 0x20
    ensures |ROWS_0| == 32 && ROWS_0[x as nat - 0] == Shift8(x) >> 1
  {
  }

  lemma Rows1(x: bv8)
    requires 0x20 <= x < 0x40
    ensures |ROWS_1| == 32 && ROWS_1[x as nat - 32] == Shift8(x) >> 1
  {
  }

  lemma Rows2(x: bv8)
    requires 0x40 <= x < 0x60
    ensures |ROWS_2| == 32 && ROWS_2[x as nat - 64] == Shift8(x) >> 1
  {
  }

  lemma Rows3(x: bv8)
    requires 0x60 <= x < 0x80
    ensures |ROWS_3| == 32 && ROWS_3[x as nat - 96] == Shift8(x) >> 1
  {
  }

  lemma Rows4(x: bv8)
    requires 0x80 <= x < 0xA0
    ensures |ROWS_4| == 32 && ROWS_4[x as nat - 128] == Shift8(x) >> 1
  {
  }

  lemma Rows5(x: bv8)
    requires 0xA0 <= x < 0xC0
    ensures |ROWS_5| == 32 && ROWS_5[x as nat - 160] == Shift8(x) >> 1
  {
  }

  lemma Rows6(x: bv8)
    requires 0xC0 <= x < 0xE0
    ensures |ROWS_6| == 32 && ROWS_6[x as nat - 192] == Shift8(x) >> 1
  {
  }

  lemma Rows7(x: bv8)
    requires 0xE0 <= x <= 0xFF
    ensures |ROWS_7| == 32 && ROWS_7[x as nat - 224] == Shift8(x) >> 1
  {
  }

  lemma ConcatAt<T>(a: seq<T>, b: seq<T>, c: seq<T>, d: seq<T>, e: seq<T>, f: seq<T>, g: seq<T>, h: seq<T>, i: nat)
    requires |a| == |b| == |c| == |d| == |e| == |f| == |g| == |h| == 32 && i < 256
    ensures (a + b + c + d + e + f + g + h)[i] ==
            if i < 32 then a[i] else if i < 64 then b[i - 32] else if i < 96 then c[i - 64]
            else if i < 128 then d[i - 96] else if i < 160 then e[i - 128] else if i < 192 then f[i - 160]
            else if i < 224 then g[i - 192] else h[i - 224]
  {
  }

  lemma TableAt(i: nat)
    requires i < 256
    ensures |TABLE| == 256
    ensures TABLE[i] ==
            if i < 32 then ROWS_0[i] else if i < 64 then ROWS_1[i - 32] else if i < 96 then ROWS_2[i - 64]
            else if i < 128 then ROWS_3[i - 96] else if i < 160 then ROWS_4[i - 128]
            else if i < 192 then ROWS_5[i - 160] else if i < 224 then ROWS_6[i - 192] else ROWS_7[i - 224]
  {
    ConcatAt(ROWS_0, ROWS_1, ROWS_2, ROWS_3, ROWS_4, ROWS_5, ROWS_6, ROWS_7, i);
  }

  /** Every table entry is what eight single-bit steps make of its index. */
  lemma TableEntry(x: bv8)
    requires x <= 0xFF
    ensures |TABLE| == 256 && TABLE[x as nat] == Shift8(x) >> 1
  {
    hide Shift8, TABLE;
    TableAt(x as nat);
    if x < 0x20 {
      Rows0(x);
    } else if x < 0x40 {
      Rows1(x);
    } else if x < 0x60 {
      Rows2(x);
    } else if x < 0x80 {
      Rows3(x);
    } else if x < 0xA0 {
      Rows4(x);
    } else if x < 0xC0 {
      Rows5(x);
    } else if x < 0xE0 {
      Rows6(x);
    } else {
      Rows7(x);
    }
  }
}
