/** The table of the telemetry checksum, and what each of its entries is. */
module CrcCcittTable {

  const ROWS_0: seq<bv16> := [
    0x0000, 0x1189, 0x2312, 0x329B, 0x4624, 0x57AD, 0x6536, 0x74BF,
    0x8C48, 0x9DC1, 0xAF5A, 0xBED3, 0xCA6C, 0xDBE5, 0xE97E, 0xF8F7,
    0x1081, 0x0108, 0x3393, 0x221A, 0x56A5, 0x472C, 0x75B7, 0x643E,
    0x9CC9, 0x8D40, 0xBFDB, 0xAE52, 0xDAED, 0xCB64, 0xF9FF, 0xE876
  ]

  const ROWS_1: seq<bv16> := [
    0x2102, 0x308B, 0x0210, 0x1399, 0x6726, 0x76AF, 0x4434, 0x55BD,
    0xAD4A, 0xBCC3, 0x8E58, 0x9FD1, 0xEB6E, 0xFAE7, 0xC87C, 0xD9F5,
    0x3183, 0x200A, 0x1291, 0x0318, 0x77A7, 0x662E, 0x54B5, 0x453C,
    0xBDCB, 0xAC42, 0x9ED9, 0x8F50, 0xFBEF, 0xEA66, 0xD8FD, 0xC974
  ]

  const ROWS_2: seq<bv16> := [
    0x4204, 0x538D, 0x6116, 0x709F, 0x0420, 0x15A9, 0x2732, 0x36BB,
    0xCE4C, 0xDFC5, 0xED5E, 0xFCD7, 0x8868, 0x99E1, 0xAB7A, 0xBAF3,
    0x5285, 0x430C, 0x7197, 0x601E, 0x14A1, 0x0528, 0x37B3, 0x263A,
    0xDECD, 0xCF44, 0xFDDF, 0xEC56, 0x98E9, 0x8960, 0xBBFB, 0xAA72
  ]

  const ROWS_3: seq<bv16> := [
    0x6306, 0x728F, 0x4014, 0x519D, 0x2522, 0x34AB, 0x0630, 0x17B9,
    0xEF4E, 0xFEC7, 0xCC5C, 0xDDD5, 0xA96A, 0xB8E3, 0x8A78, 0x9BF1,
    0x7387, 0x620E, 0x5095, 0x411C, 0x35A3, 0x242A, 0x16B1, 0x0738,
    0xFFCF, 0xEE46, 0xDCDD, 0xCD54, 0xB9EB, 0xA862, 0x9AF9, 0x8B70
  ]

  const ROWS_4: seq<bv16> := [
    0x8408, 0x9581, 0xA71A, 0xB693, 0xC22C, 0xD3A5, 0xE13E, 0xF0B7,
    0x0840, 0x19C9, 0x2B52, 0x3ADB, 0x4E64, 0x5FED, 0x6D76, 0x7CFF,
    0x9489, 0x8500, 0xB79B, 0xA612, 0xD2AD, 0xC324, 0xF1BF, 0xE036,
    0x18C1, 0x0948, 0x3BD3, 0x2A5A, 0x5EE5, 0x4F6C, 0x7DF7, 0x6C7E
  ]

  const ROWS_5: seq<bv16> := [
    0xA50A, 0xB483, 0x8618, 0x9791, 0xE32E, 0xF2A7, 0xC03C, 0xD1B5,
    0x2942, 0x38CB, 0x0A50, 0x1BD9, 0x6F66, 0x7EEF, 0x4C74, 0x5DFD,
    0xB58B, 0xA402, 0x9699, 0x8710, 0xF3AF, 0xE226, 0xD0BD, 0xC134,
    0x39C3, 0x284A, 0x1AD1, 0x0B58, 0x7FE7, 0x6E6E, 0x5CF5, 0x4D7C
  ]

  const ROWS_6: seq<bv16> := [
    0xC60C, 0xD785, 0xE51E, 0xF497, 0x8028, 0x91A1, 0xA33A, 0xB2B3,
    0x4A44, 0x5BCD, 0x6956, 0x78DF, 0x0C60, 0x1DE9, 0x2F72, 0x3EFB,
    0xD68D, 0xC704, 0xF59F, 0xE416, 0x90A9, 0x8120, 0xB3BB, 0xA232,
    0x5AC5, 0x4B4C, 0x79D7, 0x685E, 0x1CE1, 0x0D68, 0x3FF3, 0x2E7A
  ]

  const ROWS_7: seq<bv16> := [
    0xE70E, 0xF687, 0xC41C, 0xD595, 0xA12A, 0xB0A3, 0x8238, 0x93B1,
    0x6B46, 0x7ACF, 0x4854, 0x59DD, 0x2D62, 0x3CEB, 0x0E70, 0x1FF9,
    0xF78F, 0xE606, 0xD49D, 0xC514, 0xB1AB, 0xA022, 0x92B9, 0x8330,
    0x7BC7, 0x6A4E, 0x58D5, 0x495C, 0x3DE3, 0x2C6A, 0x1EF1, 0x0F78
  ]

  const TABLE: seq<bv16> := ROWS_0 + ROWS_1 + ROWS_2 + ROWS_3 + ROWS_4 + ROWS_5 + ROWS_6 + ROWS_7

  /** One step of the division when the message bit is zero. */
  function Shift1(c: bv16): bv16 {
    if c & 1 != 0 then (c >> 1) ^ 0x8408 else c >> 1
  }

  function Shift8(c: bv16): bv16 {
    Shift1(Shift1(Shift1(Shift1(Shift1(Shift1(Shift1(Shift1(c))))))))
  }

  lemma Rows0(x: bv16)
    requires 0x00 <= x < 0x20
    ensures |ROWS_0| == 32 && ROWS_0[x as nat - 0] == Shift8(x)
  {
  }

  lemma Rows1(x: bv16)
    requires 0x20 <= x < 0x40
    ensures |ROWS_1| == 32 && ROWS_1[x as nat - 32] == Shift8(x)
  {
  }

  lemma Rows2(x: bv16)
    requires 0x40 <= x < 0x60
    ensures |ROWS_2| == 32 && ROWS_2[x as nat - 64] == Shift8(x)
  {
  }

  lemma Rows3(x: bv16)
    requires 0x60 <= x < 0x80
    ensures |ROWS_3| == 32 && ROWS_3[x as nat - 96] == Shift8(x)
  {
  }

  lemma Rows4(x: bv16)
    requires 0x80 <= x < 0xA0
    ensures |ROWS_4| == 32 && ROWS_4[x as nat - 128] == Shift8(x)
  {
  }

  lemma Rows5(x: bv16)
    requires 0xA0 <= x < 0xC0
    ensures |ROWS_5| == 32 && ROWS_5[x as nat - 160] == Shift8(x)
  {
  }

  lemma Rows6(x: bv16)
    requires 0xC0 <= x < 0xE0
    ensures |ROWS_6| == 32 && ROWS_6[x as nat - 192] == Shift8(x)
  {
  }

  lemma Rows7(x: bv16)
    requires 0xE0 <= x <= 0xFF
    ensures |ROWS_7| == 32 && ROWS_7[x as nat - 224] == Shift8(x)
  {
  }

  lemma ConcatAt<T>(a: seq<T>, b: seq<T>, c: seq<T>, d: seq<T>, e: seq<T>, f: seq<T>, g: seq<T>, h: seq<T>, i: nat)
    requires |a| == |b| == |c| == |d| == |e| == |f| == |g| == |h| == 32 && i < 256
    ensures (a + b + c + d + e + f + g + h)[i] ==
            if i < 32 then a[i] else if i < 64 then b[i - 32] else if i < 96 then c[i - 64]
            else if i < 128 then d[i - 96] else if i < 160 then e[i - 128] else if i < 192 then f[i - 160]
            else if i < 224 then g[i - 192] else h[i - 224]
  {
  }

  lemma TableAt(i: nat)
    requires i < 256
    ensures |TABLE| == 256
    ensures TABLE[i] ==
            if i < 32 then ROWS_0[i] else if i < 64 then ROWS_1[i - 32] else if i < 96 then ROWS_2[i - 64]
            else if i < 128 then ROWS_3[i - 96] else if i < 160 then ROWS_4[i - 128]
            else if i < 192 then ROWS_5[i - 160] else if i < 224 then ROWS_6[i - 192] else ROWS_7[i - 224]
  {
    ConcatAt(ROWS_0, ROWS_1, ROWS_2, ROWS_3, ROWS_4, ROWS_5, ROWS_6, ROWS_7, i);
  }

  /** Every table entry is what eight single-bit steps make of its index. */
  lemma TableEntry(x: bv16)
    requires x <= 0xFF
    ensures |TABLE| == 256 && TABLE[x as nat] == Shift8(x)
  {
    hide Shift8, TABLE;
    TableAt(x as nat);
    if x < 0x20 {
      Rows0(x);
    } else if x < 0x40 {
      Rows1(x);
    } else if x < 0x60 {
      Rows2(x);
    } else if x < 0x80 {
      Rows3(x);
    } else if x < 0xA0 {
      Rows4(x);
    } else if x < 0xC0 {
      Rows5(x);
    } else if x < 0xE0 {
      Rows6(x);
    } else {
      Rows7(x);
    }
  }
}
