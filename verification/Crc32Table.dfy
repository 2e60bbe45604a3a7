/** The table of the CRC-32 of libiberty, and the generator it comes from. */
module Crc32Table {
  const POLY: bv32 := 0x04c11db7
  const TOP: bv32 := 0x80000000

  /** One step of the generator of the table: multiply by x modulo the polynomial. */
  function Step(c: bv32): bv32 {
    if c & TOP != 0 then (c << 1) ^ POLY else c << 1
  }

  function EightSteps(c: bv32): bv32 {
    Step(Step(Step(Step(Step(Step(Step(Step(c))))))))
  }

  function Quad(j: bv8, e0: bv32, e1: bv32, e2: bv32, e3: bv32): bv32 {
    if j == 0 then e0 else if j == 1 then e1 else if j == 2 then e2 else e3
  }

  function Rows0(i: bv8): bv32 {
    if i < 4 then Quad(i & 3, 0x00000000, 0x04c11db7, 0x09823b6e, 0x0d4326d9)
    else if i < 8 then Quad(i & 3, 0x130476dc, 0x17c56b6b, 0x1a864db2, 0x1e475005)
    else if i < 12 then Quad(i & 3, 0x2608edb8, 0x22c9f00f, 0x2f8ad6d6, 0x2b4bcb61)
    else Quad(i & 3, 0x350c9b64, 0x31cd86d3, 0x3c8ea00a, 0x384fbdbd)
  }

  function Rows1(i: bv8): bv32 {
    if i < 20 then Quad(i & 3, 0x4c11db70, 0x48d0c6c7, 0x4593e01e, 0x4152fda9)
    else if i < 24 then Quad(i & 3, 0x5f15adac, 0x5bd4b01b, 0x569796c2, 0x52568b75)
    else if i < 28 then Quad(i & 3, 0x6a1936c8, 0x6ed82b7f, 0x639b0da6, 0x675a1011)
    else Quad(i & 3, 0x791d4014, 0x7ddc5da3, 0x709f7b7a, 0x745e66cd)
  }

  function Rows2(i: bv8): bv32 {
    if i < 36 then Quad(i & 3, 0x9823b6e0, 0x9ce2ab57, 0x91a18d8e, 0x95609039)
    else if i < 40 then Quad(i & 3, 0x8b27c03c, 0x8fe6dd8b, 0x82a5fb52, 0x8664e6e5)
    else if i < 44 then Quad(i & 3, 0xbe2b5b58, 0xbaea46ef, 0xb7a96036, 0xb3687d81)
    else Quad(i & 3, 0xad2f2d84, 0xa9ee3033, 0xa4ad16ea, 0xa06c0b5d)
  }

  function Rows3(i: bv8): bv32 {
    if i < 52 then Quad(i & 3, 0xd4326d90, 0xd0f37027, 0xddb056fe, 0xd9714b49)
    else if i < 56 then Quad(i & 3, 0xc7361b4c, 0xc3f706fb, 0xceb42022, 0xca753d95)
    else if i < 60 then Quad(i & 3, 0xf23a8028, 0xf6fb9d9f, 0xfbb8bb46, 0xff79a6f1)
    else Quad(i & 3, 0xe13ef6f4, 0xe5ffeb43, 0xe8bccd9a, 0xec7dd02d)
  }

  function Rows4(i: bv8): bv32 {
    if i < 68 then Quad(i & 3, 0x34867077, 0x30476dc0, 0x3d044b19, 0x39c556ae)
    else if i < 72 then Quad(i & 3, 0x278206ab, 0x23431b1c, 0x2e003dc5, 0x2ac12072)
    else if i < 76 then Quad(i & 3, 0x128e9dcf, 0x164f8078, 0x1b0ca6a1, 0x1fcdbb16)
    else Quad(i & 3, 0x018aeb13, 0x054bf6a4, 0x0808d07d, 0x0cc9cdca)
  }

  function Rows5(i: bv8): bv32 {
    if i < 84 then Quad(i & 3, 0x7897ab07, 0x7c56b6b0, 0x71159069, 0x75d48dde)
    else if i < 88 then Quad(i & 3, 0x6b93dddb, 0x6f52c06c, 0x6211e6b5, 0x66d0fb02)
    else if i < 92 then Quad(i & 3, 0x5e9f46bf, 0x5a5e5b08, 0x571d7dd1, 0x53dc6066)
    else Quad(i & 3, 0x4d9b3063, 0x495a2dd4, 0x44190b0d, 0x40d816ba)
  }

  function Rows6(i: bv8): bv32 {
    if i < 100 then Quad(i & 3, 0xaca5c697, 0xa864db20, 0xa527fdf9, 0xa1e6e04e)
    else if i < 104 then Quad(i & 3, 0xbfa1b04b, 0xbb60adfc, 0xb6238b25, 0xb2e29692)
    else if i < 108 then Quad(i & 3, 0x8aad2b2f, 0x8e6c3698, 0x832f1041, 0x87ee0df6)
    else Quad(i & 3, 0x99a95df3, 0x9d684044, 0x902b669d, 0x94ea7b2a)
  }

  function Rows7(i: bv8): bv32 {
    if i < 116 then Quad(i & 3, 0xe0b41de7, 0xe4750050, 0xe9362689, 0xedf73b3e)
    else if i < 120 then Quad(i & 3, 0xf3b06b3b, 0xf771768c, 0xfa325055, 0xfef34de2)
    else if i < 124 then Quad(i & 3, 0xc6bcf05f, 0xc27dede8, 0xcf3ecb31, 0xcbffd686)
    else Quad(i & 3, 0xd5b88683, 0xd1799b34, 0xdc3abded, 0xd8fba05a)
  }

  function Rows8(i: bv8): bv32 {
    if i < 132 then Quad(i & 3, 0x690ce0ee, 0x6dcdfd59, 0x608edb80, 0x644fc637)
    else if i < 136 then Quad(i & 3, 0x7a089632, 0x7ec98b85, 0x738aad5c, 0x774bb0eb)
    else if i < 140 then Quad(i & 3, 0x4f040d56, 0x4bc510e1, 0x46863638, 0x42472b8f)
    else Quad(i & 3, 0x5c007b8a, 0x58c1663d, 0x558240e4, 0x51435d53)
  }

  function Rows9(i: bv8): bv32 {
    if i < 148 then Quad(i & 3, 0x251d3b9e, 0x21dc2629, 0x2c9f00f0, 0x285e1d47)
    else if i < 152 then Quad(i & 3, 0x36194d42, 0x32d850f5, 0x3f9b762c, 0x3b5a6b9b)
    else if i < 156 then Quad(i & 3, 0x0315d626, 0x07d4cb91, 0x0a97ed48, 0x0e56f0ff)
    else Quad(i & 3, 0x1011a0fa, 0x14d0bd4d, 0x19939b94, 0x1d528623)
  }

  function RowsA(i: bv8): bv32 {
    if i < 164 then Quad(i & 3, 0xf12f560e, 0xf5ee4bb9, 0xf8ad6d60, 0xfc6c70d7)
    else if i < 168 then Quad(i & 3, 0xe22b20d2, 0xe6ea3d65, 0xeba91bbc, 0xef68060b)
    else if i < 172 then Quad(i & 3, 0xd727bbb6, 0xd3e6a601, 0xdea580d8, 0xda649d6f)
    else Quad(i & 3, 0xc423cd6a, 0xc0e2d0dd, 0xcda1f604, 0xc960ebb3)
  }

  function RowsB(i: bv8): bv32 {
    if i < 180 then Quad(i & 3, 0xbd3e8d7e, 0xb9ff90c9, 0xb4bcb610, 0xb07daba7)
    else if i < 184 then Quad(i & 3, 0xae3afba2, 0xaafbe615, 0xa7b8c0cc, 0xa379dd7b)
    else if i < 188 then Quad(i & 3, 0x9b3660c6, 0x9ff77d71, 0x92b45ba8, 0x9675461f)
    else Quad(i & 3, 0x8832161a, 0x8cf30bad, 0x81b02d74, 0x857130c3)
  }

  function RowsC(i: bv8): bv32 {
    if i < 196 then Quad(i & 3, 0x5d8a9099, 0x594b8d2e, 0x5408abf7, 0x50c9b640)
    else if i < 200 then Quad(i & 3, 0x4e8ee645, 0x4a4ffbf2, 0x470cdd2b, 0x43cdc09c)
    else if i < 204 then Quad(i & 3, 0x7b827d21, 0x7f436096, 0x7200464f, 0x76c15bf8)
    else Quad(i & 3, 0x68860bfd, 0x6c47164a, 0x61043093, 0x65c52d24)
  }

  function RowsD(i: bv8): bv32 {
    if i < 212 then Quad(i & 3, 0x119b4be9, 0x155a565e, 0x18197087, 0x1cd86d30)
    else if i < 216 then Quad(i & 3, 0x029f3d35, 0x065e2082, 0x0b1d065b, 0x0fdc1bec)
    else if i < 220 then Quad(i & 3, 0x3793a651, 0x3352bbe6, 0x3e119d3f, 0x3ad08088)
    else Quad(i & 3, 0x2497d08d, 0x2056cd3a, 0x2d15ebe3, 0x29d4f654)
  }

  function RowsE(i: bv8): bv32 {
    if i < 228 then Quad(i & 3, 0xc5a92679, 0xc1683bce, 0xcc2b1d17, 0xc8ea00a0)
    else if i < 232 then Quad(i & 3, 0xd6ad50a5, 0xd26c4d12, 0xdf2f6bcb, 0xdbee767c)
    else if i < 236 then Quad(i & 3, 0xe3a1cbc1, 0xe760d676, 0xea23f0af, 0xeee2ed18)
    else Quad(i & 3, 0xf0a5bd1d, 0xf464a0aa, 0xf9278673, 0xfde69bc4)
  }

  function RowsF(i: bv8): bv32 {
    if i < 244 then Quad(i & 3, 0x89b8fd09, 0x8d79e0be, 0x803ac667, 0x84fbdbd0)
    else if i < 248 then Quad(i & 3, 0x9abc8bd5, 0x9e7d9662, 0x933eb0bb, 0x97ffad0c)
    else if i < 252 then Quad(i & 3, 0xafb010b1, 0xab710d06, 0xa6322bdf, 0xa2f33668)
    else Quad(i & 3, 0xbcb4666d, 0xb8757bda, 0xb5365d03, 0xb1f740b4)
  }

  /** The constant table, in blocks of four rows of four. */
  function Table(i: bv8): bv32 {
    if i < 16 then Rows0(i)
    else if i < 32 then Rows1(i)
    else if i < 48 then Rows2(i)
    else if i < 64 then Rows3(i)
    else if i < 80 then Rows4(i)
    else if i < 96 then Rows5(i)
    else if i < 112 then Rows6(i)
    else if i < 128 then Rows7(i)
    else if i < 144 then Rows8(i)
    else if i < 160 then Rows9(i)
    else if i < 176 then RowsA(i)
    else if i < 192 then RowsB(i)
    else if i < 208 then RowsC(i)
    else if i < 224 then RowsD(i)
    else if i < 240 then RowsE(i)
    else RowsF(i)
  }

  lemma Rows0Generated(i: bv8)
    requires i <= 15
    ensures Rows0(i) == EightSteps((i as bv32) << 24)
  {
  }

  lemma Rows1Generated(i: bv8)
    requires 16 <= i <= 31
    ensures Rows1(i) == EightSteps((i as bv32) << 24)
  {
  }

  lemma Rows2Generated(i: bv8)
    requires 32 <= i <= 47
    ensures Rows2(i) == EightSteps((i as bv32) << 24)
  {
  }

  lemma Rows3Generated(i: bv8)
    requires 48 <= i <= 63
    ensures Rows3(i) == EightSteps((i as bv32) << 24)
  {
  }

  lemma Rows4Generated(i: bv8)
    requires 64 <= i <= 79
    ensures Rows4(i) == EightSteps((i as bv32) << 24)
  {
  }

  lemma Rows5Generated(i: bv8)
    requires 80 <= i <= 95
    ensures Rows5(i) == EightSteps((i as bv32) << 24)
  {
  }

  lemma Rows6Generated(i: bv8)
    requires 96 <= i <= 111
    ensures Rows6(i) == EightSteps((i as bv32) << 24)
  {
  }

  lemma Rows7Generated(i: bv8)
    requires 112 <= i <= 127
    ensures Rows7(i) == EightSteps((i as bv32) << 24)
  {
  }

  lemma Rows8Generated(i: bv8)
    requires 128 <= i <= 143
    ensures Rows8(i) == EightSteps((i as bv32) << 24)
  {
  }

  lemma Rows9Generated(i: bv8)
    requires 144 <= i <= 159
    ensures Rows9(i) == EightSteps((i as bv32) << 24)
  {
  }

  lemma RowsAGenerated(i: bv8)
    requires 160 <= i <= 175
    ensures RowsA(i) == EightSteps((i as bv32) << 24)
  {
  }

  lemma RowsBGenerated(i: bv8)
    requires 176 <= i <= 191
    ensures RowsB(i) == EightSteps((i as bv32) << 24)
  {
  }

  lemma RowsCGenerated(i: bv8)
    requires 192 <= i <= 207
    ensures RowsC(i) == EightSteps((i as bv32) << 24)
  {
  }

  lemma RowsDGenerated(i: bv8)
    requires 208 <= i <= 223
    ensures RowsD(i) == EightSteps((i as bv32) << 24)
  {
  }

  lemma RowsEGenerated(i: bv8)
    requires 224 <= i <= 239
    ensures RowsE(i) == EightSteps((i as bv32) << 24)
  {
  }

  lemma RowsFGenerated(i: bv8)
    requires 240 <= i
    ensures RowsF(i) == EightSteps((i as bv32) << 24)
  {
  }

  /** Every entry of the table is eight steps of the generator. */
  lemma TableIsEightSteps(i: bv8)
    ensures Table(i) == EightSteps((i as bv32) << 24)
  {
    hide EightSteps, Rows0, Rows1, Rows2, Rows3, Rows4, Rows5, Rows6, Rows7,
         Rows8, Rows9, RowsA, RowsB, RowsC, RowsD, RowsE, RowsF;
    if i < 16 {
      Rows0Generated(i);
    } else if i < 32 {
      Rows1Generated(i);
    } else if i < 48 {
      Rows2Generated(i);
    } else if i < 64 {
      Rows3Generated(i);
    } else if i < 80 {
      Rows4Generated(i);
    } else if i < 96 {
      Rows5Generated(i);
    } else if i < 112 {
      Rows6Generated(i);
    } else if i < 128 {
      Rows7Generated(i);
    } else if i < 144 {
      Rows8Generated(i);
    } else if i < 160 {
      Rows9Generated(i);
    } else if i < 176 {
      RowsAGenerated(i);
    } else if i < 192 {
      RowsBGenerated(i);
    } else if i < 208 {
      RowsCGenerated(i);
    } else if i < 224 {
      RowsDGenerated(i);
    } else if i < 240 {
      RowsEGenerated(i);
    } else {
      RowsFGenerated(i);
    }
  }
}
