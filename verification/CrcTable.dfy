/** The CRC table of cksum, its generator, and the table step as eight steps of one bit. */
module CrcTable {

  // The coefficients of the generating polynomial below x^32 are 0x04C1_1DB7, the coefficient of x^i in bit i.

  // ----- the table and its generator

  /** Addition of polynomials over GF(2). */
  function Plus(x: bv32, y: bv32): bv32 {
    x ^ y
  }

  function Plus64(x: bv64, y: bv64): bv64 {
    x ^ y
  }

  /** r[i] as fill_r leaves it: 64 bits wide, with bits above bit 31 that are never used. */
  function R(i: nat): bv64 {
    if i == 0 then 0x04C1_1DB7
    else NextPower(R(i - 1))
  }

  function NextPower(r: bv64): bv64 {
    Plus64(Double64(r), if Bit31(r) then 0x04C1_1DB7 else 0)
  }

  function Double64(r: bv64): bv64 {
    r << 1
  }

  predicate Bit31(r: bv64) {
    r & 0x8000_0000 != 0
  }

  /** The macro BIT. */
  function Bit(i: nat): bv8
    requires i < 8
  {
    match i
    case 0 => 1
    case 1 => 2
    case 2 => 4
    case 3 => 8
    case 4 => 16
    case 5 => 32
    case 6 => 64
    case _ => 128
  }

  predicate HasBit(m: bv8, i: nat)
    requires i < 8
  {
    Bit(i) & m != 0
  }

  /** The sum of the r[k], k < i, for which bit k of m is set. */
  function Combination(m: bv8, i: nat): bv64
    requires i <= 8
  {
    if i == 0 then 0 else Plus64(Combination(m, i - 1), if HasBit(m, i - 1) then R(i - 1) else 0)
  }

  method CrcRemainder(r: array<bv64>, m: bv8) returns (rem: bv64)
    requires r.Length == 8 && forall i :: 0 <= i < 8 ==> r[i] == R(i)
    ensures rem == Crctab(m) as bv64
  {
    hide R, Bit, Low, Crctab, HasBit, Plus64, LowHalf;
    rem := 0;
    for i := 0 to 8
      invariant rem == Combination(m, i)
    {
      Plus64Zero(rem);
      if HasBit(m, i) {
        rem := Plus64(rem, r[i]);
      }
    }
    GeneratedTable(m);
    LowValue(rem);
    rem := LowHalf(rem);
  }

  lemma Plus64Zero(x: bv64)
    ensures Plus64(x, 0) == x
  {}

  // The table that the program carries, in rows of 32.

  function Row0(i: bv8): bv32 {
    if i == 0 then 0x00000000 else if i == 1 then 0x04c11db7 else if i == 2 then 0x09823b6e else if i == 3 then 0x0d4326d9 else
    if i == 4 then 0x130476dc else if i == 5 then 0x17c56b6b else if i == 6 then 0x1a864db2 else if i == 7 then 0x1e475005 else
    if i == 8 then 0x2608edb8 else if i == 9 then 0x22c9f00f else if i == 10 then 0x2f8ad6d6 else if i == 11 then 0x2b4bcb61 else
    if i == 12 then 0x350c9b64 else if i == 13 then 0x31cd86d3 else if i == 14 then 0x3c8ea00a else if i == 15 then 0x384fbdbd else
    if i == 16 then 0x4c11db70 else if i == 17 then 0x48d0c6c7 else if i == 18 then 0x4593e01e else if i == 19 then 0x4152fda9 else
    if i == 20 then 0x5f15adac else if i == 21 then 0x5bd4b01b else if i == 22 then 0x569796c2 else if i == 23 then 0x52568b75 else
    if i == 24 then 0x6a1936c8 else if i == 25 then 0x6ed82b7f else if i == 26 then 0x639b0da6 else if i == 27 then 0x675a1011 else
    if i == 28 then 0x791d4014 else if i == 29 then 0x7ddc5da3 else if i == 30 then 0x709f7b7a else 0x745e66cd
  }

  function Row1(i: bv8): bv32 {
    if i == 32 then 0x9823b6e0 else if i == 33 then 0x9ce2ab57 else if i == 34 then 0x91a18d8e else if i == 35 then 0x95609039 else
    if i == 36 then 0x8b27c03c else if i == 37 then 0x8fe6dd8b else if i == 38 then 0x82a5fb52 else if i == 39 then 0x8664e6e5 else
    if i == 40 then 0xbe2b5b58 else if i == 41 then 0xbaea46ef else if i == 42 then 0xb7a96036 else if i == 43 then 0xb3687d81 else
    if i == 44 then 0xad2f2d84 else if i == 45 then 0xa9ee3033 else if i == 46 then 0xa4ad16ea else if i == 47 then 0xa06c0b5d else
    if i == 48 then 0xd4326d90 else if i == 49 then 0xd0f37027 else if i == 50 then 0xddb056fe else if i == 51 then 0xd9714b49 else
    if i == 52 then 0xc7361b4c else if i == 53 then 0xc3f706fb else if i == 54 then 0xceb42022 else if i == 55 then 0xca753d95 else
    if i == 56 then 0xf23a8028 else if i == 57 then 0xf6fb9d9f else if i == 58 then 0xfbb8bb46 else if i == 59 then 0xff79a6f1 else
    if i == 60 then 0xe13ef6f4 else if i == 61 then 0xe5ffeb43 else if i == 62 then 0xe8bccd9a else 0xec7dd02d
  }

  function Row2(i: bv8): bv32 {
    if i == 64 then 0x34867077 else if i == 65 then 0x30476dc0 else if i == 66 then 0x3d044b19 else if i == 67 then 0x39c556ae else
    if i == 68 then 0x278206ab else if i == 69 then 0x23431b1c else if i == 70 then 0x2e003dc5 else if i == 71 then 0x2ac12072 else
    if i == 72 then 0x128e9dcf else if i == 73 then 0x164f8078 else if i == 74 then 0x1b0ca6a1 else if i == 75 then 0x1fcdbb16 else
    if i == 76 then 0x018aeb13 else if i == 77 then 0x054bf6a4 else if i == 78 then 0x0808d07d else if i == 79 then 0x0cc9cdca else
    if i == 80 then 0x7897ab07 else if i == 81 then 0x7c56b6b0 else if i == 82 then 0x71159069 else if i == 83 then 0x75d48dde else
    if i == 84 then 0x6b93dddb else if i == 85 then 0x6f52c06c else if i == 86 then 0x6211e6b5 else if i == 87 then 0x66d0fb02 else
    if i == 88 then 0x5e9f46bf else if i == 89 then 0x5a5e5b08 else if i == 90 then 0x571d7dd1 else if i == 91 then 0x53dc6066 else
    if i == 92 then 0x4d9b3063 else if i == 93 then 0x495a2dd4 else if i == 94 then 0x44190b0d else 0x40d816ba
  }

  function Row3(i: bv8): bv32 {
    if i == 96 then 0xaca5c697 else if i == 97 then 0xa864db20 else if i == 98 then 0xa527fdf9 else if i == 99 then 0xa1e6e04e else
    if i == 100 then 0xbfa1b04b else if i == 101 then 0xbb60adfc else if i == 102 then 0xb6238b25 else if i == 103 then 0xb2e29692 else
    if i == 104 then 0x8aad2b2f else if i == 105 then 0x8e6c3698 else if i == 106 then 0x832f1041 else if i == 107 then 0x87ee0df6 else
    if i == 108 then 0x99a95df3 else if i == 109 then 0x9d684044 else if i == 110 then 0x902b669d else if i == 111 then 0x94ea7b2a else
    if i == 112 then 0xe0b41de7 else if i == 113 then 0xe4750050 else if i == 114 then 0xe9362689 else if i == 115 then 0xedf73b3e else
    if i == 116 then 0xf3b06b3b else if i == 117 then 0xf771768c else if i == 118 then 0xfa325055 else if i == 119 then 0xfef34de2 else
    if i == 120 then 0xc6bcf05f else if i == 121 then 0xc27dede8 else if i == 122 then 0xcf3ecb31 else if i == 123 then 0xcbffd686 else
    if i == 124 then 0xd5b88683 else if i == 125 then 0xd1799b34 else if i == 126 then 0xdc3abded else 0xd8fba05a
  }

  function Row4(i: bv8): bv32 {
    if i == 128 then 0x690ce0ee else if i == 129 then 0x6dcdfd59 else if i == 130 then 0x608edb80 else if i == 131 then 0x644fc637 else
    if i == 132 then 0x7a089632 else if i == 133 then 0x7ec98b85 else if i == 134 then 0x738aad5c else if i == 135 then 0x774bb0eb else
    if i == 136 then 0x4f040d56 else if i == 137 then 0x4bc510e1 else if i == 138 then 0x46863638 else if i == 139 then 0x42472b8f else
    if i == 140 then 0x5c007b8a else if i == 141 then 0x58c1663d else if i == 142 then 0x558240e4 else if i == 143 then 0x51435d53 else
    if i == 144 then 0x251d3b9e else if i == 145 then 0x21dc2629 else if i == 146 then 0x2c9f00f0 else if i == 147 then 0x285e1d47 else
    if i == 148 then 0x36194d42 else if i == 149 then 0x32d850f5 else if i == 150 then 0x3f9b762c else if i == 151 then 0x3b5a6b9b else
    if i == 152 then 0x0315d626 else if i == 153 then 0x07d4cb91 else if i == 154 then 0x0a97ed48 else if i == 155 then 0x0e56f0ff else
    if i == 156 then 0x1011a0fa else if i == 157 then 0x14d0bd4d else if i == 158 then 0x19939b94 else 0x1d528623
  }

  function Row5(i: bv8): bv32 {
    if i == 160 then 0xf12f560e else if i == 161 then 0xf5ee4bb9 else if i == 162 then 0xf8ad6d60 else if i == 163 then 0xfc6c70d7 else
    if i == 164 then 0xe22b20d2 else if i == 165 then 0xe6ea3d65 else if i == 166 then 0xeba91bbc else if i == 167 then 0xef68060b else
    if i == 168 then 0xd727bbb6 else if i == 169 then 0xd3e6a601 else if i == 170 then 0xdea580d8 else if i == 171 then 0xda649d6f else
    if i == 172 then 0xc423cd6a else if i == 173 then 0xc0e2d0dd else if i == 174 then 0xcda1f604 else if i == 175 then 0xc960ebb3 else
    if i == 176 then 0xbd3e8d7e else if i == 177 then 0xb9ff90c9 else if i == 178 then 0xb4bcb610 else if i == 179 then 0xb07daba7 else
    if i == 180 then 0xae3afba2 else if i == 181 then 0xaafbe615 else if i == 182 then 0xa7b8c0cc else if i == 183 then 0xa379dd7b else
    if i == 184 then 0x9b3660c6 else if i == 185 then 0x9ff77d71 else if i == 186 then 0x92b45ba8 else if i == 187 then 0x9675461f else
    if i == 188 then 0x8832161a else if i == 189 then 0x8cf30bad else if i == 190 then 0x81b02d74 else 0x857130c3
  }

  function Row6(i: bv8): bv32 {
    if i == 192 then 0x5d8a9099 else if i == 193 then 0x594b8d2e else if i == 194 then 0x5408abf7 else if i == 195 then 0x50c9b640 else
    if i == 196 then 0x4e8ee645 else if i == 197 then 0x4a4ffbf2 else if i == 198 then 0x470cdd2b else if i == 199 then 0x43cdc09c else
    if i == 200 then 0x7b827d21 else if i == 201 then 0x7f436096 else if i == 202 then 0x7200464f else if i == 203 then 0x76c15bf8 else
    if i == 204 then 0x68860bfd else if i == 205 then 0x6c47164a else if i == 206 then 0x61043093 else if i == 207 then 0x65c52d24 else
    if i == 208 then 0x119b4be9 else if i == 209 then 0x155a565e else if i == 210 then 0x18197087 else if i == 211 then 0x1cd86d30 else
    if i == 212 then 0x029f3d35 else if i == 213 then 0x065e2082 else if i == 214 then 0x0b1d065b else if i == 215 then 0x0fdc1bec else
    if i == 216 then 0x3793a651 else if i == 217 then 0x3352bbe6 else if i == 218 then 0x3e119d3f else if i == 219 then 0x3ad08088 else
    if i == 220 then 0x2497d08d else if i == 221 then 0x2056cd3a else if i == 222 then 0x2d15ebe3 else 0x29d4f654
  }

  function Row7(i: bv8): bv32 {
    if i == 224 then 0xc5a92679 else if i == 225 then 0xc1683bce else if i == 226 then 0xcc2b1d17 else if i == 227 then 0xc8ea00a0 else
    if i == 228 then 0xd6ad50a5 else if i == 229 then 0xd26c4d12 else if i == 230 then 0xdf2f6bcb else if i == 231 then 0xdbee767c else
    if i == 232 then 0xe3a1cbc1 else if i == 233 then 0xe760d676 else if i == 234 then 0xea23f0af else if i == 235 then 0xeee2ed18 else
    if i == 236 then 0xf0a5bd1d else if i == 237 then 0xf464a0aa else if i == 238 then 0xf9278673 else if i == 239 then 0xfde69bc4 else
    if i == 240 then 0x89b8fd09 else if i == 241 then 0x8d79e0be else if i == 242 then 0x803ac667 else if i == 243 then 0x84fbdbd0 else
    if i == 244 then 0x9abc8bd5 else if i == 245 then 0x9e7d9662 else if i == 246 then 0x933eb0bb else if i == 247 then 0x97ffad0c else
    if i == 248 then 0xafb010b1 else if i == 249 then 0xab710d06 else if i == 250 then 0xa6322bdf else if i == 251 then 0xa2f33668 else
    if i == 252 then 0xbcb4666d else if i == 253 then 0xb8757bda else if i == 254 then 0xb5365d03 else 0xb1f740b4
  }

  function Crctab(i: bv8): bv32 {
    if i < 32 then Row0(i) else
    if i < 64 then Row1(i) else
    if i < 96 then Row2(i) else
    if i < 128 then Row3(i) else
    if i < 160 then Row4(i) else
    if i < 192 then Row5(i) else
    if i < 224 then Row6(i) else
    Row7(i)
  }

  /** A term of a sum over GF(2). */
  function Term(m: bv8, i: nat, x: bv32): bv32
    requires i < 8
  {
    if HasBit(m, i) then x else 0
  }

  /** A byte times x^32 modulo the generating polynomial, bit by bit. */
  function Linear(m: bv8): bv32 {
    Plus(Plus(Plus(Plus(Plus(Plus(Plus(Term(m, 0, 0x04C1_1DB7), Term(m, 1, 0x0982_3B6E)), Term(m, 2, 0x1304_76DC)),
      Term(m, 3, 0x2608_EDB8)), Term(m, 4, 0x4C11_DB70)), Term(m, 5, 0x9823_B6E0)), Term(m, 6, 0x3486_7077)),
      Term(m, 7, 0x690C_E0EE))
  }

  /** The same sum as one expression. */
  function BitSum(m: bv8): bv32 {
    (if m & 1 != 0 then 0x04C1_1DB7 else 0) ^ (if m & 2 != 0 then 0x0982_3B6E else 0) ^
    (if m & 4 != 0 then 0x1304_76DC else 0) ^ (if m & 8 != 0 then 0x2608_EDB8 else 0) ^
    (if m & 16 != 0 then 0x4C11_DB70 else 0) ^ (if m & 32 != 0 then 0x9823_B6E0 else 0) ^
    (if m & 64 != 0 then 0x3486_7077 else 0) ^ (if m & 128 != 0 then 0x690C_E0EE else 0)
  }

  lemma TermValue(m: bv8, i: nat, x: bv32)
    requires i < 8
    ensures Term(m, i, x) == if m & Bit(i) != 0 then x else 0
  {
    assert Bit(i) & m == m & Bit(i);
  }

  lemma SumIsLinear(m: bv8)
    ensures Linear(m) == BitSum(m)
  {
    hide Term, HasBit;
    TermValue(m, 0, 0x04C1_1DB7);
    TermValue(m, 1, 0x0982_3B6E);
    TermValue(m, 2, 0x1304_76DC);
    TermValue(m, 3, 0x2608_EDB8);
    TermValue(m, 4, 0x4C11_DB70);
    TermValue(m, 5, 0x9823_B6E0);
    TermValue(m, 6, 0x3486_7077);
    TermValue(m, 7, 0x690C_E0EE);
  }

  lemma Row0Right(i: bv8)
    requires i < 32
    ensures Row0(i) == BitSum(i)
  {}

  lemma Row1Right(i: bv8)
    requires 32 <= i < 64
    ensures Row1(i) == BitSum(i)
  {}

  lemma Row2Right(i: bv8)
    requires 64 <= i < 96
    ensures Row2(i) == BitSum(i)
  {}

  lemma Row3Right(i: bv8)
    requires 96 <= i < 128
    ensures Row3(i) == BitSum(i)
  {}

  lemma Row4Right(i: bv8)
    requires 128 <= i < 160
    ensures Row4(i) == BitSum(i)
  {}

  lemma Row5Right(i: bv8)
    requires 160 <= i < 192
    ensures Row5(i) == BitSum(i)
  {}

  lemma Row6Right(i: bv8)
    requires 192 <= i < 224
    ensures Row6(i) == BitSum(i)
  {}

  lemma Row7Right(i: bv8)
    requires 224 <= i
    ensures Row7(i) == BitSum(i)
  {}

  lemma TableIsLinear(i: bv8)
    ensures Crctab(i) == Linear(i)
  {
    SumIsLinear(i);
    hide Linear, BitSum, Row0, Row1, Row2, Row3, Row4, Row5, Row6, Row7;
    if i < 32 { Row0Right(i); } else
    if i < 64 { Row1Right(i); } else
    if i < 96 { Row2Right(i); } else
    if i < 128 { Row3Right(i); } else
    if i < 160 { Row4Right(i); } else
    if i < 192 { Row5Right(i); } else
    if i < 224 { Row6Right(i); } else
    { Row7Right(i); }
  }

  /** The low half of an accumulator, the only part that is ever used. */
  function Low(x: bv64): bv32 {
    (x & 0xFFFF_FFFF) as bv32
  }

  lemma LowPlus(x: bv64, y: bv64)
    ensures Low(Plus64(x, y)) == Plus(Low(x), Low(y))
  {}

  function LowHalf(x: bv64): bv64 {
    x & 0xFFFF_FFFF
  }

  lemma LowValue(x: bv64)
    ensures LowHalf(x) == Low(x) as bv64
  {}

  lemma GeneratedPowers()
    ensures Low(R(0)) == 0x04C1_1DB7 && Low(R(1)) == 0x0982_3B6E && Low(R(2)) == 0x1304_76DC
    ensures Low(R(3)) == 0x2608_EDB8 && Low(R(4)) == 0x4C11_DB70 && Low(R(5)) == 0x9823_B6E0
    ensures Low(R(6)) == 0x3486_7077 && Low(R(7)) == 0x690C_E0EE
  {
    assert Low(R(3)) == 0x2608_EDB8;
    assert Low(R(5)) == 0x9823_B6E0;
  }

  lemma LowCombination(m: bv8, i: nat)
    requires 1 <= i <= 8
    ensures Low(Combination(m, i)) == Plus(Low(Combination(m, i - 1)), Term(m, i - 1, Low(R(i - 1))))
  {
    hide R, Low, Plus, Plus64, HasBit;
    LowPlus(Combination(m, i - 1), if HasBit(m, i - 1) then R(i - 1) else 0);
    LowZero();
  }

  lemma LowZero()
    ensures Low(0) == 0
  {}

  lemma PlusZero(x: bv32)
    ensures Plus(0, x) == x && Plus(x, 0) == x
  {}

  /** The generator produces the table that the program carries. */
  lemma GeneratedTable(m: bv8)
    ensures Low(Combination(m, 8)) == Crctab(m)
  {
    hide R, Low, Term, Crctab, Plus;
    TableIsLinear(m);
    GeneratedPowers();
    LowZero();
    LowCombination(m, 1);
    PlusZero(Term(m, 0, Low(R(0))));
    LowCombination(m, 2);
    LowCombination(m, 3);
    LowCombination(m, 4);
    LowCombination(m, 5);
    LowCombination(m, 6);
    LowCombination(m, 7);
    LowCombination(m, 8);
  }

  // ----- one byte is eight bits

  function Double(c: bv32): bv32 {
    c << 1
  }

  predicate Top(c: bv32) {
    c & 0x8000_0000 != 0
  }

  /** Multiplication by x modulo the generating polynomial. */
  function TimesX(c: bv32): bv32 {
    if Top(c) then Plus(Double(c), 0x04C1_1DB7) else Double(c)
  }

  /** The low half of the next power is the low half times x. */
  lemma LowNextPower(r: bv64)
    ensures Low(NextPower(r)) == TimesX(Low(r))
  {
    hide Plus64, Plus, Double64, Double, Low, Top, Bit31;
    LowPlus(Double64(r), if Bit31(r) then 0x04C1_1DB7 else 0);
    LowDouble(r);
    LowTop(r);
    LowGenerator();
    PlusZero(Double(Low(r)));
  }

  lemma DoubleIsSum64(r: bv64)
    ensures Double64(r) == r + r
  {}

  lemma DoubleIsSum(c: bv32)
    ensures Double(c) == c + c
  {}

  lemma LowSum(r: bv64)
    ensures Low(r + r) == Low(r) + Low(r)
  {}

  lemma LowDouble(r: bv64)
    ensures Low(Double64(r)) == Double(Low(r))
  {
    hide Low, Double64, Double;
    DoubleIsSum64(r);
    DoubleIsSum(Low(r));
    LowSum(r);
  }

  lemma LowTop(r: bv64)
    ensures Bit31(r) <==> Top(Low(r))
  {}

  lemma LowGenerator()
    ensures Low(0x04C1_1DB7) == 0x04C1_1DB7 && Low(0) == 0
  {}

  function Steps(c: bv32, n: nat): bv32
    decreases n
  {
    if n == 0 then c else Steps(TimesX(c), n - 1)
  }

  lemma DoublePlus(x: bv32, y: bv32)
    ensures Double(Plus(x, y)) == Plus(Double(x), Double(y))
  {}

  lemma TopPlus(x: bv32, y: bv32)
    ensures Top(Plus(x, y)) <==> Top(x) != Top(y)
  {}

  lemma PlusSwap(a: bv32, b: bv32, c: bv32)
    ensures Plus(Plus(a, c), b) == Plus(Plus(a, b), c) && Plus(a, Plus(b, c)) == Plus(Plus(a, b), c)
    ensures Plus(Plus(a, c), Plus(b, c)) == Plus(a, b)
  {}

  lemma TimesXLinear(x: bv32, y: bv32)
    ensures TimesX(Plus(x, y)) == Plus(TimesX(x), TimesX(y))
  {
    hide Plus, Double, Top;
    DoublePlus(x, y);
    TopPlus(x, y);
    PlusSwap(Double(x), Double(y), 0x04C1_1DB7);
  }

  lemma {:induction false} StepsLinear(x: bv32, y: bv32, n: nat)
    ensures Steps(Plus(x, y), n) == Plus(Steps(x, n), Steps(y, n))
    decreases n
  {
    hide TimesX, Plus;
    if n != 0 {
      TimesXLinear(x, y);
      StepsLinear(TimesX(x), TimesX(y), n - 1);
    }
  }

  // ----- feeding the bits of a word, the first one from the top

  function TopBit(w: bv32): bv32 {
    w & 0x8000_0000
  }

  /** The register after the n top bits of w. */
  function Feed(c: bv32, w: bv32, n: nat): bv32
    decreases n
  {
    if n == 0 then c else Feed(TimesX(Plus(c, TopBit(w))), Double(w), n - 1)
  }

  function Shifted(w: bv32, n: nat): bv32
    decreases n
  {
    if n == 0 then w else Shifted(Double(w), n - 1)
  }

  function RestBits(w: bv32): bv32 {
    w & 0x7FFF_FFFF
  }

  lemma SplitBits(w: bv32)
    ensures w == Plus(TopBit(w), RestBits(w)) && !Top(RestBits(w)) && Double(RestBits(w)) == Double(w)
  {}

  lemma FeedOne(c: bv32, w: bv32)
    ensures TimesX(Plus(c, w)) == Plus(TimesX(Plus(c, TopBit(w))), Double(w))
  {
    hide Plus, Double, Top, TopBit, RestBits;
    SplitBits(w);
    PlusSwap(c, TopBit(w), RestBits(w));
    TimesXLinear(Plus(c, TopBit(w)), RestBits(w));
  }

  /** Feeding bits one by one is adding them all at the top and multiplying, up to the bits not yet fed. */
  lemma {:induction false} FeedIsSteps(c: bv32, w: bv32, n: nat)
    ensures Steps(Plus(c, w), n) == Plus(Feed(c, w, n), Shifted(w, n))
    decreases n
  {
    hide Plus, Double, TopBit, TimesX;
    if n != 0 {
      FeedOne(c, w);
      FeedIsSteps(TimesX(Plus(c, TopBit(w))), Double(w), n - 1);
    }
  }

  // ----- the table step

  /** A byte at the top of a word. */
  function Place(m: bv8): bv32 {
    (m as bv32) << 24
  }

  function TopByte(c: bv32): bv8 {
    (c >> 24) as bv8
  }

  function LowBytes(c: bv32): bv32 {
    c & 0x00FF_FFFF
  }

  function TimesX8(c: bv32): bv32 {
    c << 8
  }

  function ByteSum(x: bv8, y: bv8): bv8 {
    x ^ y
  }

  lemma SplitTop(c: bv32)
    ensures c == Plus(LowBytes(c), Place(TopByte(c)))
  {}

  lemma ByteAtTop(c: bv32, m: bv8)
    ensures TopByte(Plus(c, Place(m))) == ByteSum(TopByte(c), m)
    ensures TimesX8(LowBytes(Plus(c, Place(m)))) == TimesX8(c)
  {}

  lemma EightDoubles(w: bv32)
    ensures Double(Double(Double(Double(Double(Double(Double(Double(w)))))))) == TimesX8(w)
  {}

  lemma {:induction false} ShiftedEight(w: bv32)
    ensures Shifted(w, 8) == TimesX8(w)
  {
    hide Double, TimesX8;
    EightDoubles(w);
    var w3 := Double(Double(Double(w)));
    var w6 := Double(Double(Double(w3)));
    assert Shifted(w, 8) == Shifted(w3, 5) && Shifted(w3, 5) == Shifted(w6, 2);
  }

  lemma PlacedShifts(m: bv8)
    ensures Shifted(Place(m), 8) == 0
  {
    ShiftedEight(Place(m));
  }

  /** Eight shifts carry nothing out of the top of three bytes. */
  lemma NoCarries(x: bv32)
    ensures var a := LowBytes(x); var b := Double(a); var c := Double(b); var d := Double(c);
            !Top(a) && !Top(b) && !Top(c) && !Top(d)
    ensures var e := Double(Double(Double(Double(LowBytes(x))))); var f := Double(e); var g := Double(f);
            !Top(e) && !Top(f) && !Top(g) && !Top(Double(g))
  {}

  lemma LowSteps(x: bv32)
    ensures Steps(LowBytes(x), 8) == TimesX8(LowBytes(x))
  {
    hide Double, Top, TimesX8, LowBytes, Plus;
    NoCarries(x);
    EightDoubles(LowBytes(x));
    var x3 := Double(Double(Double(LowBytes(x))));
    var x6 := Double(Double(Double(x3)));
    assert Steps(LowBytes(x), 8) == Steps(x3, 5);
    assert Steps(x3, 5) == Steps(x6, 2);
  }

  /** A byte at the top, as a sum of single bits. */
  function Spread(h: bv8): bv32 {
    Plus(Plus(Plus(Plus(Plus(Plus(Plus(Term(h, 0, 0x0100_0000), Term(h, 1, 0x0200_0000)), Term(h, 2, 0x0400_0000)),
      Term(h, 3, 0x0800_0000)), Term(h, 4, 0x1000_0000)), Term(h, 5, 0x2000_0000)), Term(h, 6, 0x4000_0000)),
      Term(h, 7, 0x8000_0000))
  }

  lemma SpreadExpression(m: bv8)
    ensures (m as bv32) << 24 ==
      (if m & 1 != 0 then 0x0100_0000 else 0) ^ (if m & 2 != 0 then 0x0200_0000 else 0) ^
      (if m & 4 != 0 then 0x0400_0000 else 0) ^ (if m & 8 != 0 then 0x0800_0000 else 0) ^
      (if m & 16 != 0 then 0x1000_0000 else 0) ^ (if m & 32 != 0 then 0x2000_0000 else 0) ^
      (if m & 64 != 0 then 0x4000_0000 else 0) ^ (if m & 128 != 0 then 0x8000_0000 else 0)
  {}

  lemma PlaceIsSpread(m: bv8)
    ensures Place(m) == Spread(m)
  {
    hide Term, HasBit;
    SpreadExpression(m);
    TermValue(m, 0, 0x0100_0000);
    TermValue(m, 1, 0x0200_0000);
    TermValue(m, 2, 0x0400_0000);
    TermValue(m, 3, 0x0800_0000);
    TermValue(m, 4, 0x1000_0000);
    TermValue(m, 5, 0x2000_0000);
    TermValue(m, 6, 0x4000_0000);
    TermValue(m, 7, 0x8000_0000);
  }

  lemma UnitSteps()
    ensures Steps(0, 8) == 0
    ensures Steps(0x0100_0000, 8) == 0x04C1_1DB7 && Steps(0x0200_0000, 8) == 0x0982_3B6E
    ensures Steps(0x0400_0000, 8) == 0x1304_76DC && Steps(0x0800_0000, 8) == 0x2608_EDB8
    ensures Steps(0x1000_0000, 8) == 0x4C11_DB70 && Steps(0x2000_0000, 8) == 0x9823_B6E0
    ensures Steps(0x4000_0000, 8) == 0x3486_7077 && Steps(0x8000_0000, 8) == 0x690C_E0EE
  {
    assert Steps(0, 8) == Steps(0, 5) == Steps(0, 2);
    assert Steps(0x0100_0000, 8) == Steps(0x0800_0000, 5) == Steps(0x4000_0000, 2);
    assert Steps(0x0200_0000, 8) == Steps(0x1000_0000, 5) == Steps(0x8000_0000, 2);
    assert Steps(0x0400_0000, 8) == Steps(0x2000_0000, 5) == Steps(0x04C1_1DB7, 2);
    assert Steps(0x0800_0000, 8) == Steps(0x4000_0000, 5) == Steps(0x0982_3B6E, 2);
    assert Steps(0x1000_0000, 8) == Steps(0x8000_0000, 5) == Steps(0x1304_76DC, 2);
    assert Steps(0x2000_0000, 8) == Steps(0x04C1_1DB7, 5) == Steps(0x2608_EDB8, 2);
    assert Steps(0x4000_0000, 8) == Steps(0x0982_3B6E, 5) == Steps(0x4C11_DB70, 2);
    assert Steps(0x8000_0000, 8) == Steps(0x1304_76DC, 5) == Steps(0x9823_B6E0, 2);
  }

  lemma StepsOfTerm(h: bv8, i: nat, x: bv32)
    requires i < 8
    ensures Steps(Term(h, i, x), 8) == Term(h, i, Steps(x, 8))
  {
    hide TimesX, HasBit;
    UnitSteps();
  }

  /** Eight multiplications of a byte at the top look it up in the table. */
  lemma HighSteps(h: bv8)
    ensures Steps(Place(h), 8) == Crctab(h)
  {
    hide Plus, Term, Steps, Place, Crctab;
    TableIsLinear(h);
    PlaceIsSpread(h);
    UnitSteps();
    var t0, t1 := Term(h, 0, 0x0100_0000), Term(h, 1, 0x0200_0000);
    var t2, t3 := Term(h, 2, 0x0400_0000), Term(h, 3, 0x0800_0000);
    var t4, t5 := Term(h, 4, 0x1000_0000), Term(h, 5, 0x2000_0000);
    var t6, t7 := Term(h, 6, 0x4000_0000), Term(h, 7, 0x8000_0000);
    StepsOfTerm(h, 0, 0x0100_0000);
    StepsOfTerm(h, 1, 0x0200_0000);
    StepsOfTerm(h, 2, 0x0400_0000);
    StepsOfTerm(h, 3, 0x0800_0000);
    StepsOfTerm(h, 4, 0x1000_0000);
    StepsOfTerm(h, 5, 0x2000_0000);
    StepsOfTerm(h, 6, 0x4000_0000);
    StepsOfTerm(h, 7, 0x8000_0000);
    var s1 := Plus(t0, t1);
    var s2 := Plus(s1, t2);
    var s3 := Plus(s2, t3);
    var s4 := Plus(s3, t4);
    var s5 := Plus(s4, t5);
    var s6 := Plus(s5, t6);
    StepsLinear(t0, t1, 8);
    StepsLinear(s1, t2, 8);
    StepsLinear(s2, t3, 8);
    StepsLinear(s3, t4, 8);
    StepsLinear(s4, t5, 8);
    StepsLinear(s5, t6, 8);
    StepsLinear(s6, t7, 8);
  }

  /** The table step feeds the eight bits of a byte. */
  lemma ByteIsEightBits(c: bv32, m: bv8)
    ensures Plus(TimesX8(c), Crctab(ByteSum(TopByte(c), m))) == Feed(c, Place(m), 8)
  {
    hide Plus, Steps, Place, Crctab, TopByte, LowBytes, TimesX8, ByteSum, Feed, Shifted;
    var t := Plus(c, Place(m));
    SplitTop(t);
    ByteAtTop(c, m);
    LowSteps(t);
    HighSteps(TopByte(t));
    StepsLinear(LowBytes(t), Place(TopByte(t)), 8);
    FeedIsSteps(c, Place(m), 8);
    PlacedShifts(m);
    PlusZero(Feed(c, Place(m), 8));
  }

  // ----- the accumulator

  /** One table step on the 64-bit accumulator; what lies above bit 31 is never looked at. */
  function CrcStep(crc: bv64, b: bv64): bv64 {
    (crc << 8) ^ (Crctab((((crc >> 24) ^ b) & 0xFF) as bv8) as bv64)
  }

  lemma CrcIndex(crc: bv64, m: bv8)
    ensures (((crc >> 24) ^ (m as bv64)) & 0xFF) as bv8 == ByteSum(TopByte(Low(crc)), m)
  {}

  lemma LowOfStep(crc: bv64, t: bv32)
    ensures Low((crc << 8) ^ (t as bv64)) == Plus(TimesX8(Low(crc)), t)
  {}

  /** Only the low half of the accumulator matters, and a step feeds it one byte. */
  lemma StepFeedsByte(crc: bv64, m: bv8)
    ensures Low(CrcStep(crc, m as bv64)) == Feed(Low(crc), Place(m), 8)
  {
    hide Crctab, ByteSum, TopByte, Low, Plus, TimesX8, Place, Feed;
    CrcIndex(crc, m);
    LowOfStep(crc, Crctab(ByteSum(TopByte(Low(crc)), m)));
    ByteIsEightBits(Low(crc), m);
  }
}
