# FloatInspector, modelled in Dafny

FloatInspector.cpp takes the 32-bit storage pattern of a `float`, reads it as
a signed `int`, and cuts it into the three fields of the IEEE 754 binary32
layout (section 3.4 of IEEE 754-2019): a 1-bit sign, an 8-bit biased
exponent and a 23-bit trailing significand, which the program calls the
mantissa. Each field is stored in a `std::bitset` of its width, and the
program prints a two-row, pipe-delimited table: a fixed header and a data row
holding each bitset's binary digits, most significant first.

The model takes the 32-bit pattern as its input (`CppInt.Word`, an integer in
`[0, 2^32)`) and has five modules:

- `Arith` (arith.dfy): powers of two and facts about floor division and
  remainder.
- `CppInt` (cpp_int.dfy): the C++ operations the program uses. `AsSigned` is the
  two's complement reading done by `*(int*)&f`. `ShiftRight` is `>>` on a signed
  `int`, rounding toward negative infinity. `BitAnd` is `&` on two's complement
  integers, defined bit by bit. `BitsetOf` is the value a `std::bitset<N>` keeps.
- `FloatFields` (float_fields.dfy): `Decode`, the three shift-and-mask
  expressions, and what they mean for the unsigned pattern.
- `Table` (table.dfy): the text `operator<<` writes for a bitset
  (`BitsetString`), the header, the data row (`DataRow`) and the two rows
  together (`Rows`).
- `ExampleOutput` (example.dfy): the recorded run for `1.1f`.

`CppInt.MaskIsResidue` states what `BitAnd` computes for the masks the program
uses. The proof of that lemma is where the model checks that `& 0xFF` on a
negative `int` keeps the right bits.

## Model

| member | source | states |
|---|---|---|
| `CppInt.AsSigned` | FloatInspector.cpp:8 | the `int` read from the pattern lies in the 32-bit signed range, is congruent to the pattern modulo 2^32, and is negative exactly when the top bit is set |
| `CppInt.ShiftRight` | FloatInspector.cpp:10-11 | `x >> k` is the quotient by 2^k rounded toward negative infinity: 2^k·r ≤ x < 2^k·(r+1) |
| `CppInt.BitAnd` | FloatInspector.cpp:10-12 | `&` on two's complement integers, bit by bit: the result is negative exactly when both operands are, and a non-negative mask keeps it between 0 and the mask; its value for the masks used is `MaskIsResidue` |
| `CppInt.MaskIsResidue` | FloatInspector.cpp:10-12 | `x & (2^n - 1)` is the remainder of x modulo 2^n for every integer, negative ones included |
| `CppInt.BitsetOf` | FloatInspector.cpp:10-12 | a `std::bitset<N>` built from v holds a value below 2^N that is congruent to v modulo 2^N |
| `CppInt.BitsetKeepsFit` | FloatInspector.cpp:10-12 | a value that already fits N bits is held by the bitset unchanged, so the bitsets drop none of the masked bits |
| `FloatFields.Decode` | FloatInspector.cpp:8-12 | for every 32-bit pattern, sign < 2, exponent < 256 and mantissa < 2^23 |
| `FloatFields.SignField` | FloatInspector.cpp:8-10 | `i >> 31` is -1 for a negative `i` and 0 otherwise, and `(i >> 31) & 0x1` is still the top bit of the unsigned pattern, kept whole by the 1-bit bitset |
| `FloatFields.ExponentField` | FloatInspector.cpp:11 | `(i >> 23) & 0xFF` is bits 23-30 of the unsigned pattern for negative and non-negative `i`, kept whole by the 8-bit bitset |
| `FloatFields.MantissaField` | FloatInspector.cpp:12 | `i & 0x7FFFFF` is the low 23 bits of the unsigned pattern, kept whole by the 23-bit bitset |
| `FloatFields.ZeroFillSameFields` | FloatInspector.cpp:10-11 | shifting the unsigned pattern, which fills with zeros, and masking gives the same sign and exponent as the sign-filling shift of the signed `int` |
| `FloatFields.DecodePartition` | FloatInspector.cpp:10-12 | the fields partition the word: sign·2^31 + exponent·2^23 + mantissa equals the unsigned pattern |
| `FloatFields.DecodeUnique` | FloatInspector.cpp:10-12 | conversely, any in-range triple that lays out to the pattern is the one decoded, so decoding a reassembled word gives back its fields |
| `Table.BitsetString` | FloatInspector.cpp:16 | a bitset of width N prints as exactly N characters, each '0' or '1' |
| `Table.BitsetStringAt` | FloatInspector.cpp:16 | character k of that text is bit N-1-k of the value, so the most significant bit comes first |
| `Table.BitsetStringValue` | FloatInspector.cpp:16 | read back as a binary numeral, the text gives the bitset's value modulo 2^N, so the text determines the value |
| `Table.BitsetStringConcat` | FloatInspector.cpp:16 | printing an N-bit high part and then an M-bit low part prints the (N+M)-bit number they form |
| `Table.DataRow` | FloatInspector.cpp:15-16 | header and data row are both 42 characters long, with the pipe separator in columns 0, 4, 15 and 41 and nowhere else |
| `Table.Rows` | FloatInspector.cpp:15-16 | the header, a newline, then the data row: 85 characters with the only newline in column 42, so exactly two lines |
| `Table.DataRowCells` | FloatInspector.cpp:16 | the data row holds the sign digit in column 2, the exponent digits in columns 6-13 and the mantissa digits in columns 17-39 |
| `Table.CellsSpellWeight` | FloatInspector.cpp:10-16 | the three in-range fields printed side by side are the 32-digit text of the word they lay out to |
| `Table.DataRowSpellsPattern` | FloatInspector.cpp:10-16 | the digits of the data row, read across the three cells, are the 32-bit binary expansion of the pattern |
| `Table.RowsDeterminePattern` | FloatInspector.cpp:15-16 | two patterns print the same rows exactly when they are the same pattern: the table loses nothing |
| `ExampleOutput.ExampleFields` | FloatInspector.cpp:7-12 | the pattern of `1.1f` (0x3F8CCCCD) decodes to sign 0, exponent 127, mantissa 0x0CCCCD |
| `ExampleOutput.ExampleRow` | FloatInspector.cpp:19-23 | for 0x3F8CCCCD the data row is exactly the recorded text: cells 0, 01111111 and 00011001100110011001101 between pipe separators |

## Left out

- Converting the literal `1.1f` to its bit pattern, and the pointer cast `*(int*)&f` that reads it (FloatInspector.cpp:7-8). These are floating-point representation and an aliasing cast. The model takes the 32-bit pattern as input and reads it as a signed value with `AsSigned`. The pattern of `1.1f` appears only as the constant `ExampleOutput.OnePointOne`.
- The line `"Input: " << f` (FloatInspector.cpp:14). It is float-to-decimal formatting by the C++ library.
- Writing to `std::cout`. `Table.Rows` returns the header and the data row, joined by a newline, as a string.
- The rounding direction of `>>` on a negative `int`. Before C++20 it is implementation-defined. `CppInt.ShiftRight` rounds toward negative infinity, as C++20 requires and common compilers do. `FloatFields.SignField` and `ExponentField` show that the mask removes the sign bits the shift brings in. `FloatFields.ZeroFillSameFields` shows that a zero-filling shift gives the same fields.
- Centring of the header labels. The header is the fixed string the program prints, with no centring computed.
- `CppInt.BitsetOf`: brace-initializing `std::bitset<N>` from a non-constant `int` (FloatInspector.cpp:10-12) is a narrowing conversion to `unsigned long long`. Under the list-initialization rules that is ill-formed, so some compilers reject the program and others accept it with a warning. The model takes the accepting reading: the value is converted modulo 2^64 and then kept to N bits. The masked values here are non-negative and fit N bits, so the conversion does not change them.
- `CppInt.AsSigned` assumes `int` is 32 bits wide, the same width as `float`. It also assumes that reading a `float` through an `int*` gives its storage bits, which the language leaves undefined.
