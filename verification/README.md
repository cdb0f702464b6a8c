# bin2hex: raw binary to 64-bit-per-line hex, modelled in Dafny

`wrappers/rocket_ip/software/bin2hex.py` turns a program image (`prog.bin`)
into the text file (`prog.hex`) that the AXI RAM model of the Rocket wrapper
loads. The file is read as bytes. The buffer is zero-padded to a multiple of 8
bytes, one 64-bit AXI beat. Then each consecutive 8-byte chunk is read as an
unsigned little-endian integer and written as 16 lowercase, zero-padded hex
digits followed by a newline.

The model has three modules:

- `LittleEndian` (`little_endian.dfy`): bytes (a subset type of `int`, 0..255,
  like the elements of a Python `bytes`). It also holds `LeValue`, the meaning
  of `int.from_bytes(chunk, "little")`. Beside it are the sum formula `LeSum`
  and the inverse `LeBytes`. `LeBytes` is `v.to_bytes(n, "little")` for
  v < 256^n. For a larger value it keeps the low n bytes, where Python raises
  OverflowError. `Decode` only calls it on values below 2^64.
- `HexFormat` (`hex_format.dfy`): digit characters, `HexN`/`Hex16` (the
  `016x` format) and the parser `ParseHexN`/`ParseHex16`, which inverts it.
- `Bin2Hex` (`bin2hex.dfy`): the converter. `Pad`, `Words` (the chunk loop)
  and `Render` (one `Line` per word) make up `Encode`, the output as a
  function of the input. `Decode` reads an output text back. `Convert` is
  the program's data path as a method: it rebinds the buffer with the padding
  and builds the text in a `while` loop over offsets 0, 8, 16, …. It is proved
  equal to `Encode`.

The properties of the output are proved about `Encode`, and therefore hold
for what `Convert` returns: line count, per-line value, format, and the round
trip through `Decode`.

## Model

| member | source | states |
|---|---|---|
| `Bin2Hex.Convert` | wrappers/rocket_ip/software/bin2hex.py:20-37 | the text built by padding and then appending one line per 8-byte chunk, in order, is exactly `Encode(input)` |
| `Bin2Hex.Encode` | wrappers/rocket_ip/software/bin2hex.py:20-37 | the output for an input of len bytes has exactly 17 · ceil(len / 8) characters; its per-line value, format and round trip are `EncodeLineAt`, `EncodeFormat` and `EncodeDecode` |
| `Bin2Hex.Pad` | wrappers/rocket_ip/software/bin2hex.py:20-22 | the padded length is a multiple of 8 and less than 8 bytes longer than the input; the input is an unchanged prefix; every added byte is 0; the buffer is unchanged exactly when its length is already a multiple of 8 (the empty buffer included) |
| `Bin2Hex.Zeros` | wrappers/rocket_ip/software/bin2hex.py:22 | `b"\x00" * n` has length n and holds only zero bytes |
| `Bin2Hex.PadLength` | wrappers/rocket_ip/software/bin2hex.py:20-22 | the padded length is 8 · ceil(len / 8) |
| `Bin2Hex.PadIsShortest` | wrappers/rocket_ip/software/bin2hex.py:20-22 | padding stops at the next multiple of 8: every aligned length that holds the input is at least the padded length |
| `Bin2Hex.PadAmount` | wrappers/rocket_ip/software/bin2hex.py:20-21 | aligned input gets no padding; otherwise the pad is `8 - len % 8`, between 1 and 7 |
| `Bin2Hex.Words` | wrappers/rocket_ip/software/bin2hex.py:30-34 | an aligned buffer yields len / 8 words; word k is the little-endian value of bytes 8k..8k+7 and lies below 2^64 |
| `Bin2Hex.WordsOfChunk` | wrappers/rocket_ip/software/bin2hex.py:30-34 | a single 8-byte chunk yields the one word that is its little-endian value |
| `Bin2Hex.WordsAppend` | wrappers/rocket_ip/software/bin2hex.py:30-31 | the chunking of two aligned buffers laid end to end is the chunking of the first followed by that of the second |
| `Bin2Hex.Line` | wrappers/rocket_ip/software/bin2hex.py:37 | each written line is 17 characters long |
| `Bin2Hex.Render` | wrappers/rocket_ip/software/bin2hex.py:30-37 | the text for n words is 17 · n characters long |
| `Bin2Hex.RenderAppend` | wrappers/rocket_ip/software/bin2hex.py:30-37 | the text for two word sequences laid end to end is the first text followed by the second |
| `Bin2Hex.RenderAt` | wrappers/rocket_ip/software/bin2hex.py:30-37 | characters 17k..17k+16 of the text are the line of word k |
| `Bin2Hex.RenderStep` | wrappers/rocket_ip/software/bin2hex.py:30-37 | one loop step: writing the chunk at offset i appends that chunk's line to the text for the first i bytes |
| `Bin2Hex.EncodeLength` | wrappers/rocket_ip/software/bin2hex.py:20-37 | the output is empty exactly when the input is empty |
| `Bin2Hex.WordCount` | wrappers/rocket_ip/software/bin2hex.py:20-31 | the padded buffer of an input of len bytes holds ceil(len / 8) words |
| `Bin2Hex.EncodeOneWord` | wrappers/rocket_ip/software/bin2hex.py:30-37 | an 8-byte input gets no padding and is written as the one line of its little-endian value |
| `Bin2Hex.EncodeLineAt` | wrappers/rocket_ip/software/bin2hex.py:30-37 | for every k below ceil(len / 8), padded bytes 8k..8k+7 and output characters 17k..17k+16 exist, and line k of the output is the value of padded bytes 8k..8k+7 (below 2^64), as 16 hex digits and a newline |
| `Bin2Hex.RenderFormat` | wrappers/rocket_ip/software/bin2hex.py:37 | in any rendered text the character at position 17k+16 is the newline and every other character is a lowercase hex digit |
| `Bin2Hex.EncodeFormat` | wrappers/rocket_ip/software/bin2hex.py:37 | the output consists only of lines of 16 lowercase hex digits each followed by one newline |
| `Bin2Hex.DecodeRender` | wrappers/rocket_ip/software/bin2hex.py:30-37 | decoding the text written for an aligned buffer gives that buffer back |
| `Bin2Hex.EncodeDecode` | wrappers/rocket_ip/software/bin2hex.py:20-37 | round trip: decoding the output gives the padded buffer, whose first len(input) bytes are the input |
| `Bin2Hex.RenderDecode` | wrappers/rocket_ip/software/bin2hex.py:30-37 | any text that decodes to a buffer has an aligned buffer and is exactly the text written for it: each buffer has one spelling |
| `Bin2Hex.EmptyInput` | wrappers/rocket_ip/software/bin2hex.py:20-37 | an empty input gives an empty output |
| `Bin2Hex.OneByteInput` | wrappers/rocket_ip/software/bin2hex.py:20-37 | the single byte 01 is padded to one word and written as `0000000000000001` |
| `Bin2Hex.DeadBeefInput` | wrappers/rocket_ip/software/bin2hex.py:30-37 | the bytes ef be ad de 01 00 00 00 are written as `00000001deadbeef` |
| `LittleEndian.LeValue` | wrappers/rocket_ip/software/bin2hex.py:34 | the value of an n-byte chunk lies below 256^n |
| `LittleEndian.WordLimitIsPow256` | wrappers/rocket_ip/software/bin2hex.py:34 | 256^8 is 2^64, so an 8-byte value fits in 64 bits |
| `LittleEndian.LeValueSnoc` | wrappers/rocket_ip/software/bin2hex.py:34 | appending a byte b to an n-byte chunk adds b · 256^n to its value |
| `LittleEndian.LeValueIsSum` | wrappers/rocket_ip/software/bin2hex.py:34 | the value is the sum of chunk[j] · 256^j: byte 0 is the least significant |
| `LittleEndian.LeBytes` | wrappers/rocket_ip/software/bin2hex.py:34 | splitting a value into n bytes gives n bytes |
| `LittleEndian.LeBytesOfLeValue` | wrappers/rocket_ip/software/bin2hex.py:34 | splitting a chunk's value back into |chunk| little-endian bytes gives the chunk |
| `LittleEndian.LeValueOfLeBytes` | wrappers/rocket_ip/software/bin2hex.py:34 | a value below 256^n, split into n bytes and read back, is unchanged |
| `HexFormat.LineDigitsHoldAWord` | wrappers/rocket_ip/software/bin2hex.py:37 | 16^16 is 2^64, the bound of an 8-byte value: 16 hex digits hold exactly the values below it |
| `HexFormat.HexDigit` | wrappers/rocket_ip/software/bin2hex.py:37 | a digit below 16 is written as a character from 0-9 or a-f |
| `HexFormat.DigitValue` | wrappers/rocket_ip/software/bin2hex.py:37 | a character has a digit value exactly when it is 0-9 or a-f; that value is below 16 and is written back as the same character |
| `HexFormat.HexN` | wrappers/rocket_ip/software/bin2hex.py:37 | formatting with width n gives exactly n lowercase hex digits |
| `HexFormat.Hex16` | wrappers/rocket_ip/software/bin2hex.py:37 | `016x` on a 64-bit value gives exactly 16 lowercase hex digits, leading zeros kept |
| `HexFormat.ParseHexNOfHexN` | wrappers/rocket_ip/software/bin2hex.py:37 | parsing the n digits written for a value below 16^n gives the value |
| `HexFormat.HexNOfParseHexN` | wrappers/rocket_ip/software/bin2hex.py:37 | a value the parser reads from a string fits in that many digits, and formatting it gives the same string |
| `HexFormat.Hex16RoundTrip` | wrappers/rocket_ip/software/bin2hex.py:37 | a string parses as a 16-digit line with value v exactly when v is below 2^64 and `016x` of v is that string |

## Left out

- The command line (`argparse`, bin2hex.py:5-9) is not modelled. The input is a byte sequence parameter and the output is the returned text.
- File reading and writing (bin2hex.py:12-13, 29, 37) is not modelled, and neither are the I/O errors and exit status that come with it. `Convert` returns the whole text that the program writes line by line to the open file. A partial file left by a failed write is not represented. The output file is opened in text mode (bin2hex.py:29), so Python writes each `"\n"` as the platform's line separator (`"\r\n"` on Windows). The model's `'\n'` is the text passed to `write`, not necessarily the bytes in the file.
- The progress messages (bin2hex.py:11, 15, 23, 28, 39) are not modelled: they are informational only.
- `Hex16` requires its value to be below 2^64. Python's `016x` is a minimum width and would print more digits for a larger value, but the program only formats values of 8-byte chunks, which are always below 2^64 (`Words`).
- Python's arbitrary-precision `int` and the f-string machinery are replaced by the explicit `LeValue` and `HexN` definitions. Dafny's unbounded `nat` plays the role of Python's `int`.
- The round trip recovers the input as the prefix of length len(input) of the decoded buffer. Trailing zero bytes of the input cannot be told apart from padding in the output, so trimming zeros alone does not recover every input.
- Running the conversion twice gives the same output because `Encode` is a function of the input bytes alone. No separate lemma states this.
