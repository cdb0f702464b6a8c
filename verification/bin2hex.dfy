/** The converter: a raw program image becomes the text an AXI RAM model
    loads, one 64-bit little-endian word per line as 16 lowercase hex digits.
    `Encode` says what the output is; `Convert` computes it the way the
    program does, padding the buffer and then writing one line per 8-byte
    chunk. */
module Bin2Hex {
  import opened LittleEndian
  import opened HexFormat

  /** Characters per output line: 16 digits and the newline. */
  const LineLength := 17

  /** Number of output lines for an input of `n` bytes: ceil(n / 8). */
  function LineCount(n: nat): nat
  {
    (n + WordBytes - 1) / WordBytes
  }

  function Zeros(n: nat): (z: seq<byte>)
    ensures |z| == n
    ensures forall i :: 0 <= i < n ==> z[i] == 0
  {
    seq(n, i => 0)
  }

  /** The buffer after padding: zero bytes appended up to the next multiple
      of 8, none when already aligned (the empty buffer included). */
  function Pad(data: seq<byte>): (padded: seq<byte>)
    ensures |padded| % WordBytes == 0
    ensures |data| <= |padded| < |data| + WordBytes
    ensures padded[..|data|] == data
    ensures forall i :: |data| <= i < |padded| ==> padded[i] == 0
    ensures padded == data <==> |data| % WordBytes == 0
  {
    if |data| % WordBytes != 0 then data + Zeros(WordBytes - |data| % WordBytes) else data
  }

  /** The chunk values of an aligned buffer, in buffer order. */
  function Words(padded: seq<byte>): (ws: seq<nat>)
    requires |padded| % WordBytes == 0
    ensures |ws| == |padded| / WordBytes
    ensures forall k :: 0 <= k < |ws| ==>
      ws[k] == LeValue(padded[WordBytes * k .. WordBytes * k + WordBytes]) && ws[k] < WordLimit
    decreases |padded|
  {
    if padded == [] then []
    else
      WordLimitIsPow256();
      ChunksOfTail(padded);
      [LeValue(padded[..WordBytes])] + Words(padded[WordBytes..])
  }

  /** Chunk k - 1 of the buffer without its first chunk is chunk k of the buffer. */
  lemma ChunksOfTail(padded: seq<byte>)
    requires |padded| % WordBytes == 0 && padded != []
    ensures forall k :: 0 < k < |padded| / WordBytes ==>
      padded[WordBytes..][WordBytes * (k - 1) .. WordBytes * (k - 1) + WordBytes]
      == padded[WordBytes * k .. WordBytes * k + WordBytes]
  {
    forall k | 0 < k < |padded| / WordBytes
      ensures padded[WordBytes..][WordBytes * (k - 1) .. WordBytes * (k - 1) + WordBytes]
           == padded[WordBytes * k .. WordBytes * k + WordBytes]
    {
      var lo := WordBytes * (k - 1);
      assert WordBytes + lo == WordBytes * k;
      assert WordBytes * k + WordBytes <= |padded|;
    }
  }

  predicate AllWords(ws: seq<nat>)
  {
    forall k :: 0 <= k < |ws| ==> ws[k] < WordLimit
  }

  /** One line of output: `f"{value:016x}\n"`. */
  function Line(w: nat): (line: string)
    requires w < WordLimit
    ensures |line| == LineLength
  {
    Hex16(w) + "\n"
  }

  /** The text written for a sequence of words, one line each, in order. */
  function Render(ws: seq<nat>): (text: string)
    requires AllWords(ws)
    ensures |text| == LineLength * |ws|
  {
    if ws == [] then "" else Line(ws[0]) + Render(ws[1..])
  }

  /** The whole output file for the input bytes `data`: ceil(len / 8) lines
      of 17 characters. */
  function Encode(data: seq<byte>): (text: string)
    ensures |text| == LineLength * LineCount(|data|)
  {
    PadLength(data);
    Render(Words(Pad(data)))
  }

  /** Reads an output file back into the bytes it encodes: each 17-character
      line must be 16 hex digits and a newline, and its value becomes 8
      little-endian bytes. None for any text the converter cannot write. */
  function Decode(text: string): (r: Option<seq<byte>>)
    decreases |text|
  {
    if text == [] then Some([])
    else if |text| < LineLength || text[LineDigits] != '\n' then None
    else
      match (ParseHex16(text[..LineDigits]), Decode(text[LineLength..]))
      case (Some(v), Some(rest)) => Some(LeBytes(v, WordBytes) + rest)
      case _ => None
  }

  /** The padded buffer holds exactly ceil(len / 8) words. */
  lemma PadLength(data: seq<byte>)
    ensures |Pad(data)| == WordBytes * LineCount(|data|)
  {
  }

  /** Padding goes up to the NEXT multiple of 8: no shorter aligned length
      holds the input. */
  lemma PadIsShortest(data: seq<byte>, m: nat)
    requires |data| <= m && m % WordBytes == 0
    ensures |Pad(data)| <= m
  {
  }

  /** The pad amount the program computes, `8 - len % 8`, is between 1 and 7
      when the input is not aligned, and nothing is added otherwise. */
  lemma PadAmount(data: seq<byte>)
    ensures |data| % WordBytes == 0 ==> |Pad(data)| == |data|
    ensures |data| % WordBytes != 0 ==>
      |Pad(data)| - |data| == WordBytes - |data| % WordBytes && 1 <= |Pad(data)| - |data| <= 7
  {
  }

  lemma {:induction false} WordsAppend(p: seq<byte>, q: seq<byte>)
    requires |p| % WordBytes == 0 && |q| % WordBytes == 0
    ensures Words(p + q) == Words(p) + Words(q)
    decreases |p|
  {
    if p != [] {
      assert (p + q)[..WordBytes] == p[..WordBytes];
      assert (p + q)[WordBytes..] == p[WordBytes..] + q;
      WordsAppend(p[WordBytes..], q);
    } else {
      assert p + q == q;
    }
  }

  lemma WordsOfChunk(chunk: seq<byte>)
    requires |chunk| == WordBytes
    ensures Words(chunk) == [LeValue(chunk)]
  {
    assert chunk[WordBytes * 0 .. WordBytes * 0 + WordBytes] == chunk;
  }

  lemma {:induction false} RenderAppend(a: seq<nat>, b: seq<nat>)
    requires AllWords(a) && AllWords(b)
    ensures AllWords(a + b) && Render(a + b) == Render(a) + Render(b)
  {
    assert AllWords(a + b) by {
      forall k | 0 <= k < |a + b| ensures (a + b)[k] < WordLimit {
        if k < |a| { assert (a + b)[k] == a[k]; } else { assert (a + b)[k] == b[k - |a|]; }
      }
    }
    if a == [] {
      assert a + b == b;
    } else {
      assert (a + b)[1..] == a[1..] + b;
      RenderAppend(a[1..], b);
    }
  }

  /** Line k of the text occupies characters 17k .. 17k+16. */
  lemma {:induction false} RenderAt(ws: seq<nat>, k: nat)
    requires AllWords(ws) && k < |ws|
    ensures Render(ws)[LineLength * k .. LineLength * k + LineLength] == Line(ws[k])
  {
    if k > 0 {
      RenderAt(ws[1..], k - 1);
      var text := Render(ws);
      assert text == Line(ws[0]) + Render(ws[1..]);
      assert text[LineLength * k .. LineLength * k + LineLength]
          == Render(ws[1..])[LineLength * (k - 1) .. LineLength * (k - 1) + LineLength];
    }
  }

  /** Empty input gives empty output, and only empty input does. */
  lemma EncodeLength(data: seq<byte>)
    ensures |Encode(data)| == 0 <==> data == []
  {
  }

  /** The padded buffer holds one word per output line. */
  lemma WordCount(data: seq<byte>)
    ensures |Words(Pad(data))| == LineCount(|data|)
  {
    PadLength(data);
  }

  /** Line k is the little-endian value of padded bytes 8k .. 8k+7, written
      as 16 lowercase hex digits and a newline. */
  lemma EncodeLineAt(data: seq<byte>, k: nat)
    requires k < LineCount(|data|)
    ensures WordBytes * k + WordBytes <= |Pad(data)|
    ensures LineLength * k + LineLength <= |Encode(data)|
    ensures LeValue(Pad(data)[WordBytes * k .. WordBytes * k + WordBytes]) < WordLimit
    ensures Encode(data)[LineLength * k .. LineLength * k + LineLength]
         == Line(LeValue(Pad(data)[WordBytes * k .. WordBytes * k + WordBytes]))
  {
    var ws := Words(Pad(data));
    WordCount(data);
    RenderAt(ws, k);
  }

  /** Every character of a rendered text is a lowercase hex digit, except the
      last of each line, which is the newline. */
  lemma {:induction false} RenderFormat(ws: seq<nat>, i: nat)
    requires AllWords(ws) && i < |Render(ws)|
    ensures i % LineLength == LineDigits ==> Render(ws)[i] == '\n'
    ensures i % LineLength != LineDigits ==> IsHexDigit(Render(ws)[i])
  {
    var k := i / LineLength;
    var j := i % LineLength;
    assert i == LineLength * k + j && j < LineLength;
    assert k < |ws|;
    RenderAt(ws, k);
    var line := Render(ws)[LineLength * k .. LineLength * k + LineLength];
    assert Render(ws)[i] == line[j];
  }

  /** The output consists of 17-character lines: 16 lowercase hex digits and
      one newline, nothing else. */
  lemma EncodeFormat(data: seq<byte>, i: nat)
    requires i < |Encode(data)|
    ensures i % LineLength == LineDigits ==> Encode(data)[i] == '\n'
    ensures i % LineLength != LineDigits ==> IsHexDigit(Encode(data)[i])
  {
    RenderFormat(Words(Pad(data)), i);
  }

  /** Decoding what was rendered from an aligned buffer gives the buffer. */
  lemma {:induction false} DecodeRender(padded: seq<byte>)
    requires |padded| % WordBytes == 0
    ensures Decode(Render(Words(padded))) == Some(padded)
    decreases |padded|
  {
    if padded != [] {
      var ws := Words(padded);
      var chunk := padded[..WordBytes];
      var text := Render(ws);
      assert ws[0] == LeValue(chunk);
      assert ws[1..] == Words(padded[WordBytes..]);
      assert text[..LineDigits] == Hex16(ws[0]);
      assert text[LineDigits] == '\n';
      assert text[LineLength..] == Render(ws[1..]);
      Hex16RoundTrip(text[..LineDigits], ws[0]);
      LeBytesOfLeValue(chunk);
      DecodeRender(padded[WordBytes..]);
      assert padded == chunk + padded[WordBytes..];
    }
  }

  /** Round trip: decoding the output recovers the padded buffer, and its
      first len(data) bytes are the input. */
  lemma EncodeDecode(data: seq<byte>)
    ensures Decode(Encode(data)) == Some(Pad(data))
    ensures Decode(Encode(data)).value[..|data|] == data
  {
    DecodeRender(Pad(data));
  }

  /** Conversely, any text Decode accepts is exactly what the converter
      writes for the bytes it decodes to: the output format has one spelling
      per buffer. */
  lemma {:induction false} RenderDecode(text: string, bytes: seq<byte>)
    requires Decode(text) == Some(bytes)
    ensures |bytes| % WordBytes == 0 && Render(Words(bytes)) == text
    decreases |text|
  {
    if text != [] {
      assert |text| >= LineLength && text[LineDigits] == '\n';
      var line := text[..LineDigits];
      var v := ParseHex16(line).value;
      var rest := Decode(text[LineLength..]).value;
      var chunk := LeBytes(v, WordBytes);
      assert bytes == chunk + rest;
      RenderDecode(text[LineLength..], rest);
      WordLimitIsPow256();
      Hex16RoundTrip(line, v);
      LeValueOfLeBytes(v, WordBytes);
      assert bytes[..WordBytes] == chunk && bytes[WordBytes..] == rest;
      WordsAppend(chunk, rest);
      WordsOfChunk(chunk);
      assert text == line + "\n" + text[LineLength..];
    }
  }

  /** Writing the chunk at offset i extends the text for the first i bytes
      by that chunk's line. */
  lemma RenderStep(data: seq<byte>, i: nat)
    requires |data| % WordBytes == 0 && i % WordBytes == 0 && i < |data|
    ensures i + WordBytes <= |data|
    ensures LeValue(data[i .. i + WordBytes]) < WordLimit
    ensures Render(Words(data[..i + WordBytes]))
         == Render(Words(data[..i])) + Line(LeValue(data[i .. i + WordBytes]))
  {
    var chunk := data[i .. i + WordBytes];
    WordLimitIsPow256();
    assert data[..i + WordBytes] == data[..i] + chunk;
    WordsAppend(data[..i], chunk);
    WordsOfChunk(chunk);
    RenderAppend(Words(data[..i]), [LeValue(chunk)]);
  }

  /** The program's data path: pad `data` in place, then write one line per
      8-byte chunk, in order. */
  method Convert(input: seq<byte>) returns (text: string)
    ensures text == Encode(input)
  {
    var data := input;
    if |data| % WordBytes != 0 {
      var pad := WordBytes - |data| % WordBytes;
      data := data + Zeros(pad);
    }
    assert data == Pad(input);
    text := "";
    var i := 0;
    assert data[..i] == [];
    while i < |data|
      invariant 0 <= i <= |data| && i % WordBytes == 0 && |data| % WordBytes == 0
      invariant text == Render(Words(data[..i]))
    {
      RenderStep(data, i);
      var chunk := data[i .. i + WordBytes];
      var value := LeValue(chunk);
      text := text + Line(value);
      i := i + WordBytes;
    }
    assert data[..i] == data;
    assert text == Render(Words(Pad(input)));
  }

  /** Example: an empty file gives an empty output. */
  lemma EmptyInput()
    ensures Encode([]) == ""
  {
  }

  /** An aligned 8-byte input is written as the single line of its value. */
  lemma EncodeOneWord(chunk: seq<byte>)
    requires |chunk| == WordBytes
    ensures LeValue(chunk) < WordLimit
    ensures Encode(chunk) == Hex16(LeValue(chunk)) + "\n"
  {
    WordLimitIsPow256();
    WordsOfChunk(chunk);
    assert Pad(chunk) == chunk;
  }

  /** Example: the single byte 0x01 is padded to one word and printed as
      0000000000000001. */
  lemma OneByteInput()
    ensures Encode([0x01]) == "0000000000000001\n"
  {
    var padded: seq<byte> := [0x01, 0, 0, 0, 0, 0, 0, 0];
    assert Pad([0x01]) == padded;
    assert Encode([0x01]) == Encode(padded);
    EncodeOneWord(padded);
    assert LeValue(padded) == 1;
    OneDigits();
  }

  lemma OneDigits()
    ensures Hex16(1) == "0000000000000001"
  {
    assert HexN(0, 5) == "00000";
    assert HexN(0, 10) == "0000000000";
    assert HexN(0, 15) == "000000000000000";
    assert HexN(1, 16) == HexN(0, 15) + ['1'];
  }

  /** Example: ef be ad de 01 00 00 00 is the word 0x00000001deadbeef. */
  lemma DeadBeefInput()
    ensures Encode([0xEF, 0xBE, 0xAD, 0xDE, 0x01, 0x00, 0x00, 0x00]) == "00000001deadbeef\n"
  {
    var chunk: seq<byte> := [0xEF, 0xBE, 0xAD, 0xDE, 0x01, 0x00, 0x00, 0x00];
    EncodeOneWord(chunk);
    assert LeValue(chunk) == 0x1_dead_beef;
    DeadBeefDigits();
  }

  lemma DeadBeefDigits()
    ensures Hex16(0x1_dead_beef) == "00000001deadbeef"
  {
    assert HexN(0, 7) == "0000000";
    assert HexN(0x1, 8) == "00000001";
    assert HexN(0x1d, 9) == "00000001d";
    assert HexN(0x1de, 10) == "00000001de";
    assert HexN(0x1dea, 11) == "00000001dea";
    assert HexN(0x1_dead, 12) == "00000001dead";
    assert HexN(0x1_dead_b, 13) == "00000001deadb";
    assert HexN(0x1_dead_be, 14) == "00000001deadbe";
    assert HexN(0x1_dead_bee, 15) == "00000001deadbee";
    assert HexN(0x1_dead_beef, 16) == "00000001deadbeef";
  }
}
