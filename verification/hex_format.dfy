/** Fixed-width lowercase hexadecimal: the meaning of the format
    specification `016x` for values below 2^64, and a parser that inverts it. */
module HexFormat {
  import opened LittleEndian

  datatype Option<T> = None | Some(value: T)

  /** Digits per output line: 16 hex digits hold 64 bits. */
  const LineDigits := 16

  function Pow16(n: nat): (p: nat)
    ensures p > 0
  {
    if n == 0 then 1 else 16 * Pow16(n - 1)
  }

  lemma LineDigitsHoldAWord()
    ensures Pow16(LineDigits) == WordLimit
  {
    assert Pow16(8) == 0x1_0000_0000;
  }

  /** The characters `x` formatting may produce: 0-9 and a-f, lower case only. */
  predicate IsHexDigit(c: char)
  {
    ('0' <= c <= '9') || ('a' <= c <= 'f')
  }

  /** The digit character of `d`, lower case. */
  function HexDigit(d: nat): (c: char)
    requires d < 16
    ensures IsHexDigit(c)
  {
    if d < 10 then ('0' as int + d) as char else ('a' as int + (d - 10)) as char
  }

  /** The value of a digit character; None for anything but 0-9 and a-f. */
  function DigitValue(c: char): (r: Option<nat>)
    ensures r.Some? <==> IsHexDigit(c)
    ensures r.Some? ==> r.value < 16 && HexDigit(r.value) == c
  {
    if '0' <= c <= '9' then Some(c as int - '0' as int)
    else if 'a' <= c <= 'f' then Some(c as int - 'a' as int + 10)
    else None
  }

  /** The low `n` hex digits of `v`, most significant first, zero-padded on
      the left. */
  function HexN(v: nat, n: nat): (s: string)
    ensures |s| == n
    ensures forall i :: 0 <= i < n ==> IsHexDigit(s[i])
  {
    if n == 0 then [] else HexN(v / 16, n - 1) + [HexDigit(v % 16)]
  }

  /** `f"{v:016x}"` for a 64-bit value: exactly 16 digits, leading zeros kept. */
  function Hex16(v: nat): (s: string)
    requires v < WordLimit
    ensures |s| == LineDigits
    ensures forall i :: 0 <= i < |s| ==> IsHexDigit(s[i])
  {
    HexN(v, LineDigits)
  }

  /** The value of a string of lowercase hex digits, most significant first;
      None when some character is not one. */
  function ParseHexN(s: string): (r: Option<nat>)
  {
    if s == [] then Some(0)
    else
      match (ParseHexN(s[..|s| - 1]), DigitValue(s[|s| - 1]))
      case (Some(hi), Some(d)) => Some(16 * hi + d)
      case _ => None
  }

  /** The value of one 16-digit line; None for any other length. */
  function ParseHex16(s: string): Option<nat>
  {
    if |s| != LineDigits then None else ParseHexN(s)
  }

  /** Parsing what HexN printed gives the value back when it fits. */
  lemma {:induction false} ParseHexNOfHexN(v: nat, n: nat)
    requires v < Pow16(n)
    ensures ParseHexN(HexN(v, n)) == Some(v)
  {
    if n > 0 {
      var s := HexN(v, n);
      assert s[..|s| - 1] == HexN(v / 16, n - 1);
      ParseHexNOfHexN(v / 16, n - 1);
      assert DigitValue(s[|s| - 1]) == Some(v % 16);
    }
  }

  /** Whatever the parser accepts fits in the digits it read and is printed
      back as the same string: the printed form is the only one accepted. */
  lemma {:induction false} HexNOfParseHexN(s: string, v: nat)
    requires ParseHexN(s) == Some(v)
    ensures v < Pow16(|s|) && HexN(v, |s|) == s
  {
    if s != [] {
      var n := |s| - 1;
      var hi := ParseHexN(s[..n]).value;
      var d := DigitValue(s[n]).value;
      assert v == 16 * hi + d;
      HexNOfParseHexN(s[..n], hi);
      assert v / 16 == hi && v % 16 == d;
      assert s == s[..n] + [s[n]];
    }
  }

  /** A 16-character line parses to `v` exactly when it is `v` formatted
      with `016x`. */
  lemma Hex16RoundTrip(s: string, v: nat)
    ensures ParseHex16(s) == Some(v) <==> v < WordLimit && Hex16(v) == s
  {
    LineDigitsHoldAWord();
    if ParseHex16(s) == Some(v) {
      HexNOfParseHexN(s, v);
    }
    if v < WordLimit && Hex16(v) == s {
      ParseHexNOfHexN(v, LineDigits);
    }
  }
}
