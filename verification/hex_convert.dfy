/** Base16 text (section 8 of RFC 4648) as .NET's `Convert.ToHexString` writes it and
    `Convert.FromHexString` reads it: encoding always emits upper-case digits, decoding
    accepts either case and fails on an odd length or on a character that is no hex digit. */
module HexConvert {
  import opened Types
  import opened Wrappers

  /** The `FormatException` that `FromHexString` throws, for an odd length and for a
      character that is no hex digit alike. */
  datatype HexError = FormatException

  predicate IsUpperHexChar(c: char) {
    '0' <= c <= '9' || 'A' <= c <= 'F'
  }

  predicate IsHexChar(c: char) {
    IsUpperHexChar(c) || 'a' <= c <= 'f'
  }

  /** Every character is an upper-case hex digit. */
  predicate IsUpperHex(s: string) {
    forall i :: 0 <= i < |s| ==> IsUpperHexChar(s[i])
  }

  /** The text `FromHexString` accepts: an even number of hex digits of either case. */
  predicate IsHexString(s: string) {
    |s| % 2 == 0 && forall i :: 0 <= i < |s| ==> IsHexChar(s[i])
  }

  /** ASCII upper-casing of one character; every other character is left as it is. */
  function UpperAscii(c: char): char {
    if 'a' <= c <= 'z' then (c as int - 'a' as int + 'A' as int) as char else c
  }

  function ToUpperAscii(s: string): (u: string)
    ensures |u| == |s|
    ensures forall i :: 0 <= i < |s| ==> u[i] == UpperAscii(s[i])
  {
    seq(|s|, i requires 0 <= i < |s| => UpperAscii(s[i]))
  }

  /** The upper-case digit for a nibble. */
  function HexDigit(n: nat): (c: char)
    requires n < 16
    ensures IsUpperHexChar(c)
  {
    if n < 10 then ('0' as int + n) as char else ('A' as int + n - 10) as char
  }

  /** The nibble a character denotes, if it is a hex digit of either case. */
  function NibbleValue(c: char): (r: Option<nat>)
    ensures r.Some? <==> IsHexChar(c)
    ensures r.Some? ==> r.value < 16
  {
    if '0' <= c <= '9' then Some(c as int - '0' as int)
    else if 'A' <= c <= 'F' then Some(c as int - 'A' as int + 10)
    else if 'a' <= c <= 'f' then Some(c as int - 'a' as int + 10)
    else None
  }

  /** `Convert.ToHexString`: two upper-case digits per byte, high nibble first. */
  function ToHexString(bytes: seq<byte>): (s: string)
    ensures |s| == 2 * |bytes|
    ensures IsUpperHex(s)
  {
    if |bytes| == 0 then ""
    else [HexDigit(bytes[0] as int / 16), HexDigit(bytes[0] as int % 16)] + ToHexString(bytes[1..])
  }

  /** `Convert.FromHexString`: the length is checked before any character is. */
  function FromHexString(s: string): (r: Result<seq<byte>, HexError>)
    ensures r.Success? <==> IsHexString(s)
    ensures r.Success? ==> |r.value| == |s| / 2
    ensures !IsHexString(s) ==> r == Failure(FormatException)
  {
    if |s| % 2 != 0 then Failure(FormatException) else DecodePairs(s)
  }

  /** Decodes an even-length text two digits at a time. */
  function DecodePairs(s: string): (r: Result<seq<byte>, HexError>)
    requires |s| % 2 == 0
    ensures r.Success? <==> forall i :: 0 <= i < |s| ==> IsHexChar(s[i])
    ensures r.Success? ==> |r.value| == |s| / 2
    ensures r.Failure? ==> r == Failure(FormatException)
    decreases |s|
  {
    if |s| == 0 then Success([])
    else
      match (NibbleValue(s[0]), NibbleValue(s[1]))
      case (Some(hi), Some(lo)) =>
        (match DecodePairs(s[2..])
         case Success(rest) => Success([(hi * 16 + lo) as byte] + rest)
         case Failure(e) => Failure(e))
      case _ => Failure(FormatException)
  }

  lemma NibbleOfDigit(n: nat)
    requires n < 16
    ensures NibbleValue(HexDigit(n)) == Some(n)
  {
  }

  lemma DigitOfNibble(c: char)
    requires IsHexChar(c)
    ensures HexDigit(NibbleValue(c).value) == UpperAscii(c)
  {
  }

  /** Splitting a byte into its two nibbles and joining them again gives the byte back. */
  lemma ByteFromNibbles(b: byte)
    ensures ((b as int / 16) * 16 + b as int % 16) as byte == b
  {
  }

  /** Decoding undoes encoding. */
  lemma {:induction false} DecodeEncode(bytes: seq<byte>)
    ensures FromHexString(ToHexString(bytes)) == Success(bytes)
  {
    if |bytes| > 0 {
      var s := ToHexString(bytes);
      var hi, lo := bytes[0] as int / 16, bytes[0] as int % 16;
      assert s[2..] == ToHexString(bytes[1..]);
      NibbleOfDigit(hi);
      NibbleOfDigit(lo);
      ByteFromNibbles(bytes[0]);
      DecodeEncode(bytes[1..]);
      assert [bytes[0]] + bytes[1..] == bytes;
    }
  }

  /** Joining two nibbles into a byte and splitting it again gives the nibbles back. */
  lemma NibblesFromByte(hi: nat, lo: nat)
    requires hi < 16 && lo < 16
    ensures ((hi * 16 + lo) as byte) as int / 16 == hi
    ensures ((hi * 16 + lo) as byte) as int % 16 == lo
  {
    assert ((hi * 16 + lo) as byte) as int == hi * 16 + lo;
  }

  /** Encoding what was decoded gives the upper-cased input: Base16 text is canonical up to
      the case of its letters. */
  lemma {:induction false} EncodeDecode(s: string)
    requires FromHexString(s).Success?
    ensures ToHexString(FromHexString(s).value) == ToUpperAscii(s)
  {
    if |s| > 0 {
      var hi, lo := NibbleValue(s[0]).value, NibbleValue(s[1]).value;
      var rest := DecodePairs(s[2..]);
      assert rest.Success?;
      var bytes := FromHexString(s).value;
      assert bytes == [(hi * 16 + lo) as byte] + rest.value;
      NibblesFromByte(hi, lo);
      DigitOfNibble(s[0]);
      DigitOfNibble(s[1]);
      EncodeDecode(s[2..]);
      assert bytes[1..] == rest.value;
      assert ToUpperAscii(s) == [UpperAscii(s[0]), UpperAscii(s[1])] + ToUpperAscii(s[2..]);
    }
  }

  /** Decoding ignores the case of the letters, and fails the same way on either case. */
  lemma {:induction false} DecodeIgnoresCase(s: string)
    ensures FromHexString(ToUpperAscii(s)) == FromHexString(s)
  {
    var u := ToUpperAscii(s);
    if |s| % 2 == 0 && |s| > 0 {
      assert NibbleValue(u[0]) == NibbleValue(s[0]);
      assert NibbleValue(u[1]) == NibbleValue(s[1]);
      assert u[2..] == ToUpperAscii(s[2..]);
      DecodeIgnoresCase(s[2..]);
    }
  }

  /** Distinct byte sequences have distinct encodings. */
  lemma ToHexStringInjective(a: seq<byte>, b: seq<byte>)
    requires ToHexString(a) == ToHexString(b)
    ensures a == b
  {
    DecodeEncode(a);
    DecodeEncode(b);
  }
}
