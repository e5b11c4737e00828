/** Percent-encoding (section 2.1 of RFC 3986), from `url_encode.hpp`. */
module UrlEncode {
  import opened Wrappers
  import opened Text

  predicate ShouldEncode(c: char) {
    !(|| 'A' <= c <= 'Z' || 'a' <= c <= 'z' || '0' <= c <= '9'
      || c == '-' || c == '_' || c == '.' || c == '~')
  }

  function HexChar(d: nat): char
    requires d < 16
  {
    if d < 10 then (48 + d) as char else (87 + d) as char
  }

  function EncodeChar(c: char): string
    requires c as int < 256
  {
    if ShouldEncode(c) then ['%', HexChar(c as int / 16), HexChar(c as int % 16)] else [c]
  }

  function Encode(value: string): string
    requires IsBytes(value)
  {
    if value == "" then "" else EncodeChar(value[0]) + Encode(value[1..])
  }

  function HexValue(c: char): (r: Option<nat>)
    ensures r.Some? ==> r.value < 16
  {
    if '0' <= c <= '9' then Some(c as int - 48)
    else if 'a' <= c <= 'f' then Some(c as int - 87)
    else if 'A' <= c <= 'F' then Some(c as int - 55)
    else None
  }

  /** `std::istringstream{a, b} >> std::hex >> ch`: white space, a sign and a single
      digit are accepted as well; a lone prefix "0x" is not a number. */
  function StreamHex(a: char, b: char): Option<int> {
    if IsSpace(a) then (if HexValue(b).Some? then Some(HexValue(b).value) else None)
    else if a == '+' || a == '-' then
      (if HexValue(b).Some? then
         var v: int := HexValue(b).value;
         Some(if a == '-' then -v else v)
       else None)
    else if a == '0' && (b == 'x' || b == 'X') then None
    else match HexValue(a)
      case None => None
      case Some(hi) => Some(if HexValue(b).Some? then hi * 16 + HexValue(b).value else hi)
  }

  /** `static_cast<char>`. */
  function ToByte(n: int): char {
    (n % 256) as char
  }

  function Decode(value: string): string {
    if value == "" then ""
    else if value[0] == '%' && |value| > 2 && StreamHex(value[1], value[2]).Some? then
      [ToByte(StreamHex(value[1], value[2]).value)] + Decode(value[3..])
    else [value[0]] + Decode(value[1..])
  }

  lemma EncodedChar(c: char)
    requires c as int < 256
    ensures EncodeChar(c) == if ShouldEncode(c) then "%" + [HexChar(c as int / 16)] + [HexChar(c as int % 16)] else [c]
  {
  }

  method UrlEncode(value: string) returns (escaped: string)
    requires IsBytes(value)
    ensures escaped == Encode(value)
  {
    hide Rest, HexChar, ShouldEncode, EncodeChar, IsBytes;
    escaped := "";
    RestStart(value);
    for i := 0 to |value|
      invariant IsBytes(Rest(value, i))
      invariant escaped + Encode(Rest(value, i)) == Encode(value)
    {
      var c := value[i];
      RestStep(value, i);
      BytesStep(Rest(value, i));
      EncodedChar(c);
      Regroup(escaped, EncodeChar(c), Encode(Rest(value, i + 1)));
      if ShouldEncode(c) {
        RegroupThree(escaped, "%", [HexChar(c as int / 16)], [HexChar(c as int % 16)]);
        escaped := escaped + "%" + [HexChar(c as int / 16)] + [HexChar(c as int % 16)];
      } else {
        escaped := escaped + [c];
      }
    }
    assert escaped + "" == escaped;
  }

  method UrlDecode(value: string) returns (result: string)
    ensures result == Decode(value)
  {
    hide Rest, StreamHex, ToByte;
    result := "";
    var i := 0;
    RestStart(value);
    while i < |value|
      invariant i <= |value|
      invariant result + Decode(Rest(value, i)) == Decode(value)
    {
      RestStep(value, i);
      if value[i] == '%' && i + 2 < |value| {
        RestAt(value, i, 1);
        RestAt(value, i, 2);
        var ch := StreamHex(value[i + 1], value[i + 2]);
        if ch.Some? {
          RestShift(value, i, 3);
          Regroup(result, [ToByte(ch.value)], Decode(Rest(value, i + 3)));
          result := result + [ToByte(ch.value)];
          i := i + 3;
          continue;
        }
      }
      Regroup(result, [value[i]], Decode(Rest(value, i + 1)));
      result := result + [value[i]];
      i := i + 1;
    }
    assert result + "" == result;
  }

  /** One encoded character is decoded, whatever follows. */
  lemma DecodeEncodedChar(c: char, rest: string)
    requires c as int < 256
    ensures Decode(EncodeChar(c) + rest) == [c] + Decode(rest)
  {
    var s := EncodeChar(c) + rest;
    if ShouldEncode(c) {
      var hi, lo := c as int / 16, c as int % 16;
      assert HexValue(HexChar(hi)) == Some(hi) && HexValue(HexChar(lo)) == Some(lo);
      assert !IsSpace(HexChar(hi)) && HexChar(lo) != 'x' && HexChar(lo) != 'X';
      assert s[1] == HexChar(hi) && s[2] == HexChar(lo) && s[3..] == rest;
    } else {
      assert s[1..] == rest;
    }
  }

  /** Decoding the encoding returns every byte string. */
  lemma {:induction false} RoundTrip(value: string)
    requires IsBytes(value)
    ensures Decode(Encode(value)) == value
  {
    hide Decode, EncodeChar;
    if value == "" {
      DecodeNothing();
    } else {
      DecodeEncodedChar(value[0], Encode(value[1..]));
      RoundTrip(value[1..]);
    }
  }

  lemma DecodeNothing()
    ensures Decode("") == ""
  {
  }

  predicate Unreserved(c: char) {
    !ShouldEncode(c)
  }

  /** The encoding consists of unreserved characters, percent signs and hex digits. */
  lemma {:induction false} EncodeAlphabet(value: string)
    requires IsBytes(value)
    ensures forall i :: 0 <= i < |Encode(value)| ==> Unreserved(Encode(value)[i]) || Encode(value)[i] == '%'
  {
    if value != "" {
      EncodeAlphabet(value[1..]);
      EncodeCharAlphabet(value[0]);
    }
  }

  lemma EncodeCharAlphabet(c: char)
    requires c as int < 256
    ensures forall i :: 0 <= i < |EncodeChar(c)| ==> Unreserved(EncodeChar(c)[i]) || EncodeChar(c)[i] == '%'
  {
  }

  /** None of the separators around encoded text can occur in it. */
  lemma {:induction false} EncodeSafe(value: string)
    requires IsBytes(value)
    ensures '&' !in Encode(value) && '=' !in Encode(value) && '+' !in Encode(value)
    ensures ';' !in Encode(value) && '/' !in Encode(value) && '?' !in Encode(value)
    ensures forall i :: 0 <= i < |Encode(value)| ==> !IsSpace(Encode(value)[i])
    ensures value != "" ==> Encode(value) != ""
  {
    EncodeAlphabet(value);
  }

  lemma EncodeInjective(x: string, y: string)
    requires IsBytes(x) && IsBytes(y) && Encode(x) == Encode(y)
    ensures x == y
  {
    RoundTrip(x);
    RoundTrip(y);
  }

  /** Text without a percent sign decodes to itself. */
  lemma {:induction false} DecodePlain(value: string)
    requires '%' !in value
    ensures Decode(value) == value
  {
    if value != "" {
      DecodePlain(value[1..]);
    }
  }

  // ------------------------------------------------------- what encoded text means

  const LOWER_HEX := "0123456789" + "abcdef"
  const UPPER_HEX := "0123456789" + "ABCDEF"

  lemma HexDigitsAre(d: nat)
    requires d < 16
    ensures LOWER_HEX[d] as int == (if d < 10 then 48 + d else 87 + d)
    ensures UPPER_HEX[d] as int == (if d < 10 then 48 + d else 55 + d)
  {
    DigitsInOrder();
    assert Consecutive("abcdef", 'a') && Consecutive("ABCDEF", 'A');
  }

  /** The character is this hex digit, in either case (section 2.1 of RFC 3986). */
  predicate IsHex(c: char, d: nat)
    requires d < 16
  {
    c == LOWER_HEX[d] || c == UPPER_HEX[d]
  }

  predicate IsAnyHex(c: char) {
    c in LOWER_HEX || c in UPPER_HEX
  }

  lemma HexRead(c: char, d: nat)
    requires d < 16
    ensures HexValue(c) == Some(d) <==> IsHex(c, d)
    ensures IsHex(c, d) ==> IsAnyHex(c) && !IsSpace(c) && c != '+' && c != '-' && (c == '0' <==> d == 0) && c != 'x' && c != 'X'
  {
    HexDigitsAre(d);
  }

  lemma AnyHexRead(c: char) returns (d: nat)
    requires IsAnyHex(c)
    ensures d < 16 && IsHex(c, d)
  {
    if c in LOWER_HEX {
      d :| d < |LOWER_HEX| && LOWER_HEX[d] == c;
    } else {
      d :| d < |UPPER_HEX| && UPPER_HEX[d] == c;
    }
  }

  lemma NoHexRead(c: char)
    requires !IsAnyHex(c)
    ensures HexValue(c) == None
  {
    if HexValue(c).Some? {
      HexRead(c, HexValue(c).value);
    }
  }

  /** `text` spells the bytes: each stands for itself, or is written as a percent sign and its two hex
      digits in either case; a percent sign only so (section 2.1 of RFC 3986). */
  predicate Spells(text: string, bytes: string)
    decreases |text|
  {
    if bytes == "" then text == ""
    else
      || (text != "" && text[0] != '%' && text[0] == bytes[0] && Spells(text[1..], bytes[1..]))
      || (&& |text| >= 3 && text[0] == '%' && bytes[0] as int < 256
          && IsHex(text[1], bytes[0] as int / 16) && IsHex(text[2], bytes[0] as int % 16) && Spells(text[3..], bytes[1..]))
  }

  /** Every spelling of the bytes is decoded to them. */
  lemma {:induction false} DecodeSpelled(text: string, bytes: string)
    requires Spells(text, bytes)
    ensures Decode(text) == bytes
    decreases |text|
  {
    hide HexValue, IsHex, StreamHex;
    if bytes != "" {
      if text[0] != '%' {
        DecodeSpelled(text[1..], bytes[1..]);
      } else {
        PairRead(text[1], text[2], bytes[0]);
        DecodeSpelled(text[3..], bytes[1..]);
      }
    }
  }

  lemma PairRead(a: char, b: char, byte: char)
    requires byte as int < 256 && IsHex(a, byte as int / 16) && IsHex(b, byte as int % 16)
    ensures StreamHex(a, b) == Some(byte as int) && ToByte(byte as int) == byte
  {
    hide HexValue, IsHex;
    HexRead(a, byte as int / 16);
    HexRead(b, byte as int % 16);
  }

  /** What stands behind a percent sign that is no two hex digits is read as a stream would read it. */
  lemma StreamReads(a: char, b: char)
    ensures forall d: nat :: d < 16 && IsHex(a, d) && !IsAnyHex(b) && !(a == '0' && b in "xX") ==> StreamHex(a, b) == Some(d)
    ensures a == '0' && b in "xX" ==> StreamHex(a, b) == None
    ensures forall d: nat :: d < 16 && IsHex(b, d) && (IsSpace(a) || a == '+') ==> StreamHex(a, b) == Some(d)
    ensures forall d: nat :: d < 16 && IsHex(b, d) && a == '-' ==> StreamHex(a, b) == Some(0 - d)
    ensures !IsAnyHex(b) && (IsSpace(a) || a == '+' || a == '-') ==> StreamHex(a, b) == None
    ensures !IsAnyHex(a) && !IsSpace(a) && a != '+' && a != '-' ==> StreamHex(a, b) == None
  {
    hide HexValue, IsHex, IsAnyHex;
    forall c: char, d: nat | d < 16 ensures HexValue(c) == Some(d) <==> IsHex(c, d) {
      HexRead(c, d);
    }
    if IsAnyHex(a) {
      var d := AnyHexRead(a);
      HexRead(a, d);
    } else {
      NoHexRead(a);
    }
    if !IsAnyHex(b) {
      NoHexRead(b);
    }
  }

  /** And a percent sign that starts no such reading stays. */
  lemma PercentStays(text: string)
    requires text != "" && text[0] == '%' && (|text| < 3 || StreamHex(text[1], text[2]).None?)
    ensures Decode(text) == "%" + Decode(text[1..])
  {
  }

  /** The unreserved characters (section 2.3 of RFC 3986). */
  const UNRESERVED := UPPER + LOWER + DIGITS + "-._~"

  lemma UnreservedExactly(c: char)
    ensures Unreserved(c) <==> c in UNRESERVED
  {
    InAlphabets(c);
    assert c in "-._~" <==> c == '-' || c == '.' || c == '_' || c == '~';
  }

  /** One encoded byte: itself when it is unreserved, and otherwise its two lower-case hex digits. */
  lemma EncodedExactly(c: char)
    requires c as int < 256
    ensures EncodeChar(c) == if c in UNRESERVED then [c] else ['%', LOWER_HEX[c as int / 16], LOWER_HEX[c as int % 16]]
  {
    hide ShouldEncode;
    UnreservedExactly(c);
    HexDigitsAre(c as int / 16);
    HexDigitsAre(c as int % 16);
  }

  lemma PercentReserved()
    ensures '%' !in UNRESERVED
  {
    InAlphabets('%');
    assert '%' !in "-._~";
  }

  /** So the encoding is one of the spellings. */
  lemma {:induction false} EncodeSpells(value: string)
    requires IsBytes(value)
    ensures Spells(Encode(value), value)
  {
    hide ShouldEncode, EncodeChar;
    if value != "" {
      var c := value[0];
      EncodedExactly(c);
      PercentReserved();
      EncodeSpells(value[1..]);
      assert Encode(value)[|EncodeChar(c)|..] == Encode(value[1..]);
    }
  }
}
