/** base64url (section 5 of RFC 4648): the decoder of `jwt_utils.hpp`, whose 32-bit
    accumulator wraps, and the unpadded encoder of `pkce.cpp`. */
module Base64Url {
  import opened Wrappers
  import opened Text

  // ------------------------------------------------------------------ alphabet

  predicate IsUpper(c: char) { 'A' <= c <= 'Z' }

  predicate IsLower(c: char) { 'a' <= c <= 'z' }

  /** `decode_base64url_char`. */
  function Digit(ch: char): (r: Option<nat>)
    ensures r.Some? ==> r.value < 64
  {
    if IsUpper(ch) then Some(ch as int - 'A' as int)
    else if IsLower(ch) then Some(26 + (ch as int - 'a' as int))
    else if IsDigit(ch) then Some(52 + (ch as int - '0' as int))
    else if ch == '-' then Some(62)
    else if ch == '_' then Some(63)
    else None
  }

  /** The standard alphabet (section 4 of RFC 4648). */
  function StdChar(d: nat): char
    requires d < 64
  {
    if d < 26 then ('A' as int + d) as char
    else if d < 52 then ('a' as int + (d - 26)) as char
    else if d < 62 then ('0' as int + (d - 52)) as char
    else if d == 62 then '+'
    else '/'
  }

  // ------------------------------------------------------------------- decoder

  /** The decoder on digits left to read, with `left` as the `m` bits that are not
      yet part of a byte. The accumulator of the source is not part of this. */
  function DecodeFrom(s: string, left: nat, m: nat): Option<string>
    requires IsShift(m) && left < Pow2(m)
  {
    if s == "" || s[0] == '=' then Some("")
    else
      match Digit(s[0])
      case None => None
      case Some(d) =>
        var bits := left * 64 + d;
        if m == 0 then DecodeFrom(s[1..], bits, 6)
        else Prefixed([ByteChar(Shr(bits, m - 2))], DecodeFrom(s[1..], Low(bits, m - 2), m - 2))
  }

  function Prefixed(out: string, more: Option<string>): Option<string> {
    if more.None? then None else Some(out + more.value)
  }

  lemma PrefixedNothing(more: Option<string>)
    ensures Prefixed("", more) == more
  {
    if more.Some? {
      assert "" + more.value == more.value;
    }
  }

  lemma PrefixedByte(out: string, byte: char, more: Option<string>)
    ensures Prefixed(out, Prefixed([byte], more)) == Prefixed(out + [byte], more)
  {
    if more.Some? {
      assert out + ([byte] + more.value) == (out + [byte]) + more.value;
    }
  }

  /** The numbers of bits by which the decoder shifts. */
  predicate IsShift(m: int) {
    m == 0 || m == 2 || m == 4 || m == 6
  }

  function Pow2(m: nat): (r: nat)
    requires IsShift(m)
    ensures r >= 1
  {
    if m == 0 then 1 else if m == 2 then 4 else if m == 4 then 16 else 64
  }

  /** `n << m`. */
  function Shl(n: nat, m: nat): nat
    requires IsShift(m)
  {
    if m == 0 then n else if m == 2 then n * 4 else if m == 4 then n * 16 else n * 64
  }

  /** `n >> m`, also of a negative number. */
  function Shr(n: int, m: nat): (r: int)
    requires IsShift(m)
    ensures n >= 0 ==> r >= 0
  {
    if m == 0 then n else if m == 2 then n / 4 else if m == 4 then n / 16 else n / 64
  }

  /** The lowest `m` bits. */
  function Low(n: int, m: nat): (r: nat)
    requires IsShift(m)
    ensures r < Pow2(m)
  {
    if m == 0 then 0 else if m == 2 then n % 4 else if m == 4 then n % 16 else n % 64
  }

  function ByteChar(n: nat): char
    requires n < 256
  {
    n as char
  }

  function Decode(s: string): Option<string> {
    DecodeFrom(s, 0, 0)
  }

  /** Two's complement reduction to 32 bits: the value of a wrapping left shift. */
  function Wrap32(n: int): int {
    (n + 0x8000_0000) % 0x1_0000_0000 - 0x8000_0000
  }

  /** A wrapping shift by six keeps a multiple of 64 and drops whole multiples of 2^32. */
  lemma WrapShift(val: int) returns (k: int)
    ensures Wrap32(val * 64) == val * 64 - k * 0x1_0000_0000
    ensures -0x8000_0000 <= Wrap32(val * 64) <= 0x8000_0000 - 64
  {
    k := (val * 64 + 0x8000_0000) / 0x1_0000_0000;
    assert Wrap32(val * 64) == 64 * (val - k * 0x400_0000);
  }

  lemma CutLow(v: int, bits: nat, j: int)
    requires bits < 64 && v == bits + 64 * j
    ensures v % 64 == bits
  {
  }

  lemma CutByte0(v: int, bits: nat, j: int)
    requires bits < 256 && v == bits + 256 * j
    ensures v % 256 == bits
  {
  }

  /** Cutting the byte above the low bits out of a number that is `bits` up to a multiple. */
  lemma CutByte2(v: int, bits: nat, j: int)
    requires bits < 1024 && v == bits + 1024 * j
    ensures v % 4 == bits % 4 && (v / 4) % 256 == bits / 4
  {
  }

  lemma CutByte4(v: int, bits: nat, j: int)
    requires bits < 4096 && v == bits + 4096 * j
    ensures v % 16 == bits % 16 && (v / 16) % 256 == bits / 16
  {
  }

  lemma Whole(val: int, m: nat)
    requires IsShift(m)
    ensures val == Pow2(m) * Shr(val, m) + Low(val, m)
  {
  }

  /** `(val << 6) + digit` wraps, but its low bits are right, and so is the byte that
      the shift and the mask cut out of them. */
  lemma {:induction false} WrapKeepsLowBits(val: int, d: nat, left: nat, m: nat)
    requires IsShift(m) && d < 64 && Low(val, m) == left
    ensures var v, bits := Wrap32(val * 64) + d, left * 64 + d;
      && -0x8000_0000 <= v < 0x8000_0000
      && (m == 0 ==> Low(v, 6) == bits)
      && (m > 0 ==> Low(v, m - 2) == Low(bits, m - 2) && Shr(v, m - 2) % 256 == Shr(bits, m - 2) < 256)
  {
    hide Wrap32;
    var k := WrapShift(val);
    Whole(val, m);
    var a, v, bits := Shr(val, m), Wrap32(val * 64) + d, left * 64 + d;
    if m == 0 {
      CutLow(v, bits, a - k * 0x400_0000);
    } else if m == 2 {
      CutByte0(v, bits, a - k * 0x100_0000);
    } else if m == 4 {
      CutByte2(v, bits, a - k * 0x40_0000);
    } else {
      CutByte4(v, bits, a - k * 0x10_0000);
    }
  }

  /** One character of the decoder, with `out` already written. */
  lemma DecodeStep(out: string, s: string, left: nat, m: nat)
    requires s != "" && IsShift(m) && left < Pow2(m)
    ensures s[0] == '=' ==> Prefixed(out, DecodeFrom(s, left, m)) == Some(out)
    ensures s[0] != '=' && Digit(s[0]).None? ==> Prefixed(out, DecodeFrom(s, left, m)) == None
    ensures s[0] != '=' && Digit(s[0]).Some? ==>
      var bits := left * 64 + Digit(s[0]).value;
      && (m == 0 ==> bits < Pow2(6) && Prefixed(out, DecodeFrom(s, left, m)) == Prefixed(out, DecodeFrom(s[1..], bits, 6)))
      && (m > 0 ==>
            && Shr(bits, m - 2) < 256
            && Prefixed(out, DecodeFrom(s, left, m))
               == Prefixed(out + [ByteChar(Shr(bits, m - 2))], DecodeFrom(s[1..], Low(bits, m - 2), m - 2)))
  {
    assert out + "" == out;
    if s[0] != '=' && Digit(s[0]).Some? && m > 0 {
      var bits := left * 64 + Digit(s[0]).value;
      PrefixedByte(out, ByteChar(Shr(bits, m - 2)), DecodeFrom(s[1..], Low(bits, m - 2), m - 2));
    }
  }

  method Base64UrlDecode(input: string) returns (r: Option<string>)
    ensures r == Decode(input)
  {
    hide Wrap32, Low, Shr, Pow2, DecodeFrom, Prefixed, Digit;
    DecodeStart(input);
    var out := "";
    var val, valb := 0, -8;
    ghost var left := 0;
    for i := 0 to |input|
      invariant IsShift(valb + 8) && left < Pow2(valb + 8)
      invariant -0x8000_0000 <= val < 0x8000_0000 && Low(val, valb + 8) == left
      invariant Decode(input) == Prefixed(out, DecodeFrom(input[i..], left, valb + 8))
    {
      var ch := input[i];
      DecodeStep(out, input[i..], left, valb + 8);
      assert input[i..][1..] == input[i + 1..];
      if ch == '=' {
        return Some(out);
      }
      var decoded := Digit(ch);
      if decoded.None? {
        return None;
      }
      WrapKeepsLowBits(val, decoded.value, left, valb + 8);
      left := left * 64 + decoded.value;
      val := Wrap32(val * 64) + decoded.value;
      valb := valb + 6;
      if valb >= 0 {
        out := out + [ByteChar(Shr(val, valb) % 256)];
        left := Low(left, valb);
        valb := valb - 8;
      }
    }
    DecodeEnd(out, left, valb + 8);
    return Some(out);
  }

  lemma DecodeStart(input: string)
    ensures Pow2(0) == 1 && Low(0, 0) == 0 && Decode(input) == Prefixed("", DecodeFrom(input[0..], 0, 0))
  {
    assert input[0..] == input;
    PrefixedNothing(DecodeFrom(input, 0, 0));
  }

  lemma DecodeEnd(out: string, left: nat, m: nat)
    requires IsShift(m) && left < Pow2(m)
    ensures Prefixed(out, DecodeFrom("", left, m)) == Some(out)
  {
    assert out + "" == out;
  }

  // ------------------------------------------------- the bits that are decoded

  predicate AllDigits(s: string) {
    forall i :: 0 <= i < |s| ==> s[i] != '=' && Digit(s[i]).Some?
  }

  /** The digits read as one number in base 64, after `acc` in front. */
  function Number64(s: string, acc: nat): nat
    requires AllDigits(s)
  {
    if s == "" then acc else Number64(s[1..], acc * 64 + Digit(s[0]).value)
  }

  /** The bytes read as one number in base 256, after `acc` in front. */
  function Number256(b: string, acc: nat): nat {
    if b == "" then acc else Number256(b[1..], acc * 256 + b[0] as nat)
  }

  /** The number of bits that make no whole byte. */
  function Pending(m: nat, n: nat): (r: nat)
    requires IsShift(m)
    ensures IsShift(r)
  {
    (m + 6 * n) % 8
  }

  /** With `acc` as the whole bytes in front and `left` on `m` further bits, decoding
      gives the bytes of the number that all the digits together denote. */
  lemma {:induction false} DecodedNumber(s: string, left: nat, m: nat, acc: nat)
    requires AllDigits(s) && IsShift(m) && left < Pow2(m)
    ensures DecodeFrom(s, left, m).Some? && |DecodeFrom(s, left, m).value| == (m + 6 * |s|) / 8
    ensures Number256(DecodeFrom(s, left, m).value, acc)
         == Shr(Number64(s, Shl(acc, m) + left), Pending(m, |s|))
    decreases s, 1
  {
    hide Shl, Shr, Low, Pending, Digit;
    if s == "" {
      Quotient(acc, left, m);
    } else {
      var d := Digit(s[0]).value;
      if m == 0 {
        FirstStep(acc, left, d);
        DecodedNumber(s[1..], left * 64 + d, 6, acc);
        LengthStep0(|s|);
      } else {
        FrontStep(acc, left, d, m);
        DecodedByte(s, left, d, m, acc, Shr(left * 64 + d, m - 2), Low(left * 64 + d, m - 2));
      }
    }
  }

  /** The step that completes a byte. */
  lemma {:induction false} DecodedByte(s: string, left: nat, d: nat, m: nat, acc: nat, byte: nat, low: nat)
    requires s != "" && AllDigits(s) && m in {2, 4, 6} && left < Pow2(m) && Digit(s[0]) == Some(d)
    requires byte < 256 && low < Pow2(m - 2)
    requires DecodeFrom(s, left, m) == Prefixed([ByteChar(byte)], DecodeFrom(s[1..], low, m - 2))
    requires (Shl(acc, m) + left) * 64 + d == Shl(acc * 256 + byte, m - 2) + low
    ensures DecodeFrom(s, left, m).Some? && |DecodeFrom(s, left, m).value| == (m + 6 * |s|) / 8
    ensures Number256(DecodeFrom(s, left, m).value, acc)
         == Shr(Number64(s, Shl(acc, m) + left), Pending(m, |s|))
    decreases s, 0
  {
    hide Shl, Shr, Low, Pending, Digit, Pow2, DecodeFrom;
    DecodedNumber(s[1..], low, m - 2, acc * 256 + byte);
    var rest := DecodeFrom(s[1..], low, m - 2).value;
    assert ([ByteChar(byte)] + rest)[1..] == rest;
    LengthStep(m, |s|);
  }

  lemma Quotient(acc: nat, left: nat, m: nat)
    requires IsShift(m) && left < Pow2(m)
    ensures m / 8 == 0 && Shr(Shl(acc, m) + left, Pending(m, 0)) == acc
  {
  }

  lemma FirstStep(acc: nat, left: nat, d: nat)
    requires left < Pow2(0) && d < 64
    ensures left * 64 + d < Pow2(6) && (Shl(acc, 0) + left) * 64 + d == Shl(acc, 6) + (left * 64 + d)
  {
  }

  lemma LengthStep0(n: nat)
    requires n > 0
    ensures (0 + 6 * n) / 8 == (6 + 6 * (n - 1)) / 8 && Pending(0, n) == Pending(6, n - 1)
  {
  }

  lemma LengthStep(m: nat, n: nat)
    requires m in {2, 4, 6} && n > 0
    ensures (m + 6 * n) / 8 == 1 + (m - 2 + 6 * (n - 1)) / 8
    ensures Pending(m, n) == Pending(m - 2, n - 1)
  {
  }

  lemma FrontStep(acc: nat, left: nat, d: nat, m: nat)
    requires m in {2, 4, 6} && left < Pow2(m) && d < 64
    ensures var byte, low := Shr(left * 64 + d, m - 2), Low(left * 64 + d, m - 2);
      byte < 256 && (Shl(acc, m) + left) * 64 + d == Shl(acc * 256 + byte, m - 2) + low
  {
  }

  /** However often the accumulator wraps, the output is `floor(6n / 8)` bytes, and as a
      number it is the concatenation of the `n` digits without its incomplete last byte. */
  lemma DecodeIsConcatenation(s: string)
    requires AllDigits(s)
    ensures Decode(s).Some? && |Decode(s).value| == 6 * |s| / 8
    ensures Number256(Decode(s).value, 0) == Shr(Number64(s, 0), Pending(0, |s|))
  {
    DecodedNumber(s, 0, 0, 0);
  }

  /** The text in front of the first padding sign. */
  function Front(s: string): string {
    if s == "" || s[0] == '=' then "" else [s[0]] + Front(s[1..])
  }

  /** The decoder stops at the first padding sign, and refuses a text with anything else in front of it. */
  lemma {:induction false} FrontDecodes(s: string, left: nat, m: nat)
    requires IsShift(m) && left < Pow2(m)
    ensures DecodeFrom(s, left, m) == DecodeFrom(Front(s), left, m)
    ensures DecodeFrom(s, left, m).Some? <==> AllDigits(Front(s))
    ensures DecodeFrom(s, left, m).Some? ==> IsBytes(DecodeFrom(s, left, m).value)
  {
    hide Shr, Low, Pow2, DecodeFrom, Digit, Prefixed, ByteChar;
    if s == "" || s[0] == '=' {
      FrontEnds(s, left, m);
    } else {
      assert Front(s)[0] == s[0] && Front(s)[1..] == Front(s[1..]);
      OneDecoded(s, left, m);
      OneDecoded(Front(s), left, m);
      DigitsStep(Front(s));
      if Digit(s[0]).Some? {
        var bits := left * 64 + Digit(s[0]).value;
        if m == 0 {
          FrontDecodes(s[1..], bits, 6);
        } else {
          FrontDecodes(s[1..], Low(bits, m - 2), m - 2);
          PrefixedBytes(Shr(bits, m - 2), DecodeFrom(s[1..], Low(bits, m - 2), m - 2));
        }
      }
    }
  }

  lemma FrontEnds(s: string, left: nat, m: nat)
    requires IsShift(m) && left < Pow2(m) && (s == "" || s[0] == '=')
    ensures DecodeFrom(s, left, m) == DecodeFrom(Front(s), left, m) == Some("") && AllDigits(Front(s)) && IsBytes("")
  {
  }

  lemma DigitsStep(s: string)
    requires s != "" && s[0] != '='
    ensures AllDigits(s) <==> Digit(s[0]).Some? && AllDigits(s[1..])
  {
    hide Digit;
    assert forall i :: 0 < i < |s| ==> s[i] == s[1..][i - 1];
  }

  lemma PrefixedBytes(byte: nat, more: Option<string>)
    requires byte < 256
    ensures var r := Prefixed([ByteChar(byte)], more);
      (r.Some? <==> more.Some?) && (more.Some? && IsBytes(more.value) ==> IsBytes(r.value))
  {
  }

  /** One character of the decoder. */
  lemma OneDecoded(s: string, left: nat, m: nat)
    requires s != "" && s[0] != '=' && IsShift(m) && left < Pow2(m)
    ensures Digit(s[0]).None? ==> DecodeFrom(s, left, m) == None
    ensures Digit(s[0]).Some? ==>
      var bits := left * 64 + Digit(s[0]).value;
      && (m == 0 ==> bits < Pow2(6) && DecodeFrom(s, left, m) == DecodeFrom(s[1..], bits, 6))
      && (m > 0 ==>
            && Shr(bits, m - 2) < 256
            && DecodeFrom(s, left, m) == Prefixed([ByteChar(Shr(bits, m - 2))], DecodeFrom(s[1..], Low(bits, m - 2), m - 2)))
  {
    hide DecodeFrom, Prefixed, Digit, Shr, Low, Pow2, ByteChar;
    DecodeStep("", s, left, m);
    PrefixedNothing(DecodeFrom(s, left, m));
    if Digit(s[0]).Some? {
      var bits := left * 64 + Digit(s[0]).value;
      if m == 0 {
        PrefixedNothing(DecodeFrom(s[1..], bits, 6));
      } else {
        assert "" + [ByteChar(Shr(bits, m - 2))] == [ByteChar(Shr(bits, m - 2))];
      }
    }
  }

  /** Byte strings of one length are told apart by their numbers. */
  lemma {:induction false} NumberInjective(a: string, b: string, x: nat, y: nat)
    requires IsBytes(a) && IsBytes(b) && |a| == |b| && Number256(a, x) == Number256(b, y)
    ensures a == b && x == y
  {
    if a != "" {
      NumberInjective(a[1..], b[1..], x * 256 + a[0] as nat, y * 256 + b[0] as nat);
      assert a == [a[0]] + a[1..] && b == [b[0]] + b[1..];
    }
  }

  /** The text in front of the first padding sign is all digits, and `b` is the concatenation of the digits
      without its incomplete last byte. */
  predicate Denotes(s: string, b: string) {
    && AllDigits(Front(s)) && IsBytes(b) && |b| == 6 * |Front(s)| / 8
    && Number256(b, 0) == Shr(Number64(Front(s), 0), Pending(0, |Front(s)|))
  }

  /** The decoder exactly, on every text. */
  lemma DecodeExactly(s: string, b: string)
    ensures Decode(s) == Some(b) <==> Denotes(s, b)
  {
    hide Shr, Pending, DecodeFrom, Digit, IsBytes;
    FrontDecodes(s, 0, 0);
    if AllDigits(Front(s)) {
      DecodeIsConcatenation(Front(s));
      if IsBytes(b) && |b| == |Decode(s).value| && Number256(b, 0) == Number256(Decode(s).value, 0) {
        NumberInjective(b, Decode(s).value, 0, 0);
      }
    }
  }

  // ------------------------------------------------------------------- encoder

  /** Standard base64 with padding (section 4 of RFC 4648): what OpenSSL's filter writes. */
  function StdEncode(b: string): string
    requires IsBytes(b)
  {
    if |b| == 0 then ""
    else
      var b0 := b[0] as int;
      if |b| == 1 then [StdChar(b0 / 4), StdChar(b0 % 4 * 16), '=', '=']
      else
        var b1 := b[1] as int;
        if |b| == 2 then [StdChar(b0 / 4), StdChar(b0 % 4 * 16 + b1 / 16), StdChar(b1 % 16 * 4), '=']
        else
          var b2 := b[2] as int;
          [StdChar(b0 / 4), StdChar(b0 % 4 * 16 + b1 / 16), StdChar(b1 % 16 * 4 + b2 / 64), StdChar(b2 % 64)]
          + StdEncode(b[3..])
  }

  function UrlSafe(c: char): char {
    if c == '+' then '-' else if c == '/' then '_' else c
  }

  function Replaced(s: string): (r: string)
    ensures |r| == |s| && forall i :: 0 <= i < |s| ==> r[i] == UrlSafe(s[i])
  {
    if s == "" then "" else [UrlSafe(s[0])] + Replaced(s[1..])
  }

  function Stripped(s: string): string {
    if s != "" && s[|s| - 1] == '=' then Stripped(s[..|s| - 1]) else s
  }

  function Encode(b: string): string
    requires IsBytes(b)
  {
    Stripped(Replaced(StdEncode(b)))
  }

  method Base64UrlEncode(input: string) returns (out: string)
    requires IsBytes(input)
    ensures out == Encode(input)
  {
    hide StdEncode;
    out := Replaced(StdEncode(input));
    while out != "" && out[|out| - 1] == '='
      invariant Stripped(out) == Encode(input)
      decreases |out|
    {
      out := out[..|out| - 1];
    }
  }

  lemma DigitOfChar(d: nat)
    requires d < 64
    ensures Digit(UrlSafe(StdChar(d))) == Some(d) && UrlSafe(StdChar(d)) != '='
  {
  }

  lemma {:induction false} StrippedBehind(g: string, s: string)
    requires g != "" && g[|g| - 1] != '='
    ensures Stripped(g + s) == g + Stripped(s)
  {
    if s == "" {
      assert g + s == g;
    } else if s[|s| - 1] == '=' {
      assert (g + s)[..|g + s| - 1] == g + s[..|s| - 1];
      StrippedBehind(g, s[..|s| - 1]);
    }
  }

  /** Four digits with nothing pending give three bytes and leave nothing pending. */
  lemma DecodeFour(d0: nat, d1: nat, d2: nat, d3: nat, s: string)
    requires |s| >= 4 && forall i :: 0 <= i < 4 ==> s[i] != '='
    requires Digit(s[0]) == Some(d0) && Digit(s[1]) == Some(d1) && Digit(s[2]) == Some(d2) && Digit(s[3]) == Some(d3)
    ensures Decode(s) == Prefixed([ByteChar((d0 * 64 + d1) / 16)],
                         Prefixed([ByteChar(((d0 * 64 + d1) % 16 * 64 + d2) / 4)],
                         Prefixed([ByteChar(((d0 * 64 + d1) % 16 * 64 + d2) % 4 * 64 + d3)], Decode(s[4..]))))
  {
    hide Digit;
    assert s[1..][1..] == s[2..] && s[2..][1..] == s[3..] && s[3..][1..] == s[4..];
    var x1 := d0 * 64 + d1;
    var x2 := x1 % 16 * 64 + d2;
    assert DecodeFrom(s, 0, 0) == DecodeFrom(s[1..], d0, 6);
    assert DecodeFrom(s[1..], d0, 6) == Prefixed([ByteChar(x1 / 16)], DecodeFrom(s[2..], x1 % 16, 4));
    assert DecodeFrom(s[2..], x1 % 16, 4) == Prefixed([ByteChar(x2 / 4)], DecodeFrom(s[3..], x2 % 4, 2));
    assert DecodeFrom(s[3..], x2 % 4, 2) == Prefixed([ByteChar(x2 % 4 * 64 + d3)], DecodeFrom(s[4..], 0, 0));
  }

  lemma GroupBits(b0: nat, b1: nat, b2: nat)
    requires b0 < 256 && b1 < 256 && b2 < 256
    ensures var d0, d1, d2, d3 := b0 / 4, b0 % 4 * 16 + b1 / 16, b1 % 16 * 4 + b2 / 64, b2 % 64;
      && (d0 * 64 + d1) / 16 == b0
      && ((d0 * 64 + d1) % 16 * 64 + d2) / 4 == b1
      && ((d0 * 64 + d1) % 16 * 64 + d2) % 4 * 64 + d3 == b2
  {
  }

  /** The four digits of the first three bytes. */
  function GroupText(b0: nat, b1: nat, b2: nat): string
    requires b0 < 256 && b1 < 256 && b2 < 256
  {
    [UrlSafe(StdChar(b0 / 4)), UrlSafe(StdChar(b0 % 4 * 16 + b1 / 16)),
     UrlSafe(StdChar(b1 % 16 * 4 + b2 / 64)), UrlSafe(StdChar(b2 % 64))]
  }

  lemma GroupDigits(b0: nat, b1: nat, b2: nat)
    requires b0 < 256 && b1 < 256 && b2 < 256
    ensures AllDigits(GroupText(b0, b1, b2))
    ensures var g := GroupText(b0, b1, b2);
      && Digit(g[0]) == Some(b0 / 4) && Digit(g[1]) == Some(b0 % 4 * 16 + b1 / 16)
      && Digit(g[2]) == Some(b1 % 16 * 4 + b2 / 64) && Digit(g[3]) == Some(b2 % 64)
  {
    hide Digit, StdChar;
    DigitOfChar(b0 / 4);
    DigitOfChar(b0 % 4 * 16 + b1 / 16);
    DigitOfChar(b1 % 16 * 4 + b2 / 64);
    DigitOfChar(b2 % 64);
  }

  lemma ReplacedJoin(a: string, b: string)
    ensures Replaced(a + b) == Replaced(a) + Replaced(b)
  {
    hide Replaced, UrlSafe;
  }

  lemma ReplacedFour(d0: nat, d1: nat, d2: nat, d3: nat, more: string)
    requires d0 < 64 && d1 < 64 && d2 < 64 && d3 < 64
    ensures Replaced([StdChar(d0), StdChar(d1), StdChar(d2), StdChar(d3)] + more)
         == [UrlSafe(StdChar(d0)), UrlSafe(StdChar(d1)), UrlSafe(StdChar(d2)), UrlSafe(StdChar(d3))] + Replaced(more)
  {
    hide StdChar, UrlSafe, Replaced;
    var four := [StdChar(d0), StdChar(d1), StdChar(d2), StdChar(d3)];
    ReplacedJoin(four, more);
    assert Replaced(four) == [UrlSafe(four[0]), UrlSafe(four[1]), UrlSafe(four[2]), UrlSafe(four[3])];
  }

  lemma ReplacedGroup(b: string)
    requires |b| >= 3 && IsBytes(b)
    ensures Replaced(StdEncode(b)) == GroupText(b[0] as int, b[1] as int, b[2] as int) + Replaced(StdEncode(b[3..]))
  {
    hide StdChar, UrlSafe, Replaced;
    var b0, b1, b2 := b[0] as int, b[1] as int, b[2] as int;
    ReplacedFour(b0 / 4, b0 % 4 * 16 + b1 / 16, b1 % 16 * 4 + b2 / 64, b2 % 64, StdEncode(b[3..]));
  }

  lemma EncodeGroup(b: string)
    requires |b| >= 3 && IsBytes(b)
    ensures Encode(b) == GroupText(b[0] as int, b[1] as int, b[2] as int) + Encode(b[3..])
  {
    hide StdEncode, Replaced, StdChar, Stripped, Digit;
    var g := GroupText(b[0] as int, b[1] as int, b[2] as int);
    GroupDigits(b[0] as int, b[1] as int, b[2] as int);
    ReplacedGroup(b);
    StrippedBehind(g, Replaced(StdEncode(b[3..])));
  }

  lemma DecodeGroup(b0: nat, b1: nat, b2: nat, more: string)
    requires b0 < 256 && b1 < 256 && b2 < 256
    ensures Decode(GroupText(b0, b1, b2) + more)
         == Prefixed([ByteChar(b0)], Prefixed([ByteChar(b1)], Prefixed([ByteChar(b2)], Decode(more))))
  {
    hide Decode, Digit, Prefixed, StdChar, UrlSafe, ByteChar;
    var s := GroupText(b0, b1, b2) + more;
    GroupDigits(b0, b1, b2);
    assert s[4..] == more;
    DecodeFour(b0 / 4, b0 % 4 * 16 + b1 / 16, b1 % 16 * 4 + b2 / 64, b2 % 64, s);
    GroupBits(b0, b1, b2);
  }

  lemma ThreeInFront(b: string)
    requires |b| >= 3 && IsBytes(b)
    ensures Prefixed([ByteChar(b[0] as nat)], Prefixed([ByteChar(b[1] as nat)], Prefixed([ByteChar(b[2] as nat)], Some(b[3..])))) == Some(b)
  {
    assert b == [b[0]] + ([b[1]] + ([b[2]] + b[3..]));
  }

  /** Decoding the unpadded encoding returns every byte string. */
  lemma {:induction false} RoundTrip(b: string)
    requires IsBytes(b)
    ensures Decode(Encode(b)) == Some(b)
  {
    if |b| < 3 {
      ShortRoundTrip(b);
    } else {
      hide Decode, Encode, GroupText, Prefixed, ByteChar;
      EncodeGroup(b);
      DecodeGroup(b[0] as int, b[1] as int, b[2] as int, Encode(b[3..]));
      RoundTrip(b[3..]);
      ThreeInFront(b);
    }
  }

  /** The encoding consists of digits of the alphabet only; so it holds no dot and no padding. */
  lemma {:induction false} EncodeAlphabet(b: string)
    requires IsBytes(b)
    ensures AllDigits(Encode(b)) && '.' !in Encode(b)
  {
    if |b| < 3 {
      ShortAlphabet(b);
    } else {
      hide Encode, GroupText, Digit, AllDigits;
      EncodeGroup(b);
      GroupDigits(b[0] as int, b[1] as int, b[2] as int);
      EncodeAlphabet(b[3..]);
      DigitsJoin(GroupText(b[0] as int, b[1] as int, b[2] as int), Encode(b[3..]));
    }
  }

  lemma DigitsJoin(a: string, b: string)
    requires AllDigits(a) && AllDigits(b)
    ensures AllDigits(a + b) && '.' !in a + b
  {
    assert Digit('.').None?;
    hide Digit;
  }

  lemma ShortAlphabet(b: string)
    requires IsBytes(b) && |b| < 3
    ensures AllDigits(Encode(b))
  {
    if |b| == 1 {
      EncodeOne(b[0] as int);
      assert b == [b[0]];
    } else if |b| == 2 {
      EncodeTwo(b[0] as int, b[1] as int);
      assert b == [b[0], b[1]];
    }
  }

  lemma ShortRoundTrip(b: string)
    requires IsBytes(b) && |b| < 3
    ensures Decode(Encode(b)) == Some(b)
  {
    if |b| == 1 {
      OneByte(b[0] as int);
      assert b == [b[0]];
    } else if |b| == 2 {
      TwoBytes(b[0] as int, b[1] as int);
      assert b == [b[0], b[1]];
    }
  }

  lemma EncodeOne(b0: nat)
    requires b0 < 256
    ensures Encode([ByteChar(b0)]) == [UrlSafe(StdChar(b0 / 4)), UrlSafe(StdChar(b0 % 4 * 16))]
    ensures AllDigits(Encode([ByteChar(b0)]))
  {
    hide Digit, StdChar;
    DigitOfChar(b0 / 4);
    DigitOfChar(b0 % 4 * 16);
    var s := [UrlSafe(StdChar(b0 / 4)), UrlSafe(StdChar(b0 % 4 * 16))];
    assert Replaced(StdEncode([ByteChar(b0)])) == s + "==";
    StrippedBehind(s, "==");
    assert Stripped("==") == "" by {
      assert "=="[..1] == "=" && "="[..0] == "";
    }
    assert s + "" == s;
  }

  lemma OneByte(b0: nat)
    requires b0 < 256
    ensures Decode(Encode([ByteChar(b0)])) == Some([ByteChar(b0)])
  {
    hide Digit, StdChar, Encode;
    var d0, d1 := b0 / 4, b0 % 4 * 16;
    DigitOfChar(d0);
    DigitOfChar(d1);
    EncodeOne(b0);
    var s := Encode([ByteChar(b0)]);
    assert s[1..][1..] == "";
    GroupBits(b0, 0, 0);
    assert DecodeFrom(s, 0, 0) == DecodeFrom(s[1..], d0, 6);
    assert DecodeFrom(s[1..], d0, 6) == Prefixed([ByteChar((d0 * 64 + d1) / 16)], DecodeFrom("", 0, 4));
    assert [ByteChar(b0)] + "" == [ByteChar(b0)];
  }

  lemma EncodeTwo(b0: nat, b1: nat)
    requires b0 < 256 && b1 < 256
    ensures Encode([ByteChar(b0), ByteChar(b1)])
         == [UrlSafe(StdChar(b0 / 4)), UrlSafe(StdChar(b0 % 4 * 16 + b1 / 16)), UrlSafe(StdChar(b1 % 16 * 4))]
    ensures AllDigits(Encode([ByteChar(b0), ByteChar(b1)]))
  {
    hide Digit, StdChar;
    DigitOfChar(b0 / 4);
    DigitOfChar(b0 % 4 * 16 + b1 / 16);
    DigitOfChar(b1 % 16 * 4);
    var s := [UrlSafe(StdChar(b0 / 4)), UrlSafe(StdChar(b0 % 4 * 16 + b1 / 16)), UrlSafe(StdChar(b1 % 16 * 4))];
    assert Replaced(StdEncode([ByteChar(b0), ByteChar(b1)])) == s + "=";
    StrippedBehind(s, "=");
    assert Stripped("=") == "" by {
      assert "="[..0] == "";
    }
    assert s + "" == s;
  }

  lemma TwoBytes(b0: nat, b1: nat)
    requires b0 < 256 && b1 < 256
    ensures Decode(Encode([ByteChar(b0), ByteChar(b1)])) == Some([ByteChar(b0), ByteChar(b1)])
  {
    hide Digit, StdChar, Encode;
    var d0, d1, d2 := b0 / 4, b0 % 4 * 16 + b1 / 16, b1 % 16 * 4;
    DigitOfChar(d0);
    DigitOfChar(d1);
    DigitOfChar(d2);
    EncodeTwo(b0, b1);
    var s := Encode([ByteChar(b0), ByteChar(b1)]);
    assert s[1..][1..] == s[2..] && s[2..][1..] == "";
    GroupBits(b0, b1, 0);
    var x1 := d0 * 64 + d1;
    assert DecodeFrom(s, 0, 0) == DecodeFrom(s[1..], d0, 6);
    assert DecodeFrom(s[1..], d0, 6) == Prefixed([ByteChar(x1 / 16)], DecodeFrom(s[2..], x1 % 16, 4));
    assert DecodeFrom(s[2..], x1 % 16, 4) == Prefixed([ByteChar((x1 % 16 * 64 + d2) / 4)], DecodeFrom("", 0, 2));
    assert [ByteChar(b1)] + "" == [ByteChar(b1)];
    assert [ByteChar(b0)] + [ByteChar(b1)] == [ByteChar(b0), ByteChar(b1)];
  }

  // ---------------------------------------------------------------- the alphabet

  /** Table 2 in section 5 of RFC 4648. */
  const ALPHABET := UPPER + LOWER + DIGITS + "-_"

  lemma AlphabetAt(d: nat)
    requires d < 64
    ensures |ALPHABET| == 64
    ensures ALPHABET[d] as int == if d < 26 then 65 + d else if d < 52 then 97 + d - 26 else if d < 62 then 48 + d - 52
                                  else if d == 62 then 45 else 95
  {
    LettersInOrder();
    DigitsInOrder();
  }

  /** The digits are the places in the alphabet, for the decoder and for the encoder. */
  lemma DigitExactly(c: char, d: nat)
    requires d < 64
    ensures |ALPHABET| == 64
    ensures Digit(c) == Some(d) <==> c == ALPHABET[d]
    ensures UrlSafe(StdChar(d)) == ALPHABET[d]
  {
    AlphabetAt(d);
  }
}
