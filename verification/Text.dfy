/** Byte strings as sequences of characters, with the standard-library searches
    and number conversions that the source calls. */
module Text {
  import opened Wrappers

  /** The six `isspace` characters of the C locale. */
  predicate IsSpace(c: char) {
    c == ' ' || 9 <= c as int <= 13
  }

  predicate AllSpace(s: string) {
    forall i :: 0 <= i < |s| ==> IsSpace(s[i])
  }

  /** Every character is a byte. */
  predicate IsBytes(s: string) {
    forall i :: 0 <= i < |s| ==> s[i] as int < 256
  }

  /** The text from `pos` on; nothing when `pos` is past the end. */
  function Rest(text: string, pos: nat): (r: string)
    ensures |r| == if pos <= |text| then |text| - pos else 0
  {
    if pos <= |text| then text[pos..] else ""
  }

  lemma RestStep(text: string, pos: nat)
    ensures pos < |text| ==> Rest(text, pos)[0] == text[pos] && Rest(text, pos)[1..] == Rest(text, pos + 1)
  {
  }

  /** A slice of the text ahead, and the text behind it. */
  lemma RestShift(text: string, pos: nat, n: nat)
    requires pos + n <= |text|
    ensures Rest(text, pos)[..n] == text[pos..pos + n] && Rest(text, pos)[n..] == Rest(text, pos + n)
  {
  }

  lemma RestStart(text: string)
    ensures Rest(text, 0) == text
  {
  }

  lemma RestAt(text: string, pos: nat, k: nat)
    requires pos + k < |text|
    ensures Rest(text, pos)[k] == text[pos + k]
  {
  }

  lemma Regroup(a: string, b: string, c: string)
    ensures (a + b) + c == a + (b + c)
  {
  }

  lemma RegroupThree(a: string, b: string, c: string, d: string)
    ensures a + b + c + d == a + (b + c + d)
  {
  }

  lemma BytesStep(s: string)
    requires IsBytes(s) && s != ""
    ensures s[0] as int < 256 && IsBytes(s[1..])
  {
  }

  lemma PrefixStep<T>(xs: seq<T>, i: nat)
    requires i < |xs|
    ensures xs[..i + 1] == xs[..i] + [xs[i]]
  {
  }

  function Quoted(body: string): string {
    "\"" + body + "\""
  }

  /** `std::string::find(char)`: the first index of `c`. */
  function FindChar(s: string, c: char): (r: Option<nat>)
    ensures r.Some? ==> r.value < |s| && s[r.value] == c && c !in s[..r.value]
    ensures r.None? ==> c !in s
  {
    if s == "" then None
    else if s[0] == c then Some(0)
    else
      var r := FindChar(s[1..], c);
      if r.None? then
        assert s == [s[0]] + s[1..];
        None
      else
        assert s[..r.value + 1] == [s[0]] + s[1..][..r.value];
        Some(r.value + 1)
  }

  lemma {:induction false} FindCharAt(a: string, c: char, b: string)
    requires c !in a
    ensures FindChar(a + [c] + b, c) == Some(|a|)
  {
    if a != "" {
      assert (a + [c] + b)[1..] == a[1..] + [c] + b;
      FindCharAt(a[1..], c, b);
    }
  }

  predicate OccursAt(s: string, pat: string, k: int) {
    0 <= k <= k + |pat| <= |s| && s[k..k + |pat|] == pat
  }

  /** `std::string::find(text)`: the first index at which `pat` occurs. */
  function FindText(s: string, pat: string): (r: Option<nat>)
    ensures r.Some? ==> OccursAt(s, pat, r.value) && forall k :: 0 <= k < r.value ==> !OccursAt(s, pat, k)
    ensures r.None? ==> forall k :: !OccursAt(s, pat, k)
  {
    if |s| < |pat| then None
    else if s[..|pat|] == pat then
      assert OccursAt(s, pat, 0);
      Some(0)
    else
      var r := FindText(s[1..], pat);
      assert forall k :: 1 <= k && OccursAt(s, pat, k) ==> OccursAt(s[1..], pat, k - 1);
      assert r.Some? ==> s[1..][r.value..r.value + |pat|] == s[r.value + 1..r.value + 1 + |pat|];
      if r.None? then None else Some(r.value + 1)
  }

  /** `std::string::rfind(char)`: the last index of `c`. */
  function FindLast(s: string, c: char): (r: Option<nat>)
    ensures r.Some? ==> r.value < |s| && s[r.value] == c && c !in s[r.value + 1..]
    ensures r.None? ==> c !in s
  {
    if s == "" then None
    else if s[|s| - 1] == c then Some(|s| - 1)
    else
      var r := FindLast(s[..|s| - 1], c);
      assert s == s[..|s| - 1] + [s[|s| - 1]];
      assert r.Some? ==> s[r.value + 1..] == s[..|s| - 1][r.value + 1..] + [s[|s| - 1]];
      r
  }

  lemma {:induction false} FindLastAt(a: string, c: char, b: string)
    requires c !in b
    ensures FindLast(a + [c] + b, c) == Some(|a|)
  {
    var s := a + [c] + b;
    if b != "" {
      assert s[..|s| - 1] == a + [c] + b[..|b| - 1];
      FindLastAt(a, c, b[..|b| - 1]);
    }
  }

  /** The pieces of `s` between occurrences of `sep`: what a loop over
      `find(sep, start)` and `substr` visits. */
  function Split(s: string, sep: char): (parts: seq<string>)
    ensures |parts| >= 1
    decreases |s|
  {
    match FindChar(s, sep)
    case None => [s]
    case Some(k) => [s[..k]] + Split(s[k + 1..], sep)
  }

  function Join(parts: seq<string>, sep: char): string
  {
    if parts == [] then ""
    else if |parts| == 1 then parts[0]
    else parts[0] + [sep] + Join(parts[1..], sep)
  }

  lemma {:induction false} JoinSnoc(parts: seq<string>, p: string, sep: char)
    ensures Join(parts + [p], sep) == if parts == [] then p else Join(parts, sep) + [sep] + p
  {
    if |parts| >= 1 {
      assert (parts + [p])[1..] == parts[1..] + [p];
      JoinSnoc(parts[1..], p, sep);
    }
  }

  /** Splitting undoes joining when no part holds the separator. */
  lemma {:induction false} SplitJoin(parts: seq<string>, sep: char)
    requires parts != []
    requires forall p :: p in parts ==> sep !in p
    ensures Split(Join(parts, sep), sep) == parts
  {
    var s := Join(parts, sep);
    if |parts| == 1 {
      assert parts[0] in parts;
      assert parts == [parts[0]];
    } else {
      assert parts[0] in parts;
      var rest := Join(parts[1..], sep);
      FindCharAt(parts[0], sep, rest);
      assert s[..|parts[0]|] == parts[0];
      assert s[|parts[0]| + 1..] == rest;
      SplitJoin(parts[1..], sep);
    }
  }

  /** The pieces hold no separator, and joined they are the text. */
  lemma {:induction false} JoinSplit(s: string, sep: char)
    ensures Join(Split(s, sep), sep) == s
    ensures forall p :: p in Split(s, sep) ==> sep !in p
    decreases |s|
  {
    hide FindChar;
    if FindChar(s, sep).Some? {
      var k := FindChar(s, sep).value;
      var more := Split(s[k + 1..], sep);
      JoinSplit(s[k + 1..], sep);
      assert Split(s, sep) == [s[..k]] + more && ([s[..k]] + more)[1..] == more;
      assert s == s[..k] + [sep] + s[k + 1..];
    }
  }

  // ---------------------------------------------------------------- numbers

  predicate IsDigit(c: char) {
    '0' <= c <= '9'
  }

  function DigitChar(d: nat): char
    requires d < 10
  {
    (d + 48) as char
  }

  /** `std::to_string` of a non-negative number. */
  function DecNat(n: nat): (s: string)
    ensures |s| >= 1 && forall i :: 0 <= i < |s| ==> IsDigit(s[i])
  {
    if n < 10 then [DigitChar(n)] else DecNat(n / 10) + [DigitChar(n % 10)]
  }

  /** `std::to_string`. */
  function Dec(n: int): (s: string)
    ensures |s| >= 1 && forall i :: 0 <= i < |s| ==> IsDigit(s[i]) || s[i] == '-'
  {
    if n < 0 then "-" + DecNat(-n) else DecNat(n)
  }

  /** The number that the leading digits of `s` denote, after `acc` in front. */
  function LeadingNat(s: string, acc: nat): nat
  {
    if s == "" || !IsDigit(s[0]) then acc
    else LeadingNat(s[1..], acc * 10 + (s[0] as int - 48))
  }

  function AfterWs(s: string): (r: string)
    ensures |r| <= |s|
  {
    if s != "" && IsSpace(s[0]) then AfterWs(s[1..]) else s
  }

  /** `strtoll` in base 10: leading white space, a sign, the longest run of
      digits; `None` when there is no digit. */
  function LeadingInt(s: string): Option<int>
  {
    var t := AfterWs(s);
    var u := if t != "" && (t[0] == '-' || t[0] == '+') then t[1..] else t;
    if u == "" || !IsDigit(u[0]) then None
    else
      var n: int := LeadingNat(u, 0);
      Some(if t[0] == '-' then -n else n)
  }

  const INT32_MAX := 0x7FFF_FFFF
  const INT64_MAX := 0x7FFF_FFFF_FFFF_FFFF

  predicate FitsInt64(n: int) {
    -INT64_MAX - 1 <= n <= INT64_MAX
  }

  /** `std::stoll`, with `None` for its two exceptions. */
  function Stoll(s: string): Option<int>
  {
    match LeadingInt(s)
    case None => None
    case Some(n) => if FitsInt64(n) then Some(n) else None
  }

  /** `std::stoi`, with `None` for its two exceptions. */
  function Stoi(s: string): Option<int>
  {
    match LeadingInt(s)
    case None => None
    case Some(n) => if -INT32_MAX - 1 <= n <= INT32_MAX then Some(n) else None
  }

  lemma {:induction false} LeadingNatDec(n: nat, w: string)
    ensures LeadingNat(DecNat(n) + w, 0) == LeadingNat(w, n)
  {
    if n < 10 {
      assert (DecNat(n) + w)[1..] == w;
    } else {
      var d := [DigitChar(n % 10)];
      assert DecNat(n) + w == DecNat(n / 10) + (d + w);
      LeadingNatDec(n / 10, d + w);
      assert (d + w)[1..] == w;
    }
  }

  /** Reading back a printed integer, whatever non-digit text follows it. */
  lemma LeadingIntDec(n: int, w: string)
    requires w == "" || !IsDigit(w[0])
    ensures LeadingInt(Dec(n) + w) == Some(n)
  {
    var m := if n < 0 then -n else n;
    var s, u := Dec(n) + w, DecNat(m) + w;
    assert IsDigit(u[0]) && LeadingNat(u, 0) == m by {
      assert u[0] == DecNat(m)[0];
      LeadingNatDec(m, w);
    }
    assert s == if n < 0 then "-" + u else u;
    assert s[0] == if n < 0 then '-' else u[0];
    assert n < 0 ==> s[1..] == u;
  }

  // ------------------------------------------------------------- white space

  lemma {:induction false} AfterWsSpaces(w: string, s: string)
    requires AllSpace(w)
    ensures AfterWs(w + s) == AfterWs(s)
  {
    if w == "" {
      assert w + s == s;
    } else {
      assert (w + s)[1..] == w[1..] + s;
      AfterWsSpaces(w[1..], s);
    }
  }

  lemma {:induction false} WsIdempotent(s: string)
    ensures AfterWs(AfterWs(s)) == AfterWs(s)
  {
    if s != "" && IsSpace(s[0]) {
      WsIdempotent(s[1..]);
    }
  }

  /** Skipping white space stops in front of the first other character. */
  lemma AfterWsAt(w: string, s: string)
    requires AllSpace(w) && (s == "" || !IsSpace(s[0]))
    ensures AfterWs(w + s) == s
  {
    AfterWsSpaces(w, s);
  }

  // ---------------------------------------------------------------- alphabets

  const UPPER := "ABCDEFGHIJKLM" + "NOPQRSTUVWXYZ"
  const LOWER := "abcdefghijklm" + "nopqrstuvwxyz"
  const DIGITS := "0123456789"

  /** The characters from `first` on, in order. */
  predicate Consecutive(s: string, first: char) {
    forall i :: 0 <= i < |s| ==> s[i] as int == first as int + i
  }

  lemma HalvesInOrder()
    ensures Consecutive("ABCDEFGHIJKLM", 'A') && Consecutive("NOPQRSTUVWXYZ", 'N')
    ensures Consecutive("abcdefghijklm", 'a') && Consecutive("nopqrstuvwxyz", 'n')
  {
  }

  lemma DigitsInOrder()
    ensures |DIGITS| == 10 && Consecutive(DIGITS, '0')
  {
  }

  lemma LettersInOrder()
    ensures |UPPER| == |LOWER| == 26 && Consecutive(UPPER, 'A') && Consecutive(LOWER, 'a')
  {
    HalvesInOrder();
    JoinedInOrder("ABCDEFGHIJKLM", "NOPQRSTUVWXYZ", 'A', 'N');
    JoinedInOrder("abcdefghijklm", "nopqrstuvwxyz", 'a', 'n');
  }

  lemma JoinedInOrder(a: string, b: string, first: char, next: char)
    requires Consecutive(a, first) && Consecutive(b, next) && next as int == first as int + |a|
    ensures Consecutive(a + b, first)
  {
  }

  lemma InConsecutive(s: string, first: char, c: char)
    requires Consecutive(s, first)
    ensures c in s <==> first as int <= c as int < first as int + |s|
  {
    if first as int <= c as int < first as int + |s| {
      assert s[c as int - first as int] == c;
    }
  }

  /** Which characters the alphabets hold. */
  lemma InAlphabets(c: char)
    ensures c in UPPER <==> 'A' <= c <= 'Z'
    ensures c in LOWER <==> 'a' <= c <= 'z'
    ensures c in DIGITS <==> '0' <= c <= '9'
  {
    LettersInOrder();
    DigitsInOrder();
    InConsecutive(UPPER, 'A', c);
    InConsecutive(LOWER, 'a', c);
    InConsecutive(DIGITS, '0', c);
  }

  /** White space is what `isspace` says in the C locale. */
  lemma SpacesAre(c: char)
    ensures IsSpace(c) <==> c in [' ', '\t', '\n', 11 as char, 12 as char, '\r']
  {
  }

  lemma DigitsAre(c: char)
    ensures IsDigit(c) <==> c in DIGITS
  {
    InAlphabets(c);
  }

  /** A printed number has no needless zero in front. */
  lemma {:induction false} DecNatShape(n: nat)
    ensures DecNat(n)[0] == '0' ==> DecNat(n) == "0" && n == 0
  {
    if n >= 10 {
      DecNatShape(n / 10);
    }
  }

  /** What the two parsers accept: white space, a sign, digits, and then anything else. */
  lemma LeadingIntForms(w: string, n: nat, rest: string)
    requires AllSpace(w) && (rest == "" || !IsDigit(rest[0]))
    ensures LeadingInt(w + (DecNat(n) + rest)) == Some(n)
    ensures LeadingInt(w + ("+" + (DecNat(n) + rest))) == Some(n)
    ensures LeadingInt(w + ("-" + (DecNat(n) + rest))) == Some(0 - n)
  {
    hide DecNat, LeadingNat, AfterWs;
    var u := DecNat(n) + rest;
    assert u[0] == DecNat(n)[0] && IsDigit(u[0]);
    LeadingNatDec(n, rest);
    assert LeadingNat(rest, n) == n by { NoDigitAhead(rest, n); }
    AfterWsAt(w, u);
    AfterWsAt(w, "+" + u);
    AfterWsAt(w, "-" + u);
    assert ("+" + u)[1..] == u && ("-" + u)[1..] == u;
  }

  lemma NoDigitAhead(rest: string, n: nat)
    requires rest == "" || !IsDigit(rest[0])
    ensures LeadingNat(rest, n) == n
  {
  }

  /** Without a digit behind the sign there is no number. */
  lemma NoLeadingInt(w: string, sign: string, rest: string)
    requires AllSpace(w) && sign in {"", "+", "-"} && (rest == "" || !IsDigit(rest[0]))
    requires sign == "" && rest != "" ==> !IsSpace(rest[0]) && rest[0] != '+' && rest[0] != '-'
    ensures LeadingInt(w + (sign + rest)) == None
  {
    hide AfterWs, LeadingNat;
    AfterWsAt(w, sign + rest);
    assert sign != "" ==> (sign + rest)[1..] == rest;
    assert sign == "" ==> sign + rest == rest;
  }

  /** `stoll` and `stoi` fail on numbers that do not fit 64 and 32 bits. */
  lemma FitsExactly(s: string, n: int)
    requires LeadingInt(s) == Some(n)
    ensures Stoll(s) == if -9223372036854775808 <= n <= 9223372036854775807 then Some(n) else None
    ensures Stoi(s) == if -2147483648 <= n <= 2147483647 then Some(n) else None
  {
  }
}
