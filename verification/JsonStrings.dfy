/** What the characters between the quotes of a JSON string mean (section 7 of RFC 8259), and what the
    source's parser makes of them. */
module JsonStrings {
  import opened Wrappers
  import opened Text
  import opened JsonTree
  import opened JsonExtract
  import opened JsonEscape
  import opened JsonLookup
  import UrlEncode

  /** The letters of the short escapes, and the characters that they stand for. */
  const LETTERS := "\"\\/" + "bfnrt"
  const MEANT := "\"\\/" + [8 as char, 12 as char, '\n', '\r', '\t']

  /** Four hex digits. */
  predicate IsUnit(s: string, unit: nat) {
    |s| == 4 && unit < 0x1_0000
    && UrlEncode.IsHex(s[0], unit / 4096) && UrlEncode.IsHex(s[1], unit / 256 % 16)
    && UrlEncode.IsHex(s[2], unit / 16 % 16) && UrlEncode.IsHex(s[3], unit % 16)
  }

  /** The bytes of a code point (section 3 of RFC 3629). */
  function Utf8(code: nat): (r: string)
    requires code < 0x11_0000
    ensures 1 <= |r| <= 4 && (code < 0x1_0000 ==> |r| <= 3)
  {
    if code < 0x80 then [code as char]
    else if code < 0x800 then [(0xC0 + code / 64) as char, (0x80 + code % 64) as char]
    else if code < 0x1_0000 then [(0xE0 + code / 4096) as char, (0x80 + code / 64 % 64) as char, (0x80 + code % 64) as char]
    else [(0xF0 + code / 262144) as char, (0x80 + code / 4096 % 64) as char, (0x80 + code / 64 % 64) as char, (0x80 + code % 64) as char]
  }

  predicate IsSurrogate(unit: nat) {
    0xD800 <= unit < 0xE000
  }

  /** The body spells the text: characters stand for themselves, and escapes for what the section says. */
  ghost predicate Spells(body: string, text: string)
    decreases |body|, 1
  {
    if body == "" then text == ""
    else if body[0] != '\\' then body[0] != '"' && text != "" && text[0] == body[0] && Spells(body[1..], text[1..])
    else if |body| < 2 then false
    else if body[1] == 'u' then SpellsUnit(body, text) || SpellsPair(body, text)
    else exists i: nat :: i < |LETTERS| && LETTERS[i] == body[1] && text != "" && text[0] == MEANT[i] && Spells(body[2..], text[1..])
  }

  ghost predicate SpellsUnit(body: string, text: string)
    decreases |body|, 0
  {
    |body| >= 6 && exists unit: nat :: unit < 0x1_0000 && IsUnit(body[2..6], unit) && UnitThen(body[6..], unit, text)
  }

  /** The bytes of one unit, and then the rest. */
  ghost predicate UnitThen(rest: string, unit: nat, text: string)
    requires unit < 0x1_0000
    decreases |rest|, 2
  {
    !IsSurrogate(unit) && Utf8(unit) <= text && Spells(rest, text[|Utf8(unit)|..])
  }

  /** The code point of a surrogate pair. */
  function PairCode(high: nat, low: nat): (r: nat)
    requires 0xD800 <= high < 0xDC00 && 0xDC00 <= low < 0xE000
    ensures 0x1_0000 <= r < 0x11_0000
  {
    0x1_0000 + (high - 0xD800) * 0x400 + (low - 0xDC00)
  }

  ghost predicate SpellsPair(body: string, text: string)
    decreases |body|, 0
  {
    |body| >= 12 && body[6..8] == "\\u" && exists high: nat, low: nat ::
      0xD800 <= high < 0xDC00 && 0xDC00 <= low < 0xE000
      && IsUnit(body[2..6], high) && IsUnit(body[8..12], low) && PairThen(body[12..], PairCode(high, low), text)
  }

  ghost predicate PairThen(rest: string, code: nat, text: string)
    requires code < 0x11_0000
    decreases |rest|, 2
  {
    Utf8(code) <= text && Spells(rest, text[|Utf8(code)|..])
  }

  /** The body has a `\u` escape. */
  predicate HasUnicode(body: string)
    decreases |body|
  {
    if body == "" then false
    else if body[0] != '\\' then HasUnicode(body[1..])
    else if |body| < 2 then false
    else body[1] == 'u' || HasUnicode(body[2..])
  }

  lemma LetterMeant(i: nat)
    requires i < 8
    ensures |LETTERS| == |MEANT| == 8 && UnescapeChar(LETTERS[i]) == MEANT[i]
  {
  }

  lemma UnescapeStep(body: string)
    requires |body| >= 2 && body[0] == '\\'
    ensures Unescape(body, false) == [UnescapeChar(body[1])] + Unescape(body[2..], false)
  {
    assert body[1..][0] == body[1] && body[1..][1..] == body[2..];
  }

  /** Characters in front that are no backslashes stay. */
  lemma {:induction false} UnescapePlain(plain: string, body: string)
    requires '\\' !in plain
    ensures Unescape(plain + body, false) == plain + Unescape(body, false)
  {
    if plain == "" {
      assert plain + body == body;
    } else {
      assert (plain + body)[1..] == plain[1..] + body;
      UnescapePlain(plain[1..], body);
    }
  }

  lemma UnitPlain(s: string, unit: nat)
    requires IsUnit(s, unit)
    ensures '\\' !in s
  {
    UrlEncode.HexDigitsAre(unit / 4096);
    UrlEncode.HexDigitsAre(unit / 256 % 16);
    UrlEncode.HexDigitsAre(unit / 16 % 16);
    UrlEncode.HexDigitsAre(unit % 16);
  }

  /** An escape of four digits is left as five characters. */
  lemma UnitUnescaped(body: string, unit: nat)
    requires |body| >= 6 && body[0] == '\\' && body[1] == 'u' && IsUnit(body[2..6], unit)
    ensures |Unescape(body, false)| == 5 + |Unescape(body[6..], false)|
  {
    hide IsUnit, Unescape, UnescapeChar;
    UnescapeStep(body);
    UnitPlain(body[2..6], unit);
    assert body[2..] == body[2..6] + body[6..];
    UnescapePlain(body[2..6], body[6..]);
  }

  /** Without a `\u` the parser returns what is meant, and otherwise a longer text. */
  lemma {:induction false} UnescapeMeans(body: string, text: string)
    requires Spells(body, text)
    ensures |text| <= |Unescape(body, false)|
    ensures HasUnicode(body) ==> |text| < |Unescape(body, false)|
    ensures !HasUnicode(body) ==> Unescape(body, false) == text
    decreases |body|
  {
    hide IsUnit, UnescapeChar, Unescape, Utf8, PairCode;
    if body == "" {
      NothingMeant();
    } else if body[0] != '\\' {
      UnescapeMeans(body[1..], text[1..]);
      assert body == [body[0]] + body[1..];
      UnescapePlain([body[0]], body[1..]);
    } else if body[1] != 'u' {
      var i: nat :| i < |LETTERS| && LETTERS[i] == body[1] && text != "" && text[0] == MEANT[i] && Spells(body[2..], text[1..]);
      LetterMeant(i);
      UnescapeStep(body);
      UnescapeMeans(body[2..], text[1..]);
    } else if SpellsUnit(body, text) {
      var unit: nat :| unit < 0x1_0000 && IsUnit(body[2..6], unit) && UnitThen(body[6..], unit, text);
      UnescapeMeans(body[6..], text[|Utf8(unit)|..]);
      UnitUnescaped(body, unit);
    } else {
      PairMeans(body, text);
    }
  }

  lemma NothingMeant()
    ensures Unescape("", false) == ""
  {
  }

  lemma {:induction false} PairMeans(body: string, text: string)
    requires body != "" && body[0] == '\\' && SpellsPair(body, text)
    ensures |body| >= 2 && body[1] == 'u' ==> |text| < |Unescape(body, false)|
    decreases |body|, 0
  {
    hide IsUnit, UnescapeChar, Unescape, Utf8, PairCode;
    if body[1] == 'u' {
      var high: nat, low: nat :|
        0xD800 <= high < 0xDC00 && 0xDC00 <= low < 0xE000
        && IsUnit(body[2..6], high) && IsUnit(body[8..12], low) && PairThen(body[12..], PairCode(high, low), text);
      UnescapeMeans(body[12..], text[|Utf8(PairCode(high, low))|..]);
      PairUnescaped(body, high, low);
    }
  }

  lemma PairUnescaped(body: string, high: nat, low: nat)
    requires |body| >= 12 && body[0] == '\\' && body[1] == 'u' && body[6..8] == "\\u"
    requires IsUnit(body[2..6], high) && IsUnit(body[8..12], low)
    ensures |Unescape(body, false)| == 10 + |Unescape(body[12..], false)|
  {
    hide IsUnit, Unescape;
    UnitUnescaped(body, high);
    var more := body[6..];
    assert more[0] == body[6..8][0] && more[1] == body[6..8][1] && more[2..6] == body[8..12] && more[6..] == body[12..];
    UnitUnescaped(more, low);
  }

  /** The parser returns the text that the body means if and only if the body has no `\u` escape. */
  lemma UnescapeExactly(body: string, text: string)
    requires Spells(body, text)
    ensures Unescape(body, false) == text <==> !HasUnicode(body)
  {
    UnescapeMeans(body, text);
  }

  /** On the text of an object: a string member is read as it is meant if and only if it has no `\u` escape. */
  lemma MemberMeant(obj: Json, k: string, text: string)
    requires obj.Obj? && Lookup(obj.members, k).Some? && Lookup(obj.members, k).value.value.Str?
    requires Spells(Lookup(obj.members, k).value.value.body, text)
    ensures StringMember(obj, k) == Some(text) <==> !HasUnicode(Lookup(obj.members, k).value.value.body)
  {
    UnescapeExactly(Lookup(obj.members, k).value.value.body, text);
  }

  /** What the escaping writes for each character: the short escape of the seven it knows, and else the character. */
  lemma EscapedExactly(c: char)
    ensures EscapeChar(c)
         == if c in MEANT && c != '/' then "\\" + (if c == '"' then "\"" else if c == '\\' then "\\" else if c == 8 as char then "b"
                                                    else if c == 12 as char then "f" else if c == '\n' then "n"
                                                    else if c == '\r' then "r" else "t")
            else [c]
  {
    assert MEANT == ['"', '\\', '/', 8 as char, 12 as char, '\n', '\r', '\t'];
  }

  /** So the escape of a text spells it. */
  lemma {:induction false} EscapeSpells(text: string)
    ensures Spells(Escape(text), text)
  {
    if text != "" {
      EscapeSpells(text[1..]);
      var e := EscapeChar(text[0]);
      assert Escape(text)[|e|..] == Escape(text[1..]);
      if |e| == 2 {
        var i := LetterOf(text[0]);
        assert LETTERS[i] == Escape(text)[1] && MEANT[i] == text[0];
      }
    }
  }

  lemma LetterOf(c: char) returns (i: nat)
    requires |EscapeChar(c)| == 2
    ensures i < |LETTERS| && EscapeChar(c) == ['\\', LETTERS[i]] && MEANT[i] == c && LETTERS[i] != 'u'
  {
    i := if c == '"' then 0 else if c == '\\' then 1 else if c == 8 as char then 3 else if c == 12 as char then 4
         else if c == '\n' then 5 else if c == '\r' then 6 else 7;
  }

  /** The callback's error body is this JSON object. */
  lemma ErrorBodyIs(error: string)
    ensures ErrorBody(error) == Render(Obj("", [Member("", "ok", "", "", Lit("false"), ""), Member("", "error", "", "", Str(Escape(error)), "")]))
  {
    hide Escape;
    var ms := [Member("", "ok", "", "", Lit("false"), ""), Member("", "error", "", "", Str(Escape(error)), "")];
    assert ms[1..] == [ms[1]];
    assert RenderMembers([ms[1]]) == "" + KeyText([ms[1]]) && MembersTail([ms[1]]) == "}";
    assert KeyText([ms[1]]) == Quoted("error") + "" + ":" + "" + Quoted(Escape(error)) + "" + "}";
    assert KeyText(ms) == Quoted("ok") + "" + ":" + "" + "false" + "" + ("," + RenderMembers([ms[1]]));
    assert Quoted("ok") == "\"ok\"" && Quoted("error") == "\"error\"";
    RenderObject("", ms);
    BodyText(Escape(error));
  }

  lemma BodyText(e: string)
    ensures "{" + "" + ("" + ("\"ok\"" + "" + ":" + "" + "false" + "" + ("," + ("" + ("\"error\"" + "" + ":" + "" + ("\"" + e + "\"") + "" + "}")))))
         == "{\"ok\":false,\"error\":\"" + e + "\"}"
  {
  }
}
