/** Form bodies and query strings: the parser of `AuthHandler.h` against the builders of
    `oidc_utils.hpp` and `pkce_auth_strat.hpp`. */
module Forms {
  import opened Wrappers
  import opened Text
  import UrlEncode

  // ----------------------------------------------------------------- splitting

  /** `part.substr(0, part.find('='))`. */
  function KeyPart(part: string): string {
    match FindChar(part, '=')
    case None => part
    case Some(eq) => part[..eq]
  }

  /** `part.substr(eq + 1)`, or nothing. */
  function ValuePart(part: string): string {
    match FindChar(part, '=')
    case None => ""
    case Some(eq) => part[eq + 1..]
  }

  lemma PartsOf(key: string, value: string)
    requires '=' !in key
    ensures KeyPart(key + "=" + value) == key && ValuePart(key + "=" + value) == value
  {
    FindCharAt(key, '=', value);
    assert key + "=" + value == key + ['='] + value;
  }

  // ------------------------------------------------------------------- parsing

  function PlusToSpace(s: string): (r: string)
    ensures '+' !in s ==> r == s
  {
    if s == "" then "" else [if s[0] == '+' then ' ' else s[0]] + PlusToSpace(s[1..])
  }

  function DecodeComponent(s: string): string {
    UrlEncode.Decode(PlusToSpace(s))
  }

  method DecodeFormComponent(value: string) returns (r: string)
    ensures r == DecodeComponent(value)
  {
    hide UrlEncode.Decode, Rest;
    var normalized := "";
    RestStart(value);
    for i := 0 to |value|
      invariant normalized + PlusToSpace(Rest(value, i)) == PlusToSpace(value)
    {
      RestStep(value, i);
      ghost var c := [if value[i] == '+' then ' ' else value[i]];
      Regroup(normalized, c, PlusToSpace(Rest(value, i + 1)));
      normalized := normalized + [if value[i] == '+' then ' ' else value[i]];
    }
    assert normalized + "" == normalized;
    r := UrlEncode.UrlDecode(normalized);
  }

  /** The map with one more piece; an empty one is skipped. */
  function WithPart(params: map<string, string>, part: string): map<string, string> {
    if part == "" then params else params[DecodeComponent(KeyPart(part)) := DecodeComponent(ValuePart(part))]
  }

  /** Inserting the pieces in order, later keys winning. */
  function ParseParts(parts: seq<string>, params: map<string, string>): map<string, string> {
    if parts == [] then params else ParseParts(parts[1..], WithPart(params, parts[0]))
  }

  function ParseForm(raw: string): map<string, string> {
    ParseParts(Split(raw, '&'), map[])
  }

  lemma PartStep(s: string, params: map<string, string>)
    ensures ParseParts(Split(s, '&'), params)
         == match FindChar(s, '&')
            case None => WithPart(params, s)
            case Some(end) => ParseParts(Split(s[end + 1..], '&'), WithPart(params, s[..end]))
  {
  }

  method ParseFormEncoded(raw: string) returns (params: map<string, string>)
    ensures params == ParseForm(raw)
  {
    hide FindChar, DecodeComponent, Rest, Split, ParseParts;
    params := map[];
    var start := 0;
    RestStart(raw);
    while start <= |raw|
      invariant start <= |raw|
      invariant ParseParts(Split(Rest(raw, start), '&'), params) == ParseForm(raw)
      decreases |raw| - start
    {
      PartStep(Rest(raw, start), params);
      var end := FindChar(Rest(raw, start), '&');
      var part := if end.None? then Rest(raw, start) else Rest(raw, start)[..end.value];
      if part != "" {
        var eq := FindChar(part, '=');
        var key := DecodeFormComponent(if eq.None? then part else part[..eq.value]);
        var value := DecodeFormComponent(if eq.None? then "" else part[eq.value + 1..]);
        params := params[key := value];
      }
      if end.None? {
        break;
      }
      RestShift(raw, start, end.value + 1);
      start := start + end.value + 1;
    }
  }

  // ------------------------------------------------------------------ building

  type Field = (string, string)

  predicate FieldsOfBytes(fields: seq<Field>) {
    forall i :: 0 <= i < |fields| ==> IsBytes(fields[i].0) && IsBytes(fields[i].1)
  }

  function FieldText(f: Field): string
    requires IsBytes(f.0) && IsBytes(f.1)
  {
    UrlEncode.Encode(f.0) + "=" + UrlEncode.Encode(f.1)
  }

  function FieldTexts(fields: seq<Field>): (r: seq<string>)
    requires FieldsOfBytes(fields)
    ensures |r| == |fields| && forall i :: 0 <= i < |fields| ==> r[i] == FieldText(fields[i])
  {
    if fields == [] then [] else [FieldText(fields[0])] + FieldTexts(fields[1..])
  }

  function FormBody(fields: seq<Field>): string
    requires FieldsOfBytes(fields)
  {
    Join(FieldTexts(fields), '&')
  }

  lemma FieldAppended(before: string, f: Field)
    requires IsBytes(f.0) && IsBytes(f.1)
    ensures before + UrlEncode.Encode(f.0) + "=" + UrlEncode.Encode(f.1) == before + FieldText(f)
  {
  }

  /** One more field behind the first `i`. */
  lemma BodyStep(fields: seq<Field>, i: nat)
    requires FieldsOfBytes(fields) && i < |fields|
    ensures IsBytes(fields[i].0) && IsBytes(fields[i].1)
    ensures BodyPrefix(fields, i + 1)
         == if i == 0 then FieldText(fields[i]) else BodyPrefix(fields, i) + "&" + FieldText(fields[i])
  {
    hide Join, FieldText, IsBytes;
    PrefixStep(FieldTexts(fields), i);
    JoinSnoc(FieldTexts(fields)[..i], FieldText(fields[i]), '&');
  }

  function BodyPrefix(fields: seq<Field>, i: nat): string
    requires FieldsOfBytes(fields) && i <= |fields|
  {
    Join(FieldTexts(fields)[..i], '&')
  }

  lemma BodyEnds(fields: seq<Field>)
    requires FieldsOfBytes(fields)
    ensures BodyPrefix(fields, 0) == "" && BodyPrefix(fields, |fields|) == FormBody(fields)
  {
    assert FieldTexts(fields)[..|fields|] == FieldTexts(fields);
    assert FieldTexts(fields)[..0] == [];
  }

  /** `build_form_body`, and `build_query`, whose loop is the same. */
  method BuildFormBody(fields: seq<Field>) returns (body: string)
    requires FieldsOfBytes(fields)
    ensures body == FormBody(fields)
  {
    hide BodyPrefix, FieldText, FormBody, UrlEncode.Encode, IsBytes, FieldsOfBytes;
    BodyEnds(fields);
    body := "";
    var first := true;
    for i := 0 to |fields|
      invariant first == (i == 0) && body == BodyPrefix(fields, i)
    {
      var (key, value) := fields[i];
      BodyStep(fields, i);
      if !first {
        body := body + "&";
      }
      first := false;
      FieldAppended(body, fields[i]);
      StartsEmpty(FieldText(fields[i]));
      var encodedKey := UrlEncode.UrlEncode(key);
      var encodedValue := UrlEncode.UrlEncode(value);
      body := body + encodedKey;
      body := body + "=";
      body := body + encodedValue;
    }
  }

  lemma StartsEmpty(s: string)
    ensures "" + s == s
  {
  }

  /** The map that results from inserting the fields in order. */
  function InsertAll(fields: seq<Field>, params: map<string, string>): map<string, string> {
    if fields == [] then params else InsertAll(fields[1..], params[fields[0].0 := fields[0].1])
  }

  lemma FieldTextParts(f: Field)
    requires IsBytes(f.0) && IsBytes(f.1)
    ensures FieldText(f) != "" && '&' !in FieldText(f)
    ensures DecodeComponent(KeyPart(FieldText(f))) == f.0
    ensures DecodeComponent(ValuePart(FieldText(f))) == f.1
  {
    hide KeyPart, ValuePart, PlusToSpace;
    UrlEncode.EncodeSafe(f.0);
    UrlEncode.EncodeSafe(f.1);
    PartsOf(UrlEncode.Encode(f.0), UrlEncode.Encode(f.1));
    UrlEncode.RoundTrip(f.0);
    UrlEncode.RoundTrip(f.1);
  }

  lemma {:induction false} ParseFieldTexts(fields: seq<Field>, params: map<string, string>)
    requires FieldsOfBytes(fields)
    ensures ParseParts(FieldTexts(fields), params) == InsertAll(fields, params)
  {
    hide FieldText, DecodeComponent, KeyPart, ValuePart;
    if fields != [] {
      FieldTextParts(fields[0]);
      assert FieldTexts(fields)[1..] == FieldTexts(fields[1..]);
      ParseFieldTexts(fields[1..], params[fields[0].0 := fields[0].1]);
    }
  }

  /** Form round trip: parsing the built body gives the fields inserted in order, the
      last one of a key winning. */
  lemma FormRoundTrip(fields: seq<Field>)
    requires FieldsOfBytes(fields)
    ensures ParseForm(FormBody(fields)) == InsertAll(fields, map[])
  {
    hide FieldText, DecodeComponent, KeyPart, ValuePart;
    if fields == [] {
      assert Split("", '&') == [""];
    } else {
      forall p | p in FieldTexts(fields) ensures '&' !in p {
        var i :| 0 <= i < |fields| && p == FieldText(fields[i]);
        FieldTextParts(fields[i]);
      }
      SplitJoin(FieldTexts(fields), '&');
      ParseFieldTexts(fields, map[]);
    }
  }

  // -------------------------------------------------- what any sender may have written

  /** `text` spells the bytes in a form: a space may be a plus sign, any byte a percent sign and its hex
      digits, and the bytes that are not special stand for themselves. */
  predicate FormSpells(text: string, bytes: string)
    decreases |text|
  {
    if bytes == "" then text == ""
    else
      || (text != "" && text[0] == '+' && bytes[0] == ' ' && FormSpells(text[1..], bytes[1..]))
      || (text != "" && text[0] !in "%+&" && text[0] == bytes[0] && FormSpells(text[1..], bytes[1..]))
      || (&& |text| >= 3 && text[0] == '%' && bytes[0] as int < 256
          && UrlEncode.IsHex(text[1], bytes[0] as int / 16) && UrlEncode.IsHex(text[2], bytes[0] as int % 16)
          && FormSpells(text[3..], bytes[1..]))
  }

  lemma {:induction false} PlusSpelled(text: string, bytes: string)
    requires FormSpells(text, bytes)
    ensures UrlEncode.Spells(PlusToSpace(text), bytes) && '&' !in text
    decreases |text|
  {
    hide UrlEncode.IsHex, UrlEncode.HexValue;
    if bytes != "" {
      if text[0] == '%' {
        PlusSpelled(text[3..], bytes[1..]);
        PercentSpelled(text, bytes[0] as int / 16, bytes[0] as int % 16);
      } else {
        PlusSpelled(text[1..], bytes[1..]);
        assert PlusToSpace(text)[1..] == PlusToSpace(text[1..]);
        assert text == [text[0]] + text[1..];
      }
    }
  }

  lemma PercentSpelled(text: string, hi: nat, lo: nat)
    requires |text| >= 3 && text[0] == '%' && hi < 16 && lo < 16 && UrlEncode.IsHex(text[1], hi) && UrlEncode.IsHex(text[2], lo)
    ensures var plain := PlusToSpace(text);
      |plain| >= 3 && plain[..3] == text[..3] && plain[3..] == PlusToSpace(text[3..])
    ensures '&' !in text[3..] ==> '&' !in text
  {
    hide UrlEncode.IsHex, UrlEncode.HexValue, PlusToSpace;
    UrlEncode.HexRead(text[1], hi);
    UrlEncode.HexRead(text[2], lo);
    NoAmpersand(text[1], hi);
    NoAmpersand(text[2], lo);
    var front := text[..3];
    assert front == [text[0], text[1], text[2]] && '+' !in front;
    assert text == front + text[3..];
    PlusJoin(front, text[3..]);
  }

  lemma {:induction false} PlusJoin(a: string, b: string)
    ensures PlusToSpace(a + b) == PlusToSpace(a) + PlusToSpace(b)
  {
    if a == "" {
      assert a + b == b;
    } else {
      assert (a + b)[1..] == a[1..] + b;
      PlusJoin(a[1..], b);
    }
  }

  lemma NoAmpersand(c: char, d: nat)
    requires d < 16 && UrlEncode.IsHex(c, d)
    ensures c != '&'
  {
    UrlEncode.HexDigitsAre(d);
  }

  /** A component is decoded to what it spells. */
  lemma ComponentSpelled(text: string, bytes: string)
    requires FormSpells(text, bytes)
    ensures DecodeComponent(text) == bytes
  {
    PlusSpelled(text, bytes);
    UrlEncode.DecodeSpelled(PlusToSpace(text), bytes);
  }

  /** One field: key and value around the first equals sign, or a key alone with an empty value. */
  ghost predicate SpellsField(text: string, f: Field) {
    exists key: string, value: string ::
      '=' !in key && FormSpells(key, f.0) && FormSpells(value, f.1)
      && (text == key + "=" + value || (text == key && text != "" && value == ""))
  }

  lemma FieldSpelled(text: string, f: Field)
    requires SpellsField(text, f)
    ensures text != "" && '&' !in text
    ensures DecodeComponent(KeyPart(text)) == f.0 && DecodeComponent(ValuePart(text)) == f.1
  {
    hide DecodeComponent, FormSpells;
    var key: string, value: string :|
      '=' !in key && FormSpells(key, f.0) && FormSpells(value, f.1)
      && (text == key + "=" + value || (text == key && text != "" && value == ""));
    ComponentSpelled(key, f.0);
    ComponentSpelled(value, f.1);
    PlusSpelled(key, f.0);
    PlusSpelled(value, f.1);
    if text == key + "=" + value {
      PartsOf(key, value);
    }
  }

  /** The pieces between the ampersands spell the fields; empty pieces spell nothing. */
  ghost predicate SpellsForm(texts: seq<string>, fields: seq<Field>) {
    if texts == [] then fields == []
    else
      || (texts[0] == "" && SpellsForm(texts[1..], fields))
      || (fields != [] && SpellsField(texts[0], fields[0]) && SpellsForm(texts[1..], fields[1..]))
  }

  lemma {:induction false} FormPartsSpelled(texts: seq<string>, fields: seq<Field>, params: map<string, string>)
    requires SpellsForm(texts, fields)
    ensures ParseParts(texts, params) == InsertAll(fields, params)
    ensures forall t :: t in texts ==> '&' !in t
  {
    hide DecodeComponent, SpellsField, KeyPart, ValuePart;
    if texts != [] {
      if texts[0] == "" && SpellsForm(texts[1..], fields) {
        FormPartsSpelled(texts[1..], fields, params);
      } else {
        FieldSpelled(texts[0], fields[0]);
        FormPartsSpelled(texts[1..], fields[1..], params[fields[0].0 := fields[0].1]);
      }
    }
  }

  /** Whatever way a sender spells the fields of a form or query, parsing it inserts them in order. */
  lemma FormSpelled(texts: seq<string>, fields: seq<Field>)
    requires texts != [] && SpellsForm(texts, fields)
    ensures ParseForm(Join(texts, '&')) == InsertAll(fields, map[])
  {
    FormPartsSpelled(texts, fields, map[]);
    SplitJoin(texts, '&');
  }
}
