/** Looking up members and splitting arrays by scanning (`json_utils.hpp`). */
module JsonExtract {
  import opened Wrappers
  import opened Text
  import opened JsonScan

  // ------------------------------------------------------------ specification

  /** The slice behind the first occurrence of the quoted key that a colon and a
      non-empty value follow; a search for text, at any depth. */
  function ExtractValue(json: string, key: string): Scan<Option<string>>
    decreases |json|
  {
    if json == "" then Done(None) else
    match FindText(json, Quoted(key))
    case None => Done(None)
    case Some(k) =>
      var tail := json[k + |Quoted(key)|..];
      match FindChar(tail, ':')
      case None => Done(None)
      case Some(colon) =>
        var v := AfterWs(tail[colon + 1..]);
        var rest :- AfterValue(v);
        if |rest| < |v| then Done(Some(v[..|v| - |rest|]))
        else ExtractValue(tail, key)
  }

  predicate ValueAhead(s: string) {
    AfterWs(s) != "" && !IsDelimiter(AfterWs(s)[0])
  }

  /** The colon from which the search reads: the first behind a mention of the quoted key that a
      value follows. Nothing is scanned to find it. */
  function ReadAt(text: string, key: string): (r: Option<nat>)
    ensures r.Some? ==> r.value < |text|
    decreases |text|
  {
    match FindText(text, Quoted(key))
    case None => None
    case Some(p) =>
      var tail := text[p + |Quoted(key)|..];
      match FindChar(tail, ':')
      case None => None
      case Some(colon) =>
        if ValueAhead(tail[colon + 1..]) then Some(p + |Quoted(key)| + colon) else Shifted(ReadAt(tail, key), p + |Quoted(key)|)
  }

  /** A place in a rest as a place in the whole text. */
  function Shifted(place: Option<nat>, n: nat): Option<nat> {
    match place
    case None => None
    case Some(c) => Some(n + c)
  }

  /** The slice of the value that comes next. */
  function ReadValue(s: string): Scan<Option<string>> {
    var v := AfterWs(s);
    var rest :- AfterValue(v);
    Done(Some(v[..|v| - |rest|]))
  }

  const BACKSPACE: char := 8 as char
  const FORM_FEED: char := 12 as char

  function UnescapeChar(ch: char): char {
    match ch
    case 'b' => BACKSPACE
    case 'f' => FORM_FEED
    case 'n' => '\n'
    case 'r' => '\r'
    case 't' => '\t'
    case _ => ch
  }

  function Unescape(s: string, escaped: bool): string {
    if s == "" then ""
    else if escaped then [UnescapeChar(s[0])] + Unescape(s[1..], false)
    else if s[0] == '\\' then Unescape(s[1..], true)
    else [s[0]] + Unescape(s[1..], false)
  }

  function ParseString(raw: string): Option<string> {
    if |raw| < 2 || raw[0] != '"' || raw[|raw| - 1] != '"' then None
    else Some(Unescape(raw[1..|raw| - 1], false))
  }

  function ExtractString(json: string, key: string): Scan<Option<string>> {
    var raw :- ExtractValue(json, key);
    Done(if raw.None? then None else ParseString(raw.value))
  }

  function ExtractInt64(json: string, key: string): Scan<Option<int>> {
    var raw :- ExtractValue(json, key);
    Done(if raw.None? then None else Stoll(raw.value))
  }

  /** `extract_json_object` and `extract_json_array`: the slice, if it opens with `open`. */
  function ExtractOpening(json: string, key: string, open: char): Scan<Option<string>> {
    var raw :- ExtractValue(json, key);
    Done(if raw.None? || raw.value == "" || raw.value[0] != open then None else raw)
  }

  /** The slices of the elements from here to the closing bracket, which is the
      last character of `s`. */
  function SplitFrom(s: string): Scan<seq<string>>
    decreases |s|
  {
    if |s| <= 1 then Done([]) else
    var t := AfterWs(s);
    if |t| <= 1 || t[0] == ']' then Done([]) else
    var rest :- AfterValue(t);
    if |rest| >= |t| then Done([]) else
    var w := AfterWs(rest);
    var more :- SplitFrom(if w != "" && w[0] == ',' then w[1..] else w);
    Done([t[..|t| - |rest|]] + more)
  }

  function SplitElements(arr: string): Scan<seq<string>> {
    if |arr| < 2 || arr[0] != '[' || arr[|arr| - 1] != ']' then Done([])
    else SplitFrom(arr[1..])
  }

  function ParsedStrings(slices: seq<string>): seq<string> {
    if slices == [] then []
    else
      var first := ParseString(slices[0]);
      (if first.Some? then [first.value] else []) + ParsedStrings(slices[1..])
  }

  function ExtractStringArray(json: string, key: string): Scan<seq<string>> {
    var raw :- ExtractOpening(json, key, '[');
    if raw.None? then Done([]) else
    var slices :- SplitElements(raw.value);
    Done(ParsedStrings(slices))
  }

  /** `append_unique`. */
  function AppendUnique(target: seq<string>, source: seq<string>): seq<string>
    decreases source
  {
    if source == [] then target
    else AppendUnique(if source[0] in target then target else target + [source[0]], source[1..])
  }

  // ------------------------------------------------------------------ methods

  lemma ExtractNothing(s: string, key: string)
    requires s == "" || FindText(s, Quoted(key)).None?
          || FindChar(s[FindText(s, Quoted(key)).value + |Quoted(key)|..], ':').None?
    ensures ExtractValue(s, key) == Done(None)
  {
    hide AfterValue, AfterWs, FindChar, FindText;
  }

  /** One round of the search, from a key at `k` and a colon behind it. */
  lemma ExtractRound(s: string, key: string, k: nat, tail: string, colon: nat)
    requires s != "" && FindText(s, Quoted(key)) == Some(k)
    requires tail == s[k + |Quoted(key)|..] && FindChar(tail, ':') == Some(colon)
    requires ExtractValue(s, key).Done?
    ensures var v := AfterWs(tail[colon + 1..]);
      && AfterValue(v).Done?
      && (|AfterValue(v).value| < |v| ==> ExtractValue(s, key) == Done(Some(v[..|v| - |AfterValue(v).value|])))
      && (|AfterValue(v).value| >= |v| ==> ExtractValue(s, key) == ExtractValue(tail, key))
  {
    hide AfterValue, AfterWs, FindChar, FindText;
  }

  /** A value is what the scanner moves over. */
  lemma ValueProgress(s: string)
    ensures ValueAhead(s) && AfterValue(AfterWs(s)).Done? ==> |AfterValue(AfterWs(s)).value| < |AfterWs(s)|
    ensures !ValueAhead(s) ==> AfterValue(AfterWs(s)) == Done(AfterWs(s))
  {
    hide AfterElements, AfterMembers, AfterStringBody;
    WsIdempotent(s);
  }

  /** The lookup reads the value behind that colon, or nothing when there is no such colon. */
  predicate ReadsThere(text: string, key: string) {
    ExtractValue(text, key) == match ReadAt(text, key) case None => Done(None) case Some(c) => ReadValue(text[c + 1..])
  }

  lemma LookupReads(text: string, key: string)
    ensures ExtractValue(text, key)
         == match ReadAt(text, key) case None => Done(None) case Some(c) => ReadValue(text[c + 1..])
  {
    hide ExtractValue, ReadAt, ReadValue;
    AllRounds(text, key);
  }

  lemma {:induction false} AllRounds(text: string, key: string)
    ensures ReadsThere(text, key)
    decreases |text|
  {
    hide *;
    FoundInside(text, Quoted(key));
    var at := FindText(text, Quoted(key));
    if at.None? || FindChar(text[at.value + |Quoted(key)|..], ':').None? {
      NothingRead(text, key);
    } else {
      var n := at.value + |Quoted(key)|;
      var colon := FindChar(text[n..], ':').value;
      QuotedLength(key);
      if ValueAhead(text[n..][colon + 1..]) {
        ReadHere(text, key, at.value, colon);
      } else {
        AllRounds(text[n..], key);
        ReadOn(text, key, at.value, colon);
      }
    }
  }

  lemma NothingRead(text: string, key: string)
    requires FindText(text, Quoted(key)).None? || FindChar(text[FindText(text, Quoted(key)).value + |Quoted(key)|..], ':').None?
    ensures ReadsThere(text, key)
  {
    hide ExtractValue, ReadAt, ReadValue, FindText, FindChar, Quoted;
    ExtractNothing(text, key);
    ReadNothing(text, key);
  }

  /** A round that finds a value. */
  lemma ReadHere(text: string, key: string, k: nat, colon: nat)
    requires FindText(text, Quoted(key)) == Some(k) && k + |Quoted(key)| <= |text|
    requires FindChar(text[k + |Quoted(key)|..], ':') == Some(colon) && ValueAhead(text[k + |Quoted(key)|..][colon + 1..])
    ensures ReadsThere(text, key)
  {
    hide ExtractValue, ReadAt, ReadValue, FindText, FindChar, Quoted, ValueAhead;
    LookupRound(text, key, k, text[k + |Quoted(key)|..], colon);
    ReadRound(text, key, k, text[k + |Quoted(key)|..], colon);
    SameBehind(text, k + |Quoted(key)|, colon);
  }

  /** A round that goes on behind the mention. */
  lemma ReadOn(text: string, key: string, k: nat, colon: nat)
    requires FindText(text, Quoted(key)) == Some(k) && k + |Quoted(key)| <= |text| && ReadsThere(text[k + |Quoted(key)|..], key)
    requires FindChar(text[k + |Quoted(key)|..], ':') == Some(colon) && !ValueAhead(text[k + |Quoted(key)|..][colon + 1..])
    ensures ReadsThere(text, key)
  {
    hide *;
    var n := k + |Quoted(key)|;
    LookupRound(text, key, k, text[n..], colon);
    ReadRound(text, key, k, text[n..], colon);
    SameRead(text, key, n);
  }

  lemma SameRead(text: string, key: string, n: nat)
    requires n <= |text| && ReadsThere(text[n..], key)
    requires ExtractValue(text, key) == ExtractValue(text[n..], key) && ReadAt(text, key) == Shifted(ReadAt(text[n..], key), n)
    ensures ReadsThere(text, key)
  {
    hide ExtractValue, ReadAt, ReadValue;
    if ReadAt(text[n..], key).Some? {
      SameBehind(text, n, ReadAt(text[n..], key).value);
    }
  }

  lemma ReadNothing(text: string, key: string)
    requires FindText(text, Quoted(key)).None? || FindChar(text[FindText(text, Quoted(key)).value + |Quoted(key)|..], ':').None?
    ensures ReadAt(text, key) == None
  {
    hide FindText, FindChar, Quoted, ValueAhead;
  }

  lemma ReadRound(text: string, key: string, k: nat, tail: string, colon: nat)
    requires FindText(text, Quoted(key)) == Some(k) && tail == text[k + |Quoted(key)|..] && FindChar(tail, ':') == Some(colon)
    ensures ValueAhead(tail[colon + 1..]) ==> ReadAt(text, key) == Some(k + |Quoted(key)| + colon)
    ensures !ValueAhead(tail[colon + 1..]) ==> ReadAt(text, key) == Shifted(ReadAt(tail, key), k + |Quoted(key)|)
  {
    hide FindText, FindChar, Quoted, ValueAhead, OccursAt, Shifted;
    FoundInside(text, Quoted(key));
  }

  lemma SameBehind(text: string, n: nat, c: nat)
    requires n + c < |text|
    ensures text[n..][c + 1..] == text[n + c + 1..]
  {
  }

  /** One round of the lookup reads the value or goes on behind the mention. */
  lemma LookupRound(text: string, key: string, k: nat, tail: string, colon: nat)
    requires FindText(text, Quoted(key)) == Some(k) && tail == text[k + |Quoted(key)|..] && FindChar(tail, ':') == Some(colon)
    ensures ExtractValue(text, key)
         == if ValueAhead(tail[colon + 1..]) then ReadValue(tail[colon + 1..]) else ExtractValue(tail, key)
  {
    hide AfterValue, AfterWs, ValueAhead, FindText, FindChar, OccursAt, Quoted;
    QuotedLength(key);
    FoundInside(text, Quoted(key));
    ValueProgress(tail[colon + 1..]);
  }

  lemma FoundInside(s: string, pat: string)
    ensures FindText(s, pat).Some? ==> FindText(s, pat).value + |pat| <= |s|
  {
  }

  method ExtractJsonValue(json: string, key: string) returns (r: Option<string>)
    requires ExtractValue(json, key).Done?
    ensures r == ExtractValue(json, key).value
  {
    hide AfterValue, AfterWs, FindChar, FindText, ExtractValue, OccursAt, Quoted, Rest;
    var quotedKey := Quoted(key);
    var searchFrom := 0;
    RestStart(json);
    while searchFrom < |json|
      invariant searchFrom <= |json|
      invariant ExtractValue(Rest(json, searchFrom), key) == ExtractValue(json, key)
    {
      ghost var s := Rest(json, searchFrom);
      var keyPos := FindText(Rest(json, searchFrom), quotedKey);
      if keyPos.None? {
        ExtractNothing(s, key);
        return None;
      }
      FoundInside(s, quotedKey);
      var keyEnd := searchFrom + keyPos.value + |quotedKey|;
      RestShift(json, searchFrom, keyPos.value + |quotedKey|);
      var colonPos := FindChar(Rest(json, keyEnd), ':');
      if colonPos.None? {
        ExtractNothing(s, key);
        return None;
      }
      RestShift(json, keyEnd, colonPos.value + 1);
      ExtractRound(s, key, keyPos.value, Rest(json, keyEnd), colonPos.value);
      var valueBegin := SkipWs(json, keyEnd + colonPos.value + 1);
      var valueEnd := SkipJsonValue(json, valueBegin);
      if valueBegin < valueEnd {
        RestShift(json, valueBegin, valueEnd - valueBegin);
        return Some(json[valueBegin..valueEnd]);
      }
      QuotedLength(key);
      searchFrom := keyEnd;
    }
    ExtractNothing(Rest(json, searchFrom), key);
    return None;
  }

  lemma QuotedLength(k: string)
    ensures |Quoted(k)| == |k| + 2
  {
  }

  method ParseJsonString(raw: string) returns (r: Option<string>)
    ensures r == ParseString(raw)
  {
    if |raw| < 2 || raw[0] != '"' || raw[|raw| - 1] != '"' {
      return None;
    }
    hide Unescape, UnescapeChar;
    var inner := raw[1..|raw| - 1];
    var result := "";
    var escaped := false;
    for i := 1 to |raw| - 1
      invariant result + Unescape(inner[i - 1..], escaped) == Unescape(inner, false)
    {
      var ch := raw[i];
      assert ch == inner[i - 1..][0] && inner[i - 1..][1..] == inner[i..];
      UnescapeStep(inner[i - 1..], escaped);
      Regroup(result, [if escaped then UnescapeChar(ch) else ch], Unescape(inner[i..], false));
      if escaped {
        result := result + [UnescapeChar(ch)];
        escaped := false;
      } else if ch == '\\' {
        escaped := true;
      } else {
        result := result + [ch];
      }
    }
    assert inner[|raw| - 2..] == "";
    UnescapeNothing(escaped);
    assert result + "" == result;
    return Some(result);
  }

  lemma UnescapeStep(s: string, escaped: bool)
    requires s != ""
    ensures Unescape(s, escaped)
         == if escaped then [UnescapeChar(s[0])] + Unescape(s[1..], false)
            else if s[0] == '\\' then Unescape(s[1..], true)
            else [s[0]] + Unescape(s[1..], false)
  {
  }

  lemma UnescapeNothing(escaped: bool)
    ensures Unescape("", escaped) == ""
  {
  }

  /** Only quoted text is a string, whatever is between the quotes. */
  lemma ParseStringExactly(raw: string)
    ensures ParseString(raw).Some? <==> exists body: string :: raw == Quoted(body)
    ensures forall body: string :: raw == Quoted(body) ==> ParseString(raw) == Some(Unescape(body, false))
  {
    hide Unescape;
    if ParseString(raw).Some? {
      var body := raw[1..|raw| - 1];
      assert raw == Quoted(body);
    }
    forall body: string | raw == Quoted(body) ensures ParseString(raw) == Some(Unescape(body, false)) {
      assert raw[1..|raw| - 1] == body;
    }
  }

  method ExtractJsonString(json: string, key: string) returns (r: Option<string>)
    requires ExtractString(json, key).Done?
    ensures r == ExtractString(json, key).value
  {
    hide ExtractValue, ParseString;
    var raw := ExtractJsonValue(json, key);
    if raw.None? {
      return None;
    }
    r := ParseJsonString(raw.value);
  }

  method ExtractJsonInt64(json: string, key: string) returns (r: Option<int>)
    requires ExtractInt64(json, key).Done?
    ensures r == ExtractInt64(json, key).value
  {
    hide ExtractValue;
    var raw := ExtractJsonValue(json, key);
    if raw.None? {
      return None;
    }
    r := Stoll(raw.value);
  }

  lemma SplitEnd(s: string)
    ensures |s| <= 1 || |AfterWs(s)| <= 1 || AfterWs(s)[0] == ']' ==> SplitFrom(s) == Done([])
  {
  }

  /** The text behind an element and its comma. */
  function BehindComma(rest: string): string {
    var w := AfterWs(rest);
    if w != "" && w[0] == ',' then w[1..] else w
  }

  /** One round of the splitter, on the element at `t`. */
  lemma SplitRound(s: string, t: string)
    requires |s| > 1 && t == AfterWs(s) && |t| > 1 && t[0] != ']'
    requires SplitFrom(s).Done?
    ensures AfterValue(t).Done?
    ensures var rest := AfterValue(t).value;
      if |rest| >= |t| then SplitFrom(s) == Done([])
      else SplitFrom(BehindComma(rest)).Done?
           && SplitFrom(s) == Done([t[..|t| - |rest|]] + SplitFrom(BehindComma(rest)).value)
  {
  }

  method SplitJsonArrayElements(arr: string) returns (out: seq<string>)
    requires SplitElements(arr).Done?
    ensures out == SplitElements(arr).value
  {
    hide AfterValue, AfterWs, SplitFrom, Rest;
    out := [];
    if |arr| < 2 || arr[0] != '[' || arr[|arr| - 1] != ']' {
      return;
    }
    var pos := 1;
    RestStart(arr);
    RestStep(arr, 0);
    while pos + 1 < |arr|
      invariant pos <= |arr|
      invariant SplitFrom(Rest(arr, pos)).Done?
      invariant out + SplitFrom(Rest(arr, pos)).value == SplitElements(arr).value
    {
      ghost var s := Rest(arr, pos);
      pos := SkipWs(arr, pos);
      RestStep(arr, pos);
      if pos >= |arr| - 1 || arr[pos] == ']' {
        SplitEnd(s);
        return;
      }
      ghost var t := Rest(arr, pos);
      SplitRound(s, t);
      var end := SkipJsonValue(arr, pos);
      if end <= pos {
        return;
      }
      RestShift(arr, pos, end - pos);
      out := out + [arr[pos..end]];
      pos := SkipWs(arr, end);
      RestStep(arr, pos);
      if pos < |arr| && arr[pos] == ',' {
        pos := pos + 1;
      }
    }
    SplitEnd(Rest(arr, pos));
  }

  method ExtractJsonStringArray(json: string, key: string) returns (values: seq<string>)
    requires ExtractStringArray(json, key).Done?
    ensures values == ExtractStringArray(json, key).value
  {
    hide ExtractValue, ParseString, SplitElements;
    values := [];
    var raw := ExtractJsonValue(json, key);
    if raw.None? || raw.value == "" || raw.value[0] != '[' {
      return;
    }
    var elements := SplitJsonArrayElements(raw.value);
    for i := 0 to |elements|
      invariant values + ParsedStrings(elements[i..]) == ParsedStrings(elements)
    {
      var parsed := ParseJsonString(elements[i]);
      if parsed.Some? {
        values := values + [parsed.value];
      }
    }
  }

  method AppendUniqueInto(target: seq<string>, source: seq<string>) returns (result: seq<string>)
    ensures result == AppendUnique(target, source)
  {
    result := target;
    for i := 0 to |source|
      invariant AppendUnique(result, source[i..]) == AppendUnique(target, source)
    {
      if source[i] !in result {
        result := result + [source[i]];
      }
    }
  }
}
