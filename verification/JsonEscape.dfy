/** `json_escape` of `AuthHandler.h`, undone by `parse_json_string`. */
module JsonEscape {
  import opened Wrappers
  import opened Text
  import opened JsonScan
  import opened JsonTree
  import opened JsonScanProofs
  import opened JsonExtract

  function EscapeChar(ch: char): string {
    if ch == '\\' then "\\\\"
    else if ch == '"' then "\\\""
    else if ch == BACKSPACE then "\\b"
    else if ch == FORM_FEED then "\\f"
    else if ch == '\n' then "\\n"
    else if ch == '\r' then "\\r"
    else if ch == '\t' then "\\t"
    else [ch]
  }

  function Escape(value: string): string {
    if value == "" then "" else EscapeChar(value[0]) + Escape(value[1..])
  }

  method JsonEscape(value: string) returns (escaped: string)
    ensures escaped == Escape(value)
  {
    escaped := "";
    for i := 0 to |value|
      invariant escaped + Escape(value[i..]) == Escape(value)
    {
      var ch := value[i];
      ghost var more := Escape(value[i..][1..]);
      assert escaped + (EscapeChar(ch) + more) == (escaped + EscapeChar(ch)) + more;
      if ch == '\\' {
        escaped := escaped + "\\\\";
      } else if ch == '"' {
        escaped := escaped + "\\\"";
      } else if ch == BACKSPACE {
        escaped := escaped + "\\b";
      } else if ch == FORM_FEED {
        escaped := escaped + "\\f";
      } else if ch == '\n' {
        escaped := escaped + "\\n";
      } else if ch == '\r' {
        escaped := escaped + "\\r";
      } else if ch == '\t' {
        escaped := escaped + "\\t";
      } else {
        escaped := escaped + [ch];
      }
    }
    assert escaped + "" == escaped;
  }

  /** One escaped character in front of a body. */
  lemma EscapeStep(ch: char, more: string)
    ensures ValidBody(more) ==> ValidBody(EscapeChar(ch) + more)
    ensures Unescape(EscapeChar(ch) + more, false) == [ch] + Unescape(more, false)
  {
  }

  /** An escaped string is a valid body, and unescaping gives the string back. */
  lemma {:induction false} EscapeRoundTrip(value: string)
    ensures ValidBody(Escape(value))
    ensures Unescape(Escape(value), false) == value
  {
    if value != "" {
      EscapeRoundTrip(value[1..]);
      EscapeStep(value[0], Escape(value[1..]));
    }
  }

  /** JSON string round trip: with any text behind it, scanning the quoted escape of
      `value` stops right after the closing quote, and parsing the slice gives `value`. */
  lemma StringRoundTrip(value: string, rest: string)
    ensures AfterString(Quoted(Escape(value)) + rest) == rest
    ensures ParseString(Quoted(Escape(value))) == Some(value)
  {
    EscapeRoundTrip(value);
    StringScan(Escape(value), rest);
    assert Quoted(Escape(value))[1..|Quoted(Escape(value))| - 1] == Escape(value);
  }

  /** The body that the callback handler sends on failure. */
  function ErrorBody(error: string): string {
    "{\"ok\":false,\"error\":\"" + Escape(error) + "\"}"
  }

  /** A client that reads the error back with `extract_json_string` gets the original. */
  lemma {:induction false} ErrorBodyReadBack(error: string)
    ensures ExtractString(ErrorBody(error), "error") == Done(Some(error))
  {
    hide AfterElements, AfterMembers, AfterString, ParseString, FindText, FindChar, Escape;
    var s := ErrorBody(error);
    var q := Quoted("error");
    var v := Quoted(Escape(error)) + "}";
    var head := "{\"ok\":false,";
    assert s == head + (q + (":" + v));
    assert |head| == 12 && |q| == 7;
    assert s[12..19] == q && OccursAt(s, q, 12);
    FirstQuotedError(s, head);
    assert FindText(s, q) == Some(12);
    var tail := s[19..];
    assert tail == ":" + v && tail == "" + [':'] + v;
    FindCharAt("", ':', v);
    assert tail[1..] == v;
    assert AfterWs(v) == v;
    StringRoundTrip(error, "}");
    assert v[..|v| - 1] == Quoted(Escape(error));
  }

  lemma OccursStarts(s: string, pat: string)
    requires |pat| >= 2
    ensures forall k :: OccursAt(s, pat, k) ==> s[k] == pat[0] && s[k + 1] == pat[1]
  {
  }

  /** The quoted key does not occur earlier. */
  lemma FirstQuotedError(s: string, head: string)
    requires head == "{\"ok\":false," && |s| >= 19 && s[..12] == head
    ensures forall k :: 0 <= k < 12 ==> !OccursAt(s, Quoted("error"), k)
  {
    var q := Quoted("error");
    assert q[0] == '"' && q[1] == 'e';
    OccursStarts(s, q);
    assert forall k :: 0 <= k < 12 ==> s[k] == head[k];
  }
}
