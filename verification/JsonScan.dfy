/** The JSON scanner (`json_utils.hpp`): the methods move a position through the
    text as the source does; the functions they are proved against map the text
    that is left before a step to the text that is left after it. */
module JsonScan {
  import opened Wrappers
  import opened Text

  /** A scan from `pos` ends at `end` with `rest` ahead of it, and a position past
      the end stays where it is. */
  predicate Lands(text: string, pos: nat, end: nat, rest: string) {
    pos <= end && (end <= |text| || end == pos) && Rest(text, end) == rest
  }

  // ------------------------------------------------------------ specification

  /** What follows the closing quote; `escaped` says a backslash came just before. */
  function AfterStringBody(s: string, escaped: bool): (r: string)
    ensures |r| <= |s|
  {
    if s == "" then ""
    else if escaped then AfterStringBody(s[1..], false)
    else if s[0] == '\\' then AfterStringBody(s[1..], true)
    else if s[0] == '"' then s[1..]
    else AfterStringBody(s[1..], false)
  }

  function AfterString(s: string): (r: string)
    ensures |r| <= |s|
  {
    if s == "" || s[0] != '"' then s else AfterStringBody(s[1..], false)
  }

  predicate IsDelimiter(c: char) {
    c == ',' || c == '}' || c == ']'
  }

  /** A scalar runs up to the next delimiter, or to the end. */
  function AfterScalar(s: string): (r: string)
    ensures |r| <= |s|
    ensures r == "" || IsDelimiter(r[0])
  {
    if s == "" || IsDelimiter(s[0]) then s else AfterScalar(s[1..])
  }

  function AfterValue(s: string): (r: Scan<string>)
    ensures r.Done? ==> |r.value| <= |s|
    decreases |s|, 0
  {
    var t := AfterWs(s);
    if t == "" then Done("")
    else if t[0] == '"' then Done(AfterString(t))
    else if t[0] == '{' then AfterMembers(t[1..])
    else if t[0] == '[' then AfterElements(t[1..])
    else Done(AfterScalar(t))
  }

  /** What follows the array whose elements, or closing bracket, come next. An
      iteration that ends where it began would be repeated for ever: `Stall`. */
  function AfterElements(s: string): (r: Scan<string>)
    ensures r.Done? ==> |r.value| <= |s|
    decreases |s|, 1
  {
    if s == "" then Done("") else
    var t := AfterWs(s);
    if t != "" && t[0] == ']' then Done(t[1..]) else
    var u :- AfterValue(t);
    var w := AfterWs(u);
    if w != "" && w[0] == ',' then AfterElements(w[1..])
    else if w != "" && w[0] == ']' then Done(w[1..])
    else if |w| == |s| then Stall
    else AfterElements(w)
  }

  /** An optional key and an optional colon. */
  function AfterKey(t: string): (r: string)
    ensures |r| <= |t|
  {
    var k := AfterWs(AfterString(t));
    if k != "" && k[0] == ':' then k[1..] else k
  }

  /** What follows the object whose members, or closing brace, come next. */
  function AfterMembers(s: string): (r: Scan<string>)
    ensures r.Done? ==> |r.value| <= |s|
    decreases |s|, 1
  {
    if s == "" then Done("") else
    var t := AfterWs(s);
    if t != "" && t[0] == '}' then Done(t[1..]) else
    var u :- AfterValue(AfterKey(t));
    var w := AfterWs(u);
    if w != "" && w[0] == ',' then AfterMembers(w[1..])
    else if w != "" && w[0] == '}' then Done(w[1..])
    else if |w| == |s| then Stall
    else AfterMembers(w)
  }

  // ------------------------------------------------------------------ methods

  method SkipWs(text: string, pos: nat) returns (end: nat)
    ensures Lands(text, pos, end, AfterWs(Rest(text, pos)))
  {
    hide Rest;
    end := pos;
    while end < |text| && IsSpace(text[end])
      invariant pos <= end && (end <= |text| || end == pos)
      invariant AfterWs(Rest(text, end)) == AfterWs(Rest(text, pos))
    {
      RestStep(text, end);
      end := end + 1;
    }
    RestStep(text, end);
  }

  method SkipJsonString(text: string, pos: nat) returns (end: nat)
    ensures Lands(text, pos, end, AfterString(Rest(text, pos)))
  {
    hide Rest;
    RestStep(text, pos);
    if pos >= |text| || text[pos] != '"' {
      return pos;
    }
    end := pos + 1;
    var escaped := false;
    while end < |text|
      invariant pos <= end <= |text|
      invariant AfterStringBody(Rest(text, end), escaped) == AfterString(Rest(text, pos))
    {
      RestStep(text, end);
      var ch := text[end];
      end := end + 1;
      if escaped {
        escaped := false;
        continue;
      }
      if ch == '\\' {
        escaped := true;
        continue;
      }
      if ch == '"' {
        return end;
      }
    }
    return |text|;
  }

  /** The value dispatch; the three loops are the methods below. On every text on
      which the source's loops end, the method ends too, in the same place. */
  method SkipJsonValue(text: string, pos: nat) returns (end: nat)
    requires AfterValue(Rest(text, pos)).Done?
    ensures Lands(text, pos, end, AfterValue(Rest(text, pos)).value)
    decreases |text| - pos, 0
  {
    hide Rest, AfterWs, AfterString, AfterMembers, AfterElements, AfterScalar;
    end := SkipWs(text, pos);
    if end >= |text| {
      return;
    }
    RestStep(text, end);
    if text[end] == '"' {
      end := SkipJsonString(text, end);
    } else if text[end] == '{' {
      end := SkipMembers(text, end + 1);
    } else if text[end] == '[' {
      end := SkipElements(text, end + 1);
    } else {
      end := SkipScalar(text, end);
    }
  }

  method SkipMembers(text: string, pos: nat) returns (end: nat)
    requires pos <= |text| && AfterMembers(Rest(text, pos)).Done?
    ensures Lands(text, pos, end, AfterMembers(Rest(text, pos)).value)
    decreases |text| - pos, 1
  {
    hide Rest, AfterValue, AfterElements, AfterWs, AfterKey;
    end := pos;
    while end < |text|
      invariant pos <= end <= |text|
      invariant AfterMembers(Rest(text, end)) == AfterMembers(Rest(text, pos))
    {
      end := SkipWs(text, end);
      RestStep(text, end);
      if end < |text| && text[end] == '}' {
        return end + 1;
      }
      end := SkipKey(text, end);
      end := SkipJsonValue(text, end);
      end := SkipWs(text, end);
      RestStep(text, end);
      if end < |text| && text[end] == ',' {
        end := end + 1;
        continue;
      }
      if end < |text| && text[end] == '}' {
        return end + 1;
      }
    }
    return |text|;
  }

  method SkipKey(text: string, pos: nat) returns (end: nat)
    requires pos <= |text|
    ensures Lands(text, pos, end, AfterKey(Rest(text, pos)))
  {
    hide Rest, AfterString, AfterWs;
    end := SkipJsonString(text, pos);
    end := SkipWs(text, end);
    RestStep(text, end);
    if end < |text| && text[end] == ':' {
      end := end + 1;
    }
  }

  method SkipElements(text: string, pos: nat) returns (end: nat)
    requires pos <= |text| && AfterElements(Rest(text, pos)).Done?
    ensures Lands(text, pos, end, AfterElements(Rest(text, pos)).value)
    decreases |text| - pos, 1
  {
    hide Rest, AfterValue, AfterMembers, AfterWs;
    end := pos;
    while end < |text|
      invariant pos <= end <= |text|
      invariant AfterElements(Rest(text, end)) == AfterElements(Rest(text, pos))
    {
      end := SkipWs(text, end);
      RestStep(text, end);
      if end < |text| && text[end] == ']' {
        return end + 1;
      }
      end := SkipJsonValue(text, end);
      end := SkipWs(text, end);
      RestStep(text, end);
      if end < |text| && text[end] == ',' {
        end := end + 1;
        continue;
      }
      if end < |text| && text[end] == ']' {
        return end + 1;
      }
    }
    return |text|;
  }

  method SkipScalar(text: string, pos: nat) returns (end: nat)
    requires pos <= |text|
    ensures Lands(text, pos, end, AfterScalar(Rest(text, pos)))
  {
    hide Rest;
    end := pos;
    while end < |text|
      invariant pos <= end <= |text|
      invariant AfterScalar(Rest(text, end)) == AfterScalar(Rest(text, pos))
    {
      RestStep(text, end);
      var ch := text[end];
      if ch == ',' || ch == '}' || ch == ']' {
        break;
      }
      end := end + 1;
    }
    RestStep(text, end);
  }
}
