/** Scope lists: `join_scopes` of `pkce_auth_strat.hpp` and `split_ws` of `json_utils.hpp`. */
module Scopes {
  import opened Wrappers
  import opened Text
  import opened JsonScan

  /** The characters at which a token is cut: fewer than those that are skipped. */
  predicate IsCut(c: char) {
    c == ' ' || c == '\t' || c == '\r' || c == '\n'
  }

  /** `find_first_of(" \t\r\n")`. */
  function FindCut(s: string): (r: Option<nat>)
    ensures r.Some? ==> r.value < |s| && IsCut(s[r.value]) && forall i :: 0 <= i < r.value ==> !IsCut(s[i])
    ensures r.None? ==> forall i :: 0 <= i < |s| ==> !IsCut(s[i])
  {
    if s == "" then None
    else if IsCut(s[0]) then Some(0)
    else
      var r := FindCut(s[1..]);
      assert forall i :: 1 <= i < |s| ==> s[i] == s[1..][i - 1];
      if r.None? then None else Some(r.value + 1)
  }

  function SplitWs(input: string): seq<string>
    decreases |input|
  {
    var t := AfterWs(input);
    if t == "" then []
    else match FindCut(t)
      case None => [t]
      case Some(end) => [t[..end]] + SplitWs(t[end + 1..])
  }

  lemma TokenStep(s: string)
    ensures SplitWs(s)
         == if AfterWs(s) == "" then []
            else match FindCut(AfterWs(s))
              case None => [AfterWs(s)]
              case Some(end) => [AfterWs(s)[..end]] + SplitWs(AfterWs(s)[end + 1..])
  {
  }

  method SplitOnWhitespace(input: string) returns (values: seq<string>)
    ensures values == SplitWs(input)
  {
    hide AfterWs, FindCut, Rest, SplitWs;
    values := [];
    var pos := 0;
    RestStart(input);
    while pos < |input|
      invariant pos <= |input|
      invariant values + SplitWs(Rest(input, pos)) == SplitWs(input)
    {
      TokenStep(Rest(input, pos));
      pos := SkipWs(input, pos);
      if pos >= |input| {
        return;
      }
      var end := FindCut(Rest(input, pos));
      if end.None? {
        return values + [Rest(input, pos)];
      }
      RestShift(input, pos, end.value + 1);
      RestShift(input, pos, end.value);
      values := values + [input[pos..pos + end.value]];
      pos := pos + end.value + 1;
    }
    SplitNothing();
  }

  lemma SplitNothing()
    ensures SplitWs("") == [] && AfterWs("") == ""
  {
  }

  function JoinScopes(scopes: seq<string>): string {
    Join(scopes, ' ')
  }

  method JoinScopeList(scopes: seq<string>) returns (out: string)
    ensures out == JoinScopes(scopes)
  {
    out := "";
    for i := 0 to |scopes|
      invariant out == Join(scopes[..i], ' ')
    {
      assert scopes[..i + 1] == scopes[..i] + [scopes[i]];
      JoinSnoc(scopes[..i], scopes[i], ' ');
      if i > 0 {
        out := out + " ";
      }
      out := out + scopes[i];
    }
    assert scopes[..|scopes|] == scopes;
  }

  /** What the splitter can produce: not empty, no cut character, and no white space in front. */
  predicate IsToken(x: string) {
    x != "" && !IsSpace(x[0]) && forall i :: 0 <= i < |x| ==> !IsCut(x[i])
  }

  lemma {:induction false} WsStops(s: string)
    ensures AfterWs(s) != "" ==> !IsSpace(AfterWs(s)[0])
  {
    if s != "" && IsSpace(s[0]) {
      WsStops(s[1..]);
    }
  }

  /** On every input, every piece is a token; in particular none is empty. */
  lemma {:induction false} PiecesAreTokens(input: string)
    ensures forall x :: x in SplitWs(input) ==> IsToken(x)
    decreases |input|
  {
    hide AfterWs;
    var t := AfterWs(input);
    WsStops(input);
    if t != "" && FindCut(t).Some? {
      PiecesAreTokens(t[FindCut(t).value + 1..]);
    }
  }

  lemma {:induction false} CutAfterToken(x: string, rest: string)
    requires IsToken(x)
    ensures AfterWs(x + rest) == x + rest
    ensures FindCut(x) == None
    ensures rest != "" && rest[0] == ' ' ==> FindCut(x + rest) == Some(|x|)
  {
    hide FindCut;
    if rest != "" && rest[0] == ' ' {
      var s := x + rest;
      assert IsCut(s[|x|]) && forall i :: 0 <= i < |x| ==> !IsCut(s[i]);
    }
  }

  lemma {:induction false} SplitJoined(scopes: seq<string>)
    requires forall x :: x in scopes ==> IsToken(x)
    ensures SplitWs(JoinScopes(scopes)) == scopes
  {
    hide AfterWs, FindCut;
    if scopes == [] {
      SplitNothing();
    } else {
      var x := scopes[0];
      assert x in scopes;
      if |scopes| == 1 {
        CutAfterToken(x, "");
        assert x + "" == x && scopes == [x];
      } else {
        var more := JoinScopes(scopes[1..]);
        var s := JoinScopes(scopes);
        assert s == x + (" " + more);
        CutAfterToken(x, " " + more);
        assert s[..|x|] == x && s[|x| + 1..] == more;
        SplitJoined(scopes[1..]);
      }
    }
  }

  /** Scope round trip, exactly: splitting the joined list gives it back if and only if
      every scope is a token. Scopes free of all white space are tokens; a scope may
      even hold a vertical tab or form feed, but not begin with one. */
  lemma ScopeRoundTrip(scopes: seq<string>)
    ensures SplitWs(JoinScopes(scopes)) == scopes <==> forall x :: x in scopes ==> IsToken(x)
  {
    if forall x :: x in scopes ==> IsToken(x) {
      SplitJoined(scopes);
    }
    PiecesAreTokens(JoinScopes(scopes));
  }

  // ------------------------------------------------------- what any list may look like

  /** The text lists the tokens: white space, a token, one of four cut characters, and so on. */
  ghost predicate Enumerates(text: string, tokens: seq<string>)
    decreases tokens
  {
    if tokens == [] then AllSpace(text)
    else exists before: string, rest: string ::
      AllSpace(before) && IsToken(tokens[0]) && text == before + (tokens[0] + rest)
      && (if rest == "" then |tokens| == 1 else rest[0] in " \t\r\n" && Enumerates(rest[1..], tokens[1..]))
  }

  lemma CutsAre(c: char)
    ensures IsCut(c) <==> c in " \t\r\n"
  {
  }

  /** Splitting finds exactly the tokens. */
  lemma {:induction false} SplitEnumerated(text: string, tokens: seq<string>)
    requires Enumerates(text, tokens)
    ensures SplitWs(text) == tokens
    decreases tokens
  {
    hide AfterWs, IsSpace;
    if tokens == [] {
      AfterWsAt(text, "");
      assert text + "" == text;
    } else {
      var before: string, rest: string :|
        AllSpace(before) && IsToken(tokens[0]) && text == before + (tokens[0] + rest)
        && (if rest == "" then |tokens| == 1 else rest[0] in " \t\r\n" && Enumerates(rest[1..], tokens[1..]));
      var x := tokens[0];
      AfterWsAt(before, x + rest);
      if rest == "" {
        assert x + rest == x && tokens == [x];
        TokenUncut(x);
      } else {
        CutsAre(rest[0]);
        TokenCut(x, rest);
        assert (x + rest)[..|x|] == x && (x + rest)[|x| + 1..] == rest[1..];
        SplitEnumerated(rest[1..], tokens[1..]);
      }
    }
  }

  lemma TokenUncut(x: string)
    requires IsToken(x)
    ensures FindCut(x) == None
  {
  }

  lemma TokenCut(x: string, rest: string)
    requires IsToken(x) && rest != "" && IsCut(rest[0])
    ensures FindCut(x + rest) == Some(|x|)
  {
    var s := x + rest;
    assert IsCut(s[|x|]) && forall i :: 0 <= i < |x| ==> !IsCut(s[i]);
  }
}
