/** When `skip_json_value` ends at all. Its loops carry no state but the position, so
    an iteration that comes back to the same position is repeated for ever. This
    module shows that `Stall` is exactly that, and that it happens exactly when a
    one-pass bracket matcher meets a closing bracket of the wrong kind. */
module JsonTermination {
  import opened Wrappers
  import opened Text
  import opened JsonScan
  import opened JsonExtract
  import JsonScanProofs

  // ------------------------------------------------------ bounded execution

  /** The source's code run for at most `fuel` calls and iterations; `None` when
      it has not finished by then. */
  function RunValue(s: string, fuel: nat): Option<string>
    decreases fuel
  {
    if fuel == 0 then None else
    var t := AfterWs(s);
    if t == "" then Some("")
    else if t[0] == '"' then Some(AfterString(t))
    else if t[0] == '{' then RunMembers(t[1..], fuel - 1)
    else if t[0] == '[' then RunElements(t[1..], fuel - 1)
    else Some(AfterScalar(t))
  }

  function RunElements(s: string, fuel: nat): Option<string>
    decreases fuel
  {
    if fuel == 0 then None
    else if s == "" then Some("") else
    var t := AfterWs(s);
    if t != "" && t[0] == ']' then Some(t[1..]) else
    match RunValue(t, fuel - 1)
    case None => None
    case Some(u) =>
      var w := AfterWs(u);
      if w != "" && w[0] == ',' then RunElements(w[1..], fuel - 1)
      else if w != "" && w[0] == ']' then Some(w[1..])
      else RunElements(w, fuel - 1)
  }

  function RunMembers(s: string, fuel: nat): Option<string>
    decreases fuel
  {
    if fuel == 0 then None
    else if s == "" then Some("") else
    var t := AfterWs(s);
    if t != "" && t[0] == '}' then Some(t[1..]) else
    match RunValue(AfterKey(t), fuel - 1)
    case None => None
    case Some(u) =>
      var w := AfterWs(u);
      if w != "" && w[0] == ',' then RunMembers(w[1..], fuel - 1)
      else if w != "" && w[0] == '}' then Some(w[1..])
      else RunMembers(w, fuel - 1)
  }

  // ---------------------------------------------- no progress means no change

  lemma WsSame(s: string)
    ensures |AfterWs(s)| == |s| ==> AfterWs(s) == s
  {
  }

  lemma KeySame(t: string)
    ensures |AfterKey(t)| == |t| ==> AfterKey(t) == t
  {
  }

  lemma {:induction false} ValueAndSpacesSame(t: string, u: string)
    requires AfterValue(t) == Done(u) && |AfterWs(u)| == |t|
    ensures AfterWs(u) == t
  {
  }

  /** What an iteration that starts at `s` and scans a value at `k` leaves, when it
      neither returns nor skips a comma. */
  lemma IterationSame(s: string, t: string, k: string, u: string)
    requires t == AfterWs(s) && (k == t || k == AfterKey(t))
    requires AfterValue(k) == Done(u) && |AfterWs(u)| == |s|
    ensures AfterWs(u) == s
  {
    hide *;
    assert |k| == |t| == |s|;
    WsSame(s);
    KeySame(t);
    ValueAndSpacesSame(k, u);
  }

  // ----------------------------------------------- Stall is non-termination

  /** A run that finishes has the specified result; so where the specification
      says `Stall` no run ever finishes. */
  lemma {:induction false} RunValueSound(s: string, fuel: nat)
    ensures RunValue(s, fuel).Some? ==> AfterValue(s) == Done(RunValue(s, fuel).value)
    decreases fuel
  {
    hide AfterElements, AfterMembers, RunElements, RunMembers;
    var t := AfterWs(s);
    if fuel > 0 && t != "" {
      RunElementsSound(t[1..], fuel - 1);
      RunMembersSound(t[1..], fuel - 1);
    }
  }

  lemma {:induction false} RunElementsSound(s: string, fuel: nat)
    ensures RunElements(s, fuel).Some? ==> AfterElements(s) == Done(RunElements(s, fuel).value)
    decreases fuel
  {
    hide AfterValue, RunValue, AfterWs;
    if fuel > 0 && s != "" {
      RunValueSound(AfterWs(s), fuel - 1);
      match RunValue(AfterWs(s), fuel - 1)
      case None =>
      case Some(u) =>
        var w := AfterWs(u);
        RunElementsSound(w, fuel - 1);
        if w != "" {
          RunElementsSound(w[1..], fuel - 1);
        }
        if |w| == |s| {
          IterationSame(s, AfterWs(s), AfterWs(s), u);
        }
    }
  }

  lemma {:induction false} RunMembersSound(s: string, fuel: nat)
    ensures RunMembers(s, fuel).Some? ==> AfterMembers(s) == Done(RunMembers(s, fuel).value)
    decreases fuel
  {
    hide AfterValue, RunValue, AfterWs, AfterKey;
    if fuel > 0 && s != "" {
      var k := AfterKey(AfterWs(s));
      RunValueSound(k, fuel - 1);
      match RunValue(k, fuel - 1)
      case None =>
      case Some(u) =>
        var w := AfterWs(u);
        RunMembersSound(w, fuel - 1);
        if w != "" {
          RunMembersSound(w[1..], fuel - 1);
        }
        if |w| == |s| {
          IterationSame(s, AfterWs(s), k, u);
        }
    }
  }

  /** Where the specification has a result, a run of linear length reaches it. */
  lemma {:induction false} RunValueComplete(s: string, fuel: nat)
    requires AfterValue(s).Done? && fuel >= 2 * |s| + 1
    ensures RunValue(s, fuel) == Some(AfterValue(s).value)
    decreases |s|, 0
  {
    hide AfterElements, AfterMembers, RunElements, RunMembers;
    var t := AfterWs(s);
    if t != "" && t[0] == '[' {
      RunElementsComplete(t[1..], fuel - 1);
    } else if t != "" && t[0] == '{' {
      RunMembersComplete(t[1..], fuel - 1);
    }
  }

  lemma {:induction false} RunElementsComplete(s: string, fuel: nat)
    requires AfterElements(s).Done? && fuel >= 2 * |s| + 2
    ensures RunElements(s, fuel) == Some(AfterElements(s).value)
    decreases |s|, 1
  {
    hide AfterValue, RunValue, AfterWs;
    var t := AfterWs(s);
    if s != "" && !(t != "" && t[0] == ']') {
      RunValueComplete(t, fuel - 1);
      var w := AfterWs(AfterValue(t).value);
      if w != "" && w[0] == ',' {
        RunElementsComplete(w[1..], fuel - 1);
      } else if !(w != "" && w[0] == ']') {
        RunElementsComplete(w, fuel - 1);
      }
    }
  }

  lemma {:induction false} RunMembersComplete(s: string, fuel: nat)
    requires AfterMembers(s).Done? && fuel >= 2 * |s| + 2
    ensures RunMembers(s, fuel) == Some(AfterMembers(s).value)
    decreases |s|, 1
  {
    hide AfterValue, RunValue, AfterWs, AfterKey;
    var t := AfterWs(s);
    if s != "" && !(t != "" && t[0] == '}') {
      RunValueComplete(AfterKey(t), fuel - 1);
      var w := AfterWs(AfterValue(AfterKey(t)).value);
      if w != "" && w[0] == ',' {
        RunMembersComplete(w[1..], fuel - 1);
      } else if !(w != "" && w[0] == '}') {
        RunMembersComplete(w, fuel - 1);
      }
    }
  }

  // ------------------------------------------------------- bracket matching

  datatype Frame = InArray | InObject

  predicate Closes(c: char, top: Frame) {
    c == if top.InArray? then ']' else '}'
  }

  /** One pass over the text with the open brackets on an explicit stack. A closing
      bracket of the wrong kind is the only way to `Stall`. */
  function Match(s: string, stack: seq<Frame>): Scan<string>
    decreases |s|
  {
    if stack == [] || s == "" then Done(s) else
    var t := AfterWs(s);
    if t == "" then Done("")
    else if Closes(t[0], stack[0]) then Match(t[1..], stack[1..]) else
    var c := AfterWs(if stack[0].InObject? then AfterKey(t) else t);
    if c == "" then Done("")
    else if c[0] == '"' then Match(AfterString(c), stack)
    else if c[0] == '{' then Match(c[1..], [InObject] + stack)
    else if c[0] == '[' then Match(c[1..], [InArray] + stack)
    else if c[0] == ',' then Match(c[1..], stack)
    else if Closes(c[0], stack[0]) then Match(c[1..], stack[1..])
    else if IsDelimiter(c[0]) then Stall
    else Match(AfterScalar(c), stack)
  }

  /** The matcher goes on where the array ended. */
  function Then(r: Scan<string>, stack: seq<Frame>): Scan<string> {
    match r
    case Stall => Stall
    case Done(u) => Match(u, stack)
  }

  /** What the array loop does once a value has left `u`. */
  function ResumeElements(u: string): Scan<string> {
    var w := AfterWs(u);
    if w != "" && w[0] == ',' then AfterElements(w[1..])
    else if w != "" && w[0] == ']' then Done(w[1..])
    else AfterElements(w)
  }

  function ResumeMembers(u: string): Scan<string> {
    var w := AfterWs(u);
    if w != "" && w[0] == ',' then AfterMembers(w[1..])
    else if w != "" && w[0] == '}' then Done(w[1..])
    else AfterMembers(w)
  }

  lemma DelimiterStays(w: string)
    requires w != "" && IsDelimiter(w[0])
    ensures AfterWs(w) == w && AfterValue(w) == Done(w) && AfterKey(w) == w
  {
  }

  /** Going on after a value is the same as starting an iteration there. */
  lemma {:induction false} ElementsResume(u: string)
    ensures ResumeElements(u) == AfterElements(u)
  {
    hide AfterValue, AfterWs;
    var w := AfterWs(u);
    WsIdempotent(u);
    EmptyValue();
    if w != "" && IsDelimiter(w[0]) {
      DelimiterStays(w);
    }
    if AfterValue(w).Done? {
      var x := AfterWs(AfterValue(w).value);
      if |x| == |w| && |w| < |u| {
        IterationSame(w, w, w, AfterValue(w).value);
      }
    }
  }

  lemma EmptyValue()
    ensures AfterWs("") == "" && AfterKey("") == "" && AfterValue("") == Done("")
  {
  }

  lemma {:induction false} MembersResume(u: string)
    ensures ResumeMembers(u) == AfterMembers(u)
  {
    hide AfterValue, AfterWs, AfterKey;
    var w := AfterWs(u);
    WsIdempotent(u);
    EmptyValue();
    if w != "" && IsDelimiter(w[0]) {
      DelimiterStays(w);
    }
    var k := AfterKey(w);
    if AfterValue(k).Done? {
      var x := AfterWs(AfterValue(k).value);
      if |x| == |w| && |w| < |u| {
        IterationSame(w, w, k, AfterValue(k).value);
      }
    }
  }

  /** The value dispatch on a text that starts with a token. */
  lemma Dispatch(t: string)
    requires t != "" && AfterWs(t) == t
    ensures t[0] == '"' ==> AfterValue(t) == Done(AfterString(t)) && |AfterString(t)| < |t|
    ensures t[0] == '[' ==> AfterValue(t) == AfterElements(t[1..])
    ensures t[0] == '{' ==> AfterValue(t) == AfterMembers(t[1..])
    ensures IsDelimiter(t[0]) ==> AfterValue(t) == Done(t) && AfterKey(t) == t
    ensures t[0] != '"' && t[0] != '[' && t[0] != '{' ==> AfterValue(t) == Done(AfterScalar(t))
    ensures t[0] != '"' && t[0] != '[' && t[0] != '{' && !IsDelimiter(t[0]) ==> |AfterScalar(t)| < |t|
  {
  }

  lemma ElementsAt(s: string)
    requires s != ""
    ensures AfterWs(s) == "" ==> AfterElements(s) == Done("")
    ensures AfterWs(s) != "" && AfterWs(s)[0] == ']' ==> AfterElements(s) == Done(AfterWs(s)[1..])
    ensures AfterWs(s) != "" && AfterWs(s)[0] == ',' ==> AfterElements(s) == AfterElements(AfterWs(s)[1..])
    ensures AfterWs(s) != "" && AfterWs(s)[0] == '}' ==> AfterElements(s) == Stall
  {
    hide AfterValue, AfterWs;
    WsIdempotent(s);
    EmptyValue();
    if AfterWs(s) != "" && IsDelimiter(AfterWs(s)[0]) {
      DelimiterStays(AfterWs(s));
    }
  }

  lemma {:induction false} ElementsAfter(s: string, u: Scan<string>)
    requires AfterWs(s) != "" && AfterWs(s)[0] != ']'
    requires AfterValue(AfterWs(s)) == u && (u.Done? ==> |u.value| < |AfterWs(s)|)
    ensures u == Stall ==> AfterElements(s) == Stall
    ensures u.Done? ==> AfterElements(s) == AfterElements(u.value)
  {
    hide AfterValue, AfterWs;
    EmptyValue();
    if u.Done? {
      ElementsResume(u.value);
    }
  }

  lemma MembersAt(s: string)
    requires s != ""
    ensures AfterWs(s) == "" ==> AfterMembers(s) == Done("")
    ensures AfterWs(s) != "" && AfterWs(s)[0] == '}' ==> AfterMembers(s) == Done(AfterWs(s)[1..])
  {
  }

  /** At the value position `c` of a member. */
  lemma MembersAtValue(s: string, c: string)
    requires s != "" && AfterWs(s) != "" && AfterWs(s)[0] != '}' && c == AfterWs(AfterKey(AfterWs(s)))
    ensures c == "" ==> AfterMembers(s) == Done("")
    ensures c != "" && c[0] == '}' ==> AfterMembers(s) == Done(c[1..])
    ensures c != "" && c[0] == ',' ==> AfterMembers(s) == AfterMembers(c[1..])
    ensures c != "" && c[0] == ']' ==> AfterMembers(s) == Stall
  {
    hide AfterValue, AfterWs, AfterKey;
    JsonScanProofs.ValueIgnoresSpaces(AfterKey(AfterWs(s)));
    EmptyValue();
    if c != "" && IsDelimiter(c[0]) {
      WsIdempotent(AfterKey(AfterWs(s)));
      DelimiterStays(c);
    }
  }

  lemma {:induction false} MembersAfter(s: string, c: string, u: Scan<string>)
    requires s != "" && AfterWs(s) != "" && AfterWs(s)[0] != '}' && c == AfterWs(AfterKey(AfterWs(s)))
    requires AfterValue(c) == u && (u.Done? ==> |u.value| < |c|)
    ensures u == Stall ==> AfterMembers(s) == Stall
    ensures u.Done? ==> AfterMembers(s) == AfterMembers(u.value)
  {
    hide AfterValue, AfterWs, AfterKey;
    JsonScanProofs.ValueIgnoresSpaces(AfterKey(AfterWs(s)));
    EmptyValue();
    if u.Done? {
      MembersResume(u.value);
    }
  }

  /** What scanning the token at `t` leaves, once the bracket that may open there
      has been matched: the matcher and the recursive scanner agree. */
  lemma {:induction false} TokenMatch(t: string, frames: seq<Frame>)
    requires t != "" && AfterWs(t) == t && !IsDelimiter(t[0])
    ensures t[0] == '[' ==> Match(t[1..], [InArray] + frames) == Then(AfterValue(t), frames)
    ensures t[0] == '{' ==> Match(t[1..], [InObject] + frames) == Then(AfterValue(t), frames)
    ensures t[0] != '[' && t[0] != '{' ==> AfterValue(t).Done?
    ensures t[0] == '"' ==> AfterValue(t).value == AfterString(t)
    ensures t[0] != '"' && t[0] != '[' && t[0] != '{' ==> AfterValue(t).value == AfterScalar(t)
    ensures AfterValue(t).Done? ==> |AfterValue(t).value| < |t|
    decreases |t|, 0
  {
    hide AfterValue, AfterMembers, AfterElements, AfterWs, AfterString, AfterScalar, Match;
    Dispatch(t);
    if t[0] == '[' {
      ArrayMatch(t[1..], frames);
    } else if t[0] == '{' {
      ObjectMatch(t[1..], frames);
    }
  }

  lemma EmptyMatch(stack: seq<Frame>)
    ensures Match("", stack) == Done("")
  {
  }

  lemma {:induction false} ArrayMatch(s: string, stack: seq<Frame>)
    ensures Match(s, [InArray] + stack) == Then(AfterElements(s), stack)
    decreases |s|, 1
  {
    hide AfterValue, AfterMembers, AfterElements, AfterWs, AfterString, AfterScalar, AfterKey;
    var frames := [InArray] + stack;
    assert frames[1..] == stack && frames[0] == InArray;
    EmptyMatch(stack);
    EmptyMatch(frames);
    if s == "" {
      JsonScanProofs.NothingLeft();
      return;
    }
    var t := AfterWs(s);
    WsIdempotent(s);
    ElementsAt(s);
    if t == "" || t[0] == ']' || t[0] == '}' {
    } else if t[0] == ',' {
      ArrayMatch(t[1..], stack);
    } else {
      TokenMatch(t, frames);
      ElementsAfter(s, AfterValue(t));
      if AfterValue(t).Done? {
        ArrayMatch(AfterValue(t).value, stack);
      }
    }
  }

  lemma {:induction false} ObjectMatch(s: string, stack: seq<Frame>)
    ensures Match(s, [InObject] + stack) == Then(AfterMembers(s), stack)
    decreases |s|, 1
  {
    hide AfterValue, AfterMembers, AfterElements, AfterWs, AfterString, AfterScalar, AfterKey;
    var frames := [InObject] + stack;
    assert frames[1..] == stack && frames[0] == InObject;
    EmptyMatch(stack);
    EmptyMatch(frames);
    if s == "" {
      JsonScanProofs.NothingLeft();
      return;
    }
    var t := AfterWs(s);
    MembersAt(s);
    if t == "" || t[0] == '}' {
      return;
    }
    var c := AfterWs(AfterKey(t));
    WsIdempotent(AfterKey(t));
    MembersAtValue(s, c);
    if c == "" || c[0] == ']' || c[0] == '}' {
    } else if c[0] == ',' {
      ObjectMatch(c[1..], stack);
    } else {
      TokenMatch(c, frames);
      MembersAfter(s, c, AfterValue(c));
      if AfterValue(c).Done? {
        ObjectMatch(AfterValue(c).value, stack);
      }
    }
  }

  /** Some run of `skip_json_value` finishes. */
  ghost predicate Terminates(s: string) {
    exists fuel :: RunValue(s, fuel).Some?
  }

  /** Termination, exactly: the loops end on every text that opens no bracket, and on
      one that does exactly when the matcher meets no closing bracket of the wrong
      kind. Where they end, they end where the matcher empties its stack. */
  lemma TerminatesExactly(s: string)
    ensures Terminates(s) <==> AfterValue(s).Done?
    ensures var t := AfterWs(s);
      && (t != "" && t[0] == '[' ==> AfterValue(s) == Match(t[1..], [InArray]))
      && (t != "" && t[0] == '{' ==> AfterValue(s) == Match(t[1..], [InObject]))
      && (t == "" || (t[0] != '[' && t[0] != '{') ==> Terminates(s))
  {
    hide AfterElements, AfterMembers, AfterScalar, AfterString, AfterWs, Match, RunValue;
    forall fuel: nat | RunValue(s, fuel).Some? ensures AfterValue(s).Done? {
      RunValueSound(s, fuel);
    }
    var t := AfterWs(s);
    if t != "" {
      WsIdempotent(s);
      ArrayMatch(t[1..], []);
      ObjectMatch(t[1..], []);
      assert [InArray] + [] == [InArray] && [InObject] + [] == [InObject];
      ThenDone(AfterElements(t[1..]));
      ThenDone(AfterMembers(t[1..]));
    }
    if AfterValue(s).Done? {
      RunValueComplete(s, 2 * |s| + 1);
      assert RunValue(s, 2 * |s| + 1).Some?;
    }
  }

  lemma ThenDone(r: Scan<string>)
    ensures Then(r, []) == r
  {
  }

  /** Two texts on which the source's loops never end. */
  lemma MismatchedBrackets()
    ensures !Terminates("[}") && !Terminates("{]")
  {
    assert "[}"[1..] == "}" && "{]"[1..] == "]";
    assert AfterWs("[}") == "[}" && AfterWs("{]") == "{]";
    TerminatesExactly("[}");
    TerminatesExactly("{]");
  }

  /** A lookup returns if and only if the scan of the one value that it reads terminates. */
  lemma LookupTerminatesExactly(text: string, key: string)
    ensures ExtractValue(text, key).Done?
       <==> (ReadAt(text, key).Some? ==> Terminates(text[ReadAt(text, key).value + 1..]))
  {
    hide ReadAt, ExtractValue, AfterValue, Terminates;
    LookupReads(text, key);
    if ReadAt(text, key).Some? {
      var s := text[ReadAt(text, key).value + 1..];
      TerminatesExactly(s);
      ScanFromToken(s);
    }
  }

  lemma ScanFromToken(s: string)
    ensures AfterValue(AfterWs(s)) == AfterValue(s)
  {
    WsIdempotent(s);
  }
}
