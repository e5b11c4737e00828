/** The scanner inverts the printer: on the text of any JSON value, with any white
    space between tokens and any text behind it, scanning ends exactly at the end. */
module JsonScanProofs {
  import opened Wrappers
  import opened Text
  import opened JsonScan
  import opened JsonTree

  /** What a scan of `v` leaves of the text behind it: a scalar also takes
      everything up to the next delimiter. */
  function Remainder(v: Json, rest: string): string {
    if v.IsScalar() then AfterScalar(rest) else rest
  }

  lemma {:induction false} BodyScan(body: string, rest: string)
    requires ValidBody(body)
    ensures AfterStringBody(body + "\"" + rest, false) == rest
  {
    var s := body + "\"" + rest;
    if body == "" {
      assert s == "\"" + rest;
    } else if body[0] == '\\' {
      assert s[1..][1..] == body[2..] + "\"" + rest;
      BodyScan(body[2..], rest);
    } else {
      assert s[1..] == body[1..] + "\"" + rest;
      BodyScan(body[1..], rest);
    }
  }

  /** `skip_json_string` ends right after the closing quote. */
  lemma StringScan(body: string, rest: string)
    requires ValidBody(body)
    ensures AfterString(Quoted(body) + rest) == rest
  {
    assert (Quoted(body) + rest)[1..] == body + "\"" + rest;
    BodyScan(body, rest);
  }

  lemma {:induction false} ScalarScan(text: string, rest: string)
    requires ',' !in text && '}' !in text && ']' !in text
    ensures AfterScalar(text + rest) == AfterScalar(rest)
  {
    if text == "" {
      assert text + rest == rest;
    } else {
      assert text[0] in text;
      assert (text + rest)[1..] == text[1..] + rest;
      ScalarScan(text[1..], rest);
    }
  }

  lemma RenderStart(v: Json)
    requires WellFormed(v)
    ensures Render(v) != "" && !IsSpace(Render(v)[0]) && !IsDelimiter(Render(v)[0])
  {
  }

  /** Scanning a value first skips white space. */
  lemma ValueIgnoresSpaces(s: string)
    ensures AfterValue(AfterWs(s)) == AfterValue(s)
  {
  }

  /** White space in front of a value makes no difference. */
  lemma ValueAfterSpaces(w: string, s: string)
    requires AllSpace(w)
    ensures AfterValue(w + s) == AfterValue(s)
  {
    hide AfterElements, AfterMembers;
    AfterWsSpaces(w, s);
  }

  /** After a value and white space, the scanner stands in front of the delimiter. */
  lemma NextDelimiter(v: Json, after: string, tail: string)
    requires AllSpace(after) && tail != "" && IsDelimiter(tail[0])
    ensures AfterWs(Remainder(v, after + tail)) == tail
  {
    if v.IsScalar() {
      assert forall i :: 0 <= i < |after| ==> !IsDelimiter(after[i]);
      ScalarScan(after, tail);
    } else {
      AfterWsAt(after, tail);
    }
  }

  /** Scanner exactness: `skip_json_value` over the text of `v` inside any larger
      text stops at the end of a string, array or object, and a scalar stops at the
      next delimiter. */
  lemma {:induction false} ValueScan(v: Json, rest: string)
    requires WellFormed(v)
    ensures AfterValue(Render(v) + rest) == Done(Remainder(v, rest))
    decreases v, 1
  {
    hide AfterElements, AfterMembers, AfterString, AfterScalar;
    var s := Render(v) + rest;
    RenderStart(v);
    assert AfterWs(s) == s;
    match v
    case Lit(text) =>
      ScalarScan(text, rest);
    case Num(n) =>
      NumStart(n);
      ScalarScan(Dec(n), rest);
    case Str(body) =>
      StringScan(body, rest);
    case Arr(gap, elems) =>
      assert s[1..] == gap + RenderElems(elems) + rest;
      ArrayScan(gap, elems, rest);
    case Obj(gap, members) =>
      assert s[1..] == gap + RenderMembers(members) + rest;
      ObjectScan(gap, members, rest);
  }

  lemma NumStart(n: int)
    ensures Dec(n)[0] != '"' && Dec(n)[0] != '{' && Dec(n)[0] != '['
    ensures ',' !in Dec(n) && '}' !in Dec(n) && ']' !in Dec(n)
  {
  }

  lemma {:induction false} ArrayScan(gap: string, es: seq<Elem>, rest: string)
    requires AllSpace(gap) && WellFormedElems(es)
    ensures AfterElements(gap + RenderElems(es) + rest) == Done(rest)
    decreases es, 1
  {
    if es == [] {
      assert gap + RenderElems(es) + rest == gap + ("]" + rest);
      AfterWsAt(gap, "]" + rest);
    } else {
      hide AfterElements;
      assert gap + RenderElems(es) + rest == gap + (RenderElems(es) + rest);
      ElemsScan(gap, es, rest);
    }
  }

  /** The text of a non-empty element list, grouped from the right. */
  lemma {:induction false} ElemsShape(gap: string, es: seq<Elem>, rest: string)
    requires es != []
    ensures gap + (RenderElems(es) + rest)
         == gap + (es[0].before + (Render(es[0].value) + (es[0].after + (ElemsTail(es) + rest))))
  {
  }

  /** One iteration of the array loop over a value. */
  lemma ElementStep(s: string, t: string, u: string, w: string)
    requires s != "" && AfterWs(s) == t && t != "" && t[0] != ']'
    requires AfterValue(t) == Done(u) && AfterWs(u) == w
    ensures w == "" ==> AfterElements(s) == Done("")
    ensures w != "" && w[0] == ',' ==> AfterElements(s) == AfterElements(w[1..])
    ensures w != "" && w[0] == ']' ==> AfterElements(s) == Done(w[1..])
  {
  }

  lemma {:induction false} ElemsScan(gap: string, es: seq<Elem>, rest: string)
    requires es != [] && AllSpace(gap) && WellFormedElems(es)
    ensures AfterElements(gap + (RenderElems(es) + rest)) == Done(rest)
    decreases es, 0
  {
    hide AfterValue, AfterElements, AfterWs, Remainder, Render, RenderElems, IsSpace;
    var e := es[0];
    var behind := ElemsTail(es) + rest;
    var t := Render(e.value) + (e.after + behind);
    RenderStart(e.value);
    ElemsShape(gap, es, rest);
    AfterWsSpaces(gap, e.before + t);
    AfterWsAt(e.before, t);
    ValueScan(e.value, e.after + behind);
    NextDelimiter(e.value, e.after, behind);
    assert t[0] == Render(e.value)[0];
    ElementStep(gap + (RenderElems(es) + rest), t, Remainder(e.value, e.after + behind), behind);
    if |es| == 1 {
      assert behind[1..] == rest;
    } else {
      ElemsScan("", es[1..], rest);
      assert behind[1..] == "" + (RenderElems(es[1..]) + rest);
    }
  }

  lemma {:induction false} ObjectScan(gap: string, ms: seq<Member>, rest: string)
    requires AllSpace(gap) && WellFormedMembers(ms)
    ensures AfterMembers(gap + RenderMembers(ms) + rest) == Done(rest)
    decreases ms, 1
  {
    if ms == [] {
      assert gap + RenderMembers(ms) + rest == gap + ("}" + rest);
      AfterWsAt(gap, "}" + rest);
    } else {
      hide AfterMembers;
      assert gap + RenderMembers(ms) + rest == gap + (RenderMembers(ms) + rest);
      MembersScan(gap, ms, rest);
    }
  }

  /** A key and its colon are skipped up to the value. */
  lemma KeyScan(m: Member, x: string)
    requires ValidBody(m.key) && AllSpace(m.colonBefore)
    ensures AfterKey(Quoted(m.key) + m.colonBefore + ":" + x) == x
  {
    var colon := ":" + x;
    assert Quoted(m.key) + m.colonBefore + ":" + x == Quoted(m.key) + (m.colonBefore + colon);
    StringScan(m.key, m.colonBefore + colon);
    AfterWsAt(m.colonBefore, colon);
  }

  /** A key without colon, a colon without key, and neither. */
  lemma KeyForms(key: string, w: string, rest: string)
    requires ValidBody(key) && AllSpace(w)
    ensures rest == "" || (!IsSpace(rest[0]) && rest[0] != ':') ==> AfterKey(Quoted(key) + (w + rest)) == rest
    ensures AfterKey(w + (":" + rest)) == rest
    ensures rest == "" || (!IsSpace(rest[0]) && rest[0] != ':' && rest[0] != '"') ==> AfterKey(rest) == rest
  {
    hide AfterWs, AfterStringBody;
    StringScan(key, w + rest);
    AfterWsAt(w, ":" + rest);
    if rest == "" || !IsSpace(rest[0]) {
      AfterWsAt(w, rest);
      AfterWsAt("", rest);
      assert "" + rest == rest;
    }
    assert (":" + rest)[1..] == rest;
    assert AfterString(w + (":" + rest)) == w + (":" + rest);
  }

  /** The text from a key on, grouped from the right. */
  lemma KeyTextShape(ms: seq<Member>, rest: string)
    requires ms != []
    ensures KeyText(ms) + rest
         == Quoted(ms[0].key) + ms[0].colonBefore + ":"
          + (ms[0].colonAfter + (Render(ms[0].value) + (ms[0].after + (MembersTail(ms) + rest))))
  {
  }

  lemma NothingLeft()
    ensures AfterElements("") == AfterMembers("") == Done("")
  {
  }

  /** One iteration of the object loop over a member. */
  lemma MemberStep(s: string, t: string, v: string, u: string, w: string)
    requires s != "" && AfterWs(s) == t && t != "" && t[0] != '}' && AfterKey(t) == v
    requires AfterValue(v) == Done(u) && AfterWs(u) == w
    ensures w == "" ==> AfterMembers(s) == Done("")
    ensures w != "" && w[0] == ',' ==> AfterMembers(s) == AfterMembers(w[1..])
    ensures w != "" && w[0] == '}' ==> AfterMembers(s) == Done(w[1..])
  {
  }

  lemma {:induction false} MembersScan(gap: string, ms: seq<Member>, rest: string)
    requires ms != [] && AllSpace(gap) && WellFormedMembers(ms)
    ensures AfterMembers(gap + (RenderMembers(ms) + rest)) == Done(rest)
    decreases ms, 0
  {
    hide AfterValue, AfterMembers, AfterWs, AfterKey, Remainder, Render, KeyText, RenderMembers;
    var m := ms[0];
    var behind := MembersTail(ms) + rest;
    var v := Render(m.value) + (m.after + behind);
    var t := KeyText(ms) + rest;
    var s := gap + (RenderMembers(ms) + rest);
    KeyTextShape(ms, rest);
    MembersText(ms, rest);
    AfterWsSpaces(gap, m.before + t);
    AfterWsAt(m.before, t);
    KeyScan(m, m.colonAfter + v);
    ValueAfterSpaces(m.colonAfter, v);
    ValueScan(m.value, m.after + behind);
    NextDelimiter(m.value, m.after, behind);
    MemberStep(s, t, m.colonAfter + v, Remainder(m.value, m.after + behind), behind);
    if |ms| == 1 {
      assert behind[1..] == rest;
    } else {
      MembersScan("", ms[1..], rest);
      assert behind[1..] == "" + (RenderMembers(ms[1..]) + rest);
    }
  }

  lemma MembersText(ms: seq<Member>, rest: string)
    requires ms != []
    ensures RenderMembers(ms) + rest == ms[0].before + (KeyText(ms) + rest)
    ensures KeyText(ms) != "" && KeyText(ms)[0] == '"'
  {
  }

  /** Scanner exactness by position: in any larger text, the scan from `|pre|` ends at the end of
      the value; a scalar ends behind its white space, at the delimiter or the end of the text. */
  lemma ExactEnd(pre: string, gap: string, v: Json, after: string, tail: string, end: nat)
    requires WellFormed(v) && AllSpace(gap)
    requires v.IsScalar() ==> AllSpace(after) && (tail == "" || IsDelimiter(tail[0]))
    ensures var text := pre + gap + Render(v) + after + tail;
      && AfterValue(text[|pre|..]).Done?
      && (Lands(text, |pre|, end, AfterValue(text[|pre|..]).value) <==>
          end == |pre + gap + Render(v)| + if v.IsScalar() then |after| else 0)
  {
    hide AfterValue, AfterScalar, Render, WellFormed, Lands, AllSpace;
    var value := Render(v);
    var text := pre + gap + value + after + tail;
    TextBehind(pre, gap, value, after, tail);
    ValueAfterSpaces(gap, value + (after + tail));
    ValueScan(v, after + tail);
    if v.IsScalar() {
      SpacesThenTail(after, tail);
    }
    LandsAt(text, |pre|, end, Remainder(v, after + tail));
  }

  lemma TextBehind(pre: string, gap: string, value: string, after: string, tail: string)
    ensures var text := pre + gap + value + after + tail;
      && text[|pre|..] == gap + (value + (after + tail))
      && text[|text| - |tail|..] == tail && text[|text| - |after + tail|..] == after + tail
  {
  }

  lemma SpacesThenTail(after: string, tail: string)
    requires AllSpace(after) && (tail == "" || IsDelimiter(tail[0]))
    ensures AfterScalar(after + tail) == tail
  {
    assert forall i :: 0 <= i < |after| ==> !IsDelimiter(after[i]);
    ScalarScan(after, tail);
  }

  lemma LandsAt(text: string, pos: nat, end: nat, left: string)
    requires pos + |left| <= |text| && text[|text| - |left|..] == left
    ensures Lands(text, pos, end, left) <==> end == |text| - |left|
  {
  }
}
