/** Truncated input: cut off anywhere, the text of a JSON value is still scanned to
    its end and never beyond, by loops that stop. */
module JsonTruncation {
  import opened Wrappers
  import opened Text
  import opened JsonScan
  import opened JsonTree
  import opened JsonScanProofs

  /** A prefix of `a + b` lies inside `a`, or is `a` and a prefix of `b`. */
  lemma PrefixCases(s: string, cut: string, a: string, b: string)
    requires s + cut == a + b
    ensures |s| < |a| ==> s + a[|s|..] == a
    ensures |s| >= |a| ==> s == a + s[|a|..] && s[|a|..] + cut == b
  {
    assert (s + cut)[..|s|] == s && (s + cut)[|s|..] == cut;
    assert (a + b)[..|a|] == a && (a + b)[|a|..] == b;
    if |s| < |a| {
      assert forall i :: 0 <= i < |s| ==> s[i] == (s + cut)[i] == (a + b)[i] == a[i];
    } else {
      assert forall i :: 0 <= i < |a| ==> s[i] == (s + cut)[i] == (a + b)[i] == a[i];
      assert s[|a|..] + cut == (s + cut)[|a|..];
    }
  }

  lemma {:induction false} CutBody(body: string, s: string, cut: string)
    requires ValidBody(body) && s + cut == body + "\"" && cut != ""
    ensures AfterStringBody(s, false) == ""
  {
    assert |s + cut| == |body| + 1;
    if s == "" || body == "" {
    } else if body[0] == '\\' {
      assert (s + cut)[0] == (body + "\"")[0];
      if |s| >= 2 {
        assert s[2..] + cut == (s + cut)[2..] == body[2..] + "\"";
        assert s[1..][1..] == s[2..];
        CutBody(body[2..], s[2..], cut);
      }
    } else {
      assert (s + cut)[0] == (body + "\"")[0];
      assert s[1..] + cut == (s + cut)[1..] == body[1..] + "\"";
      CutBody(body[1..], s[1..], cut);
    }
  }

  lemma CutString(body: string, s: string, cut: string)
    requires ValidBody(body) && s + cut == Quoted(body) && cut != ""
    ensures AfterString(s) == ""
  {
    if s != "" {
      assert (s + cut)[0] == '"';
      assert s[1..] + cut == (s + cut)[1..] == body + "\"";
      CutBody(body, s[1..], cut);
    }
  }

  lemma CutScalar(text: string, s: string, cut: string)
    requires s + cut == text
    requires ',' !in text && '}' !in text && ']' !in text
    ensures AfterScalar(s) == ""
  {
    assert forall i :: 0 <= i < |s| ==> s[i] == text[i];
    ScalarScan(s, "");
    assert s + "" == s;
  }

  lemma AfterSpaces(w: string)
    requires AllSpace(w)
    ensures AfterWs(w) == ""
  {
  }

  /** Every proper prefix of a value's text is scanned to exactly its length. */
  lemma {:induction false} CutValue(v: Json, s: string, cut: string)
    requires WellFormed(v) && s + cut == Render(v) && cut != ""
    ensures AfterValue(s) == Done("")
    decreases v, 1
  {
    hide AfterElements, AfterMembers, AfterString, AfterScalar;
    if s != "" {
      RenderStart(v);
      assert s[0] == Render(v)[0];
      assert s[1..] + cut == Render(v)[1..];
      match v
      case Lit(text) => CutScalar(text, s, cut);
      case Num(n) => NumStart(n); CutScalar(Dec(n), s, cut);
      case Str(body) => CutString(body, s, cut);
      case Arr(gap, elems) =>
        assert Render(v)[1..] == gap + RenderElems(elems);
        CutArray(gap, elems, s[1..], cut);
      case Obj(gap, members) =>
        assert Render(v)[1..] == gap + RenderMembers(members);
        CutObject(gap, members, s[1..], cut);
    }
  }

  /** A cut in or behind a value: after the value and white space nothing is left,
      or only a piece of what follows. */
  lemma {:induction false} CutBehindValue(w: string, v: Json, after: string, tail: string, x: string, cut: string)
    returns (left: string)
    requires AllSpace(w) && WellFormed(v) && AllSpace(after) && tail != "" && IsDelimiter(tail[0])
    requires x + cut == w + (Render(v) + (after + tail)) && cut != ""
    ensures AfterValue(x).Done? && AfterWs(AfterValue(x).value) == left
    ensures left == "" || left + cut == tail
    ensures |x| > |w| ==> AfterWs(x) != "" && AfterWs(x)[0] == Render(v)[0]
    ensures |x| <= |w| ==> AfterWs(x) == ""
    decreases v, 2
  {
    hide AfterElements, AfterMembers, AfterScalar, Render, WellFormed;
    PrefixCases(x, cut, w, Render(v) + (after + tail));
    if |x| <= |w| {
      assert forall i :: 0 <= i < |x| ==> x[i] == (x + cut)[i] == w[i];
      AfterSpaces(x);
      return "";
    }
    var y := x[|w|..];
    RenderStart(v);
    assert y[0] == (y + cut)[0] == Render(v)[0];
    ValueAfterSpaces(w, y);
    AfterWsAt(w, y);
    PrefixCases(y, cut, Render(v), after + tail);
    if |y| < |Render(v)| {
      CutValue(v, y, Render(v)[|y|..]);
      return "";
    }
    var z := y[|Render(v)|..];
    ValueScan(v, z);
    left := CutRemainder(v, after, tail, z, cut);
  }

  lemma CutRemainder(v: Json, after: string, tail: string, z: string, cut: string) returns (left: string)
    requires AllSpace(after) && tail != "" && IsDelimiter(tail[0]) && z + cut == after + tail && cut != ""
    ensures AfterWs(Remainder(v, z)) == left
    ensures left == "" || left + cut == tail
  {
    PrefixCases(z, cut, after, tail);
    if |z| <= |after| {
      assert forall i :: 0 <= i < |z| ==> z[i] == (z + cut)[i] == after[i];
      AfterSpaces(z);
      ScalarScan(z, "");
      assert z + "" == z;
      return "";
    }
    left := z[|after|..];
    assert left[0] == (left + cut)[0] == tail[0];
    NextDelimiter(v, after, left);
  }

  lemma {:induction false} CutArray(gap: string, es: seq<Elem>, s: string, cut: string)
    requires AllSpace(gap) && WellFormedElems(es) && s + cut == gap + RenderElems(es) && cut != ""
    ensures AfterElements(s) == Done("")
    decreases es, 1
  {
    if es == [] {
      assert forall i :: 0 <= i < |s| ==> s[i] == (s + cut)[i] == gap[i];
      AfterSpaces(s);
    } else {
      CutElems(gap, es, s, cut);
    }
  }

  lemma {:induction false} CutElems(gap: string, es: seq<Elem>, s: string, cut: string)
    requires es != [] && AllSpace(gap) && WellFormedElems(es)
    requires s + cut == gap + RenderElems(es) && cut != ""
    ensures AfterElements(s) == Done("")
    decreases es, 0
  {
    hide AfterValue, AfterElements, AfterWs, Render, RenderElems, AllSpace;
    if s == "" {
      NothingLeft();
      return;
    }
    var e := es[0];
    var w := gap + e.before;
    SpacesJoin(gap, e.before);
    ElemsParts(gap, es);
    var left := CutBehindValue(w, e.value, e.after, ElemsTail(es), s, cut);
    RenderStart(e.value);
    ValueIgnoresSpaces(s);
    if |s| <= |w| {
      OnlySpacesElements(s);
      return;
    }
    ElementStep(s, AfterWs(s), AfterValue(s).value, left);
    if left != "" {
      CutFront(left, cut, ElemsTail(es));
      if |es| > 1 {
        CutElems("", es[1..], left[1..], cut);
      }
    }
  }

  lemma OnlySpacesElements(s: string)
    requires AfterWs(s) == ""
    ensures AfterElements(s) == Done("")
  {
  }

  lemma {:induction false} ElemsParts(gap: string, es: seq<Elem>)
    requires es != []
    ensures gap + RenderElems(es) == (gap + es[0].before) + (Render(es[0].value) + (es[0].after + ElemsTail(es)))
    ensures ElemsTail(es) != "" && IsDelimiter(ElemsTail(es)[0]) && (|es| == 1 ==> ElemsTail(es) == "]")
    ensures |es| > 1 ==> ElemsTail(es)[0] == ',' && ElemsTail(es)[1..] == "" + RenderElems(es[1..])
  {
    hide Render, ElemsTail;
    FourBehind(gap, es[0].before, Render(es[0].value), es[0].after, ElemsTail(es));
    ElemsTailStart(es);
  }

  lemma FourBehind(gap: string, a: string, b: string, c: string, d: string)
    ensures gap + (a + b + c + d) == (gap + a) + (b + (c + d))
  {
  }

  lemma ElemsTailStart(es: seq<Elem>)
    requires es != []
    ensures ElemsTail(es) != "" && IsDelimiter(ElemsTail(es)[0]) && (|es| == 1 ==> ElemsTail(es) == "]")
    ensures |es| > 1 ==> ElemsTail(es)[0] == ',' && ElemsTail(es)[1..] == "" + RenderElems(es[1..])
  {
  }

  lemma {:induction false} CutObject(gap: string, ms: seq<Member>, s: string, cut: string)
    requires AllSpace(gap) && WellFormedMembers(ms) && s + cut == gap + RenderMembers(ms) && cut != ""
    ensures AfterMembers(s) == Done("")
    decreases ms, 1
  {
    if ms == [] {
      assert forall i :: 0 <= i < |s| ==> s[i] == (s + cut)[i] == gap[i];
      AfterSpaces(s);
    } else {
      CutMembers(gap, ms, s, cut);
    }
  }

  /** A cut in or behind a key: either nothing is left after it, or a piece of what follows. */
  lemma CutKey(m: Member, x: string, t: string, cut: string)
    requires ValidBody(m.key) && AllSpace(m.colonBefore) && cut != ""
    requires t + cut == Quoted(m.key) + m.colonBefore + ":" + x
    ensures AfterKey(t) == "" || AfterKey(t) + cut == x
  {
    hide AfterString, Quoted, AllSpace, ValidBody;
    var colon := ":" + x;
    assert t + cut == Quoted(m.key) + (m.colonBefore + colon);
    PrefixCases(t, cut, Quoted(m.key), m.colonBefore + colon);
    if |t| < |Quoted(m.key)| {
      CutString(m.key, t, Quoted(m.key)[|t|..]);
      return;
    }
    var y := t[|Quoted(m.key)|..];
    StringScan(m.key, y);
    PrefixCases(y, cut, m.colonBefore, colon);
    if |y| <= |m.colonBefore| {
      CutSpaces(y, cut, m.colonBefore, colon);
      AfterSpaces(y);
      return;
    }
    var z := y[|m.colonBefore|..];
    CutFront(z, cut, colon);
    AfterWsAt(m.colonBefore, z);
  }

  lemma {:induction false} CutMembers(gap: string, ms: seq<Member>, s: string, cut: string)
    requires ms != [] && AllSpace(gap) && WellFormedMembers(ms)
    requires s + cut == gap + RenderMembers(ms) && cut != ""
    ensures AfterMembers(s) == Done("")
    decreases ms, 0
  {
    hide AfterValue, AfterMembers, AfterWs, AfterKey, KeyText, Render, RenderMembers, Quoted, AllSpace;
    var m, w := ms[0], gap + ms[0].before;
    KeyTextStart(ms);
    SpacesJoin(gap, m.before);
    assert s + cut == w + KeyText(ms);
    PrefixCases(s, cut, w, KeyText(ms));
    if |s| <= |w| {
      CutSpaces(s, cut, w, KeyText(ms));
      OnlySpaces(s);
      return;
    }
    var t := s[|w|..];
    CutFront(t, cut, KeyText(ms));
    AfterWsAt(w, t);
    var x := m.colonAfter + (Render(m.value) + (m.after + MembersTail(ms)));
    KeyTextShape(ms, "");
    assert KeyText(ms) + "" == KeyText(ms) && MembersTail(ms) + "" == MembersTail(ms);
    CutKey(m, x, t, cut);
    if AfterKey(t) == "" {
      KeyOfNothing();
      MemberStep(s, t, "", "", "");
      return;
    }
    TailStart(ms);
    var left := CutBehindValue(m.colonAfter, m.value, m.after, MembersTail(ms), AfterKey(t), cut);
    MemberStep(s, t, AfterKey(t), AfterValue(AfterKey(t)).value, left);
    if left != "" {
      CutFront(left, cut, MembersTail(ms));
      if |ms| > 1 {
        CutMembers("", ms[1..], left[1..], cut);
      }
    }
  }

  /** A prefix starts like the whole, and stays a prefix behind its first character. */
  lemma CutFront(s: string, cut: string, whole: string)
    requires s != "" && s + cut == whole
    ensures s[0] == whole[0] && s[1..] + cut == whole[1..]
  {
  }

  lemma CutSpaces(s: string, cut: string, w: string, rest: string)
    requires s + cut == w + rest && |s| <= |w| && AllSpace(w)
    ensures AllSpace(s)
  {
    assert forall i :: 0 <= i < |s| ==> s[i] == (s + cut)[i] == w[i];
  }

  lemma SpacesJoin(a: string, b: string)
    requires AllSpace(a) && AllSpace(b)
    ensures AllSpace(a + b) && AllSpace("")
  {
  }

  lemma TailStart(ms: seq<Member>)
    requires ms != []
    ensures MembersTail(ms) != "" && IsDelimiter(MembersTail(ms)[0]) && (|ms| == 1 ==> MembersTail(ms) == "}")
    ensures |ms| > 1 ==> MembersTail(ms)[0] == ',' && MembersTail(ms)[1..] == "" + RenderMembers(ms[1..])
  {
  }

  lemma OnlySpaces(s: string)
    requires AllSpace(s)
    ensures AfterMembers(s) == Done("")
  {
    hide AfterValue;
    AfterSpaces(s);
    KeyOfNothing();
  }

  lemma KeyOfNothing()
    ensures AfterKey("") == "" && AfterValue("") == Done("") && AfterWs("") == ""
  {
  }

  lemma KeyTextStart(ms: seq<Member>)
    requires ms != []
    ensures KeyText(ms) != "" && KeyText(ms)[0] == '"'
    ensures RenderMembers(ms) == ms[0].before + KeyText(ms)
  {
  }

  /** From the start of a truncated value the scan terminates, and the position it
      returns is the length of the text. */
  lemma {:induction false} TruncatedEnd(v: Json, text: string, cut: string, end: nat)
    requires WellFormed(v) && text + cut == Render(v) && cut != ""
    ensures AfterValue(text).Done?
    ensures Lands(text, 0, end, AfterValue(text).value) ==> end == |text|
  {
    CutValue(v, text, cut);
  }
}
