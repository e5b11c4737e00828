/** When a lookup is right, in terms of the tree: the lookups search for quoted text, so a
    name must show up as a key before it shows up inside a value. */
module JsonMentions {
  import opened Wrappers
  import opened Text
  import opened JsonScan
  import opened JsonTree
  import opened JsonScanProofs
  import opened JsonLookup

  // ------------------------------------------------------------------- definitions

  /** The quoted name shows up in the quoted text of a key or string: it is the name itself, or it ends with
      an escaped quote and the name, so that the closing quotes coincide. */
  predicate Shows(body: string, k: string) {
    body == k || (|body| > |k| && body[|body| - |k| - 1..] == "\"" + k)
  }

  /** Some key or string of a value shows the name. */
  predicate Mentions(v: Json, k: string)
    decreases v
  {
    match v
    case Str(body) => Shows(body, k)
    case Arr(gap, elems) => ElemsMention(elems, k)
    case Obj(gap, members) => MembersMention(members, k)
    case _ => false
  }

  predicate ElemsMention(es: seq<Elem>, k: string)
    decreases es
  {
    es != [] && (Mentions(es[0].value, k) || ElemsMention(es[1..], k))
  }

  predicate MembersMention(ms: seq<Member>, k: string)
    decreases ms
  {
    ms != [] && (Shows(ms[0].key, k) || Mentions(ms[0].value, k) || MembersMention(ms[1..], k))
  }

  /** Literals hold no quotes, like those of section 3 of RFC 8259. */
  predicate PlainLits(v: Json)
    decreases v
  {
    match v
    case Lit(text) => '"' !in text
    case Arr(gap, elems) => PlainLitsElems(elems)
    case Obj(gap, members) => PlainLitsMembers(members)
    case _ => true
  }

  predicate PlainLitsElems(es: seq<Elem>)
    decreases es
  {
    es == [] || (PlainLits(es[0].value) && PlainLitsElems(es[1..]))
  }

  predicate PlainLitsMembers(ms: seq<Member>)
    decreases ms
  {
    ms == [] || (PlainLits(ms[0].value) && PlainLitsMembers(ms[1..]))
  }

  /** A name that needs no escapes and cannot be mistaken for the text between two strings. */
  predicate IsName(k: string) {
    k != "" && '"' !in k && '\\' !in k && !IsSpace(k[0]) && !IsDelimiter(k[0]) && k[0] != ':'
  }

  /** In document order, `k` is a key of the object before any other key or any value shows it. */
  predicate KeyLeads(ms: seq<Member>, k: string) {
    ms == [] || ms[0].key == k || (!Shows(ms[0].key, k) && !Mentions(ms[0].value, k) && KeyLeads(ms[1..], k))
  }

  // ------------------------------------------------------------ where mentions can start

  /** No mention of `k` starts in `s` when `t` follows. */
  ghost predicate NoStart(s: string, t: string, k: string) {
    forall p :: 0 <= p < |s| ==> !OccursAt(s + t, Quoted(k), p)
  }

  predicate Behind(t: string, k: string)
    requires k != ""
  {
    t == "" || t[0] != k[0]
  }

  lemma OccursShift(a: string, b: string, pat: string, p: int)
    requires p >= |a|
    ensures OccursAt(a + b, pat, p) <==> OccursAt(b, pat, p - |a|)
  {
  }

  lemma NoStartJoin(a: string, b: string, t: string, k: string)
    requires NoStart(a, b + t, k) && NoStart(b, t, k)
    ensures NoStart(a + b, t, k)
  {
    hide OccursAt, Quoted;
    assert (a + b) + t == a + (b + t);
    forall p | 0 <= p < |a + b| ensures !OccursAt((a + b) + t, Quoted(k), p) {
      if p >= |a| {
        OccursShift(a, b + t, Quoted(k), p);
      }
    }
  }

  /** An occurrence shows its characters. */
  lemma OccursChar(s: string, pat: string, p: nat, i: nat)
    requires i < |pat|
    ensures OccursAt(s, pat, p) ==> p + i < |s| && s[p + i] == pat[i]
  {
  }

  lemma NoQuote(s: string, t: string, k: string)
    requires '"' !in s
    ensures NoStart(s, t, k)
  {
    forall p | 0 <= p < |s| ensures !OccursAt(s + t, Quoted(k), p) {
      assert s[p] in s && (s + t)[p] == s[p];
      OccursChar(s + t, Quoted(k), p, 0);
    }
  }

  lemma SpaceNoQuote(s: string)
    requires AllSpace(s)
    ensures '"' !in s
  {
  }

  /** A quote inside a body is escaped. */
  lemma {:induction false} QuoteEscaped(body: string, i: nat)
    requires ValidBody(body) && i < |body| && body[i] == '"'
    ensures i > 0 && body[i - 1] == '\\'
  {
    if body[0] == '\\' {
      if i >= 2 {
        QuoteEscaped(body[2..], i - 2);
      }
    } else {
      QuoteEscaped(body[1..], i - 1);
    }
  }

  /** A string that does not show the name holds no mention, and its closing quote begins none. */
  lemma OtherString(body: string, t: string, k: string)
    requires ValidBody(body) && IsName(k) && !Shows(body, k) && Behind(t, k)
    ensures NoStart(Quoted(body), t, k)
  {
    hide ValidBody, Shows;
    var s, pat := Quoted(body) + t, Quoted(k);
    forall p | 0 <= p < |Quoted(body)| ensures !OccursAt(s, pat, p) {
      if p == |body| + 1 {
        OccursChar(s, pat, p, 1);
      } else if OccursAt(s, pat, p) {
        OpenedHere(body, t, k, p);
      }
    }
  }

  /** A mention that starts in front of the closing quote ends with it. */
  lemma OpenedHere(body: string, t: string, k: string, p: nat)
    requires ValidBody(body) && IsName(k) && p <= |body| && OccursAt(Quoted(body) + t, Quoted(k), p)
    ensures Shows(body, k)
  {
    hide ValidBody, OccursAt;
    var s, pat := Quoted(body) + t, Quoted(k);
    OccursChar(s, pat, p, |k| + 1);
    if p + |k| < |body| {
      assert body[p + |k|] == '"';
      QuoteEscaped(body, p + |k|);
      OccursChar(s, pat, p, |k|);
    } else if p + |k| > |body| {
      OccursChar(s, pat, p, |body| + 1 - p);
    } else {
      forall i | 0 <= i < |k| ensures body[p + i] == k[i] {
        OccursChar(s, pat, p, i + 1);
      }
      assert body[p..] == k;
      if p > 0 {
        OccursChar(s, pat, p, 0);
        assert body[p - 1] == '"' && body[p - 1..] == [body[p - 1]] + body[p..];
      }
    }
  }

  lemma BehindSpaces(w: string, rest: string, k: string)
    requires AllSpace(w) && IsName(k) && rest != "" && (IsDelimiter(rest[0]) || rest[0] == ':')
    ensures Behind(w + rest, k)
  {
  }

  /** A value between white space, in front of a tail. */
  lemma ValueParts(a: string, b: string, c: string, d: string, t: string, k: string)
    requires '"' !in a && '"' !in c && NoStart(b, c + (d + t), k) && NoStart(d, t, k)
    ensures NoStart(a + (b + (c + d)), t, k)
  {
    hide NoStart;
    NoQuote(c, d + t, k);
    NoStartJoin(c, d, t, k);
    assert c + (d + t) == (c + d) + t;
    NoStartJoin(b, c + d, t, k);
    NoQuote(a, (b + (c + d)) + t, k);
    NoStartJoin(a, b + (c + d), t, k);
  }

  // ------------------------------------------------------------------- no mention at all

  lemma {:induction false} NoMention(v: Json, t: string, k: string)
    requires WellFormed(v) && PlainLits(v) && IsName(k) && !Mentions(v, k) && Behind(t, k)
    ensures NoStart(Render(v), t, k)
    decreases v, 1
  {
    hide NoStart;
    match v
    case Lit(text) => NoQuote(text, t, k);
    case Num(n) => NoQuote(Dec(n), t, k);
    case Str(body) => OtherString(body, t, k);
    case Arr(gap, es) =>
      NoMentionElems(es, t, k);
      SpaceNoQuote(gap);
      NoQuote("[" + gap, RenderElems(es) + t, k);
      NoStartJoin("[" + gap, RenderElems(es), t, k);
    case Obj(gap, ms) =>
      NoMentionMembers(ms, t, k);
      SpaceNoQuote(gap);
      NoQuote("{" + gap, RenderMembers(ms) + t, k);
      NoStartJoin("{" + gap, RenderMembers(ms), t, k);
  }

  lemma {:induction false} NoMentionElems(es: seq<Elem>, t: string, k: string)
    requires WellFormedElems(es) && PlainLitsElems(es) && IsName(k) && !ElemsMention(es, k) && Behind(t, k)
    ensures NoStart(RenderElems(es), t, k)
    decreases es, 0
  {
    hide NoStart, Render, PlainLits, WellFormed, Mentions;
    if es == [] {
      NoQuote("]", t, k);
    } else {
      var e := es[0];
      ElemsTailClean(es, t, k);
      SpaceNoQuote(e.before);
      SpaceNoQuote(e.after);
      BehindSpaces(e.after, ElemsTail(es) + t, k);
      NoMention(e.value, e.after + (ElemsTail(es) + t), k);
      ValueParts(e.before, Render(e.value), e.after, ElemsTail(es), t, k);
      ElemsText(es);
    }
  }

  lemma {:induction false} ElemsTailClean(es: seq<Elem>, t: string, k: string)
    requires es != [] && WellFormedElems(es) && PlainLitsElems(es) && IsName(k) && !ElemsMention(es, k) && Behind(t, k)
    ensures NoStart(ElemsTail(es), t, k)
    ensures ElemsTail(es) != "" && IsDelimiter((ElemsTail(es) + t)[0])
    decreases es[1..], 1
  {
    hide NoStart, Render, RenderElems, PlainLits, WellFormed, Mentions;
    if |es| == 1 {
      NoQuote("]", t, k);
    } else {
      NoMentionElems(es[1..], t, k);
      NoQuote(",", RenderElems(es[1..]) + t, k);
      NoStartJoin(",", RenderElems(es[1..]), t, k);
    }
  }

  lemma ElemsText(es: seq<Elem>)
    requires es != []
    ensures RenderElems(es) == es[0].before + (Render(es[0].value) + (es[0].after + ElemsTail(es)))
  {
  }

  /** From the key to the value. */
  function Colon(m: Member): string {
    m.colonBefore + ":" + m.colonAfter
  }

  lemma MembersInParts(ms: seq<Member>)
    requires ms != []
    ensures RenderMembers(ms) == ms[0].before + (Quoted(ms[0].key)
                               + (Colon(ms[0]) + (Render(ms[0].value) + (ms[0].after + MembersTail(ms)))))
    ensures KeyText(ms) == Quoted(ms[0].key) + (Colon(ms[0]) + (Render(ms[0].value) + (ms[0].after + MembersTail(ms))))
  {
    hide Render, MembersTail, Quoted;
  }

  lemma ColonClean(m: Member, rest: string, k: string)
    requires AllSpace(m.colonBefore) && AllSpace(m.colonAfter) && IsName(k)
    ensures '"' !in Colon(m) && Behind(Colon(m) + rest, k)
  {
  }

  /** A member that is not and does not hold `k`, in front of a tail without mention. */
  lemma MemberClean(m: Member, tail: string, t: string, k: string)
    requires AllSpace(m.before) && AllSpace(m.colonBefore) && AllSpace(m.colonAfter) && AllSpace(m.after)
    requires ValidBody(m.key) && !Shows(m.key, k) && IsName(k) && tail != "" && IsDelimiter(tail[0])
    requires NoStart(Render(m.value), m.after + (tail + t), k) && NoStart(tail, t, k)
    ensures NoStart(m.before + (Quoted(m.key) + (Colon(m) + (Render(m.value) + (m.after + tail)))), t, k)
  {
    hide NoStart, Render, Quoted, Colon, IsName, IsDelimiter;
    var value := Render(m.value);
    var rest := value + (m.after + tail);
    ColonClean(m, rest + t, k);
    SpaceNoQuote(m.before);
    SpaceNoQuote(m.after);
    ValueParts(Colon(m), value, m.after, tail, t, k);
    assert Colon(m) + (rest + t) == (Colon(m) + rest) + t;
    OtherString(m.key, (Colon(m) + rest) + t, k);
    NoStartJoin(Quoted(m.key), Colon(m) + rest, t, k);
    NoQuote(m.before, (Quoted(m.key) + (Colon(m) + rest)) + t, k);
    NoStartJoin(m.before, Quoted(m.key) + (Colon(m) + rest), t, k);
  }

  lemma {:induction false} NoMentionMembers(ms: seq<Member>, t: string, k: string)
    requires WellFormedMembers(ms) && PlainLitsMembers(ms) && IsName(k) && !MembersMention(ms, k) && Behind(t, k)
    ensures NoStart(RenderMembers(ms), t, k)
    decreases ms, 0
  {
    hide NoStart, Render, PlainLits, WellFormed, Mentions, Quoted, MembersTail;
    if ms == [] {
      NoQuote("}", t, k);
    } else {
      var m := ms[0];
      MembersTailClean(ms, t, k);
      TailDelimiter(ms);
      BehindSpaces(m.after, MembersTail(ms) + t, k);
      NoMention(m.value, m.after + (MembersTail(ms) + t), k);
      MemberClean(m, MembersTail(ms), t, k);
      MembersInParts(ms);
    }
  }

  lemma {:induction false} MembersTailClean(ms: seq<Member>, t: string, k: string)
    requires ms != [] && WellFormedMembers(ms) && PlainLitsMembers(ms) && IsName(k) && !MembersMention(ms, k) && Behind(t, k)
    ensures NoStart(MembersTail(ms), t, k)
    decreases ms[1..], 1
  {
    hide NoStart, Render, RenderMembers, PlainLits, WellFormed, Mentions;
    if |ms| == 1 {
      NoQuote("}", t, k);
    } else {
      NoMentionMembers(ms[1..], t, k);
      NoQuote(",", RenderMembers(ms[1..]) + t, k);
      NoStartJoin(",", RenderMembers(ms[1..]), t, k);
    }
  }

  // ---------------------------------------------------------------- the first key `k`

  /** Up to the first key `k`, when nothing in front of it mentions `k`. */
  lemma {:induction false} FrontClean(ms: seq<Member>, i: nat, k: string) returns (front: string)
    requires WellFormedMembers(ms) && PlainLitsMembers(ms) && IsName(k) && i < |ms| && ms[i].key == k
    requires forall j :: 0 <= j < i ==> !Shows(ms[j].key, k) && !Mentions(ms[j].value, k)
    ensures RenderMembers(ms) == front + KeyText(ms[i..]) && NoStart(front, KeyText(ms[i..]), k)
    decreases ms
  {
    hide NoStart, Render, PlainLits, WellFormed, Mentions, Quoted, KeyText;
    var m := ms[0];
    if i == 0 {
      assert ms[0..] == ms;
      SpaceNoQuote(m.before);
      NoQuote(m.before, KeyText(ms), k);
      return m.before;
    }
    assert forall j :: 0 <= j < i - 1 ==> ms[1..][j] == ms[j + 1];
    var more := FrontClean(ms[1..], i - 1, k);
    var t := KeyText(ms[i..]);
    assert ms[1..][i - 1..] == ms[i..];
    var tail := "," + more;
    assert MembersTail(ms) == tail + t;
    NoQuote(",", more + t, k);
    NoStartJoin(",", more, t, k);
    BehindSpaces(m.after, tail + t, k);
    NoMention(m.value, m.after + (tail + t), k);
    MemberClean(m, tail, t, k);
    MembersInParts(ms);
    front := m.before + (Quoted(m.key) + (Colon(m) + (Render(m.value) + (m.after + tail))));
    SixParts(m.before, Quoted(m.key), Colon(m), Render(m.value), m.after, tail, t);
  }

  lemma SixParts(a: string, b: string, c: string, d: string, e: string, f: string, t: string)
    ensures a + (b + (c + (d + (e + (f + t))))) == (a + (b + (c + (d + (e + f))))) + t
  {
  }

  lemma FoundFirst(s: string, front: string, rest: string, k: string)
    requires s == front + rest && NoStart(front, rest, k) && OccursAt(rest, Quoted(k), 0)
    ensures FindText(s, Quoted(k)) == Some(|front|)
  {
    hide FindText, Quoted;
    OccursShift(front, rest, Quoted(k), |front|);
  }

  lemma FoundNever(s: string, k: string)
    requires NoStart(s, "", k)
    ensures FindText(s, Quoted(k)) == None
  {
    hide FindText;
    assert s + "" == s;
  }

  /** Where the walk over the members ends. */
  lemma {:induction false} LeadingKey(ms: seq<Member>, k: string) returns (i: nat)
    requires KeyLeads(ms, k)
    ensures i <= |ms| && forall j :: 0 <= j < i ==> !Shows(ms[j].key, k) && !Mentions(ms[j].value, k)
    ensures i < |ms| ==> ms[i].key == k
    ensures i == |ms| ==> !MembersMention(ms, k)
  {
    hide Mentions;
    if ms == [] || ms[0].key == k {
      return 0;
    }
    var n := LeadingKey(ms[1..], k);
    assert forall j :: 1 <= j < n + 1 ==> ms[j] == ms[1..][j - 1];
    i := n + 1;
  }

  lemma ObjectFront(gap: string, rest: string, k: string)
    requires AllSpace(gap)
    ensures NoStart("{" + gap, rest, k)
  {
    hide NoStart;
    SpaceNoQuote(gap);
    NoQuote("{" + gap, rest, k);
  }

  lemma MentionedNowhere(obj: Json, k: string)
    requires obj.Obj? && WellFormed(obj) && PlainLits(obj) && IsName(k) && !MembersMention(obj.members, k)
    ensures FindText(Render(obj), Quoted(k)) == None
  {
    hide NoStart, Mentions, MembersMention, KeyText, RenderMembers, FindText, IsName, Quoted;
    var open, rest := "{" + obj.gap, RenderMembers(obj.members);
    NoMentionMembers(obj.members, "", k);
    ObjectFront(obj.gap, rest + "", k);
    NoStartJoin(open, rest, "", k);
    FoundNever(Render(obj), k);
  }

  lemma MentionedAsKey(obj: Json, k: string, i: nat)
    requires obj.Obj? && WellFormed(obj) && PlainLits(obj) && IsName(k) && i < |obj.members| && obj.members[i].key == k
    requires forall j :: 0 <= j < i ==> !Shows(obj.members[j].key, k) && !Mentions(obj.members[j].value, k)
    ensures FirstMention(obj, k, i)
  {
    hide NoStart, Mentions, Shows, KeyText, RenderMembers, FindText, IsName, Quoted, WellFormedMembers, PlainLitsMembers;
    var open, rest := "{" + obj.gap, KeyText(obj.members[i..]);
    var front := FrontClean(obj.members, i, k);
    ObjectFront(obj.gap, front + rest, k);
    NoStartJoin(open, front, rest, k);
    assert Render(obj) == (open + front) + rest;
    KeyTextKey(obj.members[i..]);
    FoundFirst(Render(obj), open + front, rest, k);
  }

  lemma LeadsThenFirst(obj: Json, k: string)
    requires obj.Obj? && WellFormed(obj) && PlainLits(obj) && IsName(k) && KeyLeads(obj.members, k)
    ensures KeyFirst(obj, k)
  {
    hide WellFormed, PlainLits, Mentions, MembersMention, Shows, Render, FindText, IsName, FirstMention, Quoted;
    var i := LeadingKey(obj.members, k);
    if i == |obj.members| {
      MentionedNowhere(obj, k);
    } else {
      MentionedAsKey(obj, k, i);
      assert FirstMention(obj, k, i);
    }
  }

  // --------------------------------------------------------------- a mention in a value

  lemma OccursInside(a: string, b: string, c: string, pat: string, p: int)
    requires OccursAt(b, pat, p)
    ensures OccursAt(a + (b + c), pat, |a| + p)
  {
  }

  /** What a key or string of a value shows is mentioned in the text. */
  lemma {:induction false} Mentioned(v: Json, k: string) returns (p: nat)
    requires Mentions(v, k)
    ensures OccursAt(Render(v), Quoted(k), p)
    decreases v, 0
  {
    match v
    case Str(body) =>
      p := ShownHere(body, k);
    case Arr(gap, es) =>
      var q := MentionedElems(es, k);
      OccursInside("[" + gap, RenderElems(es), "", Quoted(k), q);
      assert RenderElems(es) + "" == RenderElems(es);
      p := |"[" + gap| + q;
    case Obj(gap, ms) =>
      var q := MentionedMembers(ms, k);
      OccursInside("{" + gap, RenderMembers(ms), "", Quoted(k), q);
      assert RenderMembers(ms) + "" == RenderMembers(ms);
      p := |"{" + gap| + q;
  }

  lemma {:induction false} MentionedElems(es: seq<Elem>, k: string) returns (p: nat)
    requires ElemsMention(es, k)
    ensures OccursAt(RenderElems(es), Quoted(k), p)
    decreases es
  {
    hide OccursAt, Mentions, Render, Quoted;
    var e := es[0];
    ElemsText(es);
    if Mentions(e.value, k) {
      var q := Mentioned(e.value, k);
      OccursInside(e.before, Render(e.value), e.after + ElemsTail(es), Quoted(k), q);
      p := |e.before| + q;
    } else {
      var q := MentionedElems(es[1..], k);
      var front := e.before + Render(e.value) + e.after + ",";
      ElemsRest(es);
      OccursInside(front, RenderElems(es[1..]), "", Quoted(k), q);
      assert RenderElems(es[1..]) + "" == RenderElems(es[1..]);
      p := |front| + q;
    }
  }

  lemma ElemsRest(es: seq<Elem>)
    requires es != [] && es[1..] != []
    ensures RenderElems(es) == (es[0].before + Render(es[0].value) + es[0].after + ",") + RenderElems(es[1..])
  {
  }

  lemma {:induction false} MentionedMembers(ms: seq<Member>, k: string) returns (p: nat)
    requires MembersMention(ms, k)
    ensures OccursAt(RenderMembers(ms), Quoted(k), p)
    decreases ms
  {
    hide OccursAt, Mentions, Render, RenderMembers, Quoted, KeyText;
    var m := ms[0];
    if Shows(m.key, k) {
      p := MentionedKey(ms, k);
    } else if Mentions(m.value, k) {
      var q := Mentioned(m.value, k);
      p := MentionedHere(ms, k, q);
    } else {
      var q := MentionedMembers(ms[1..], k);
      p := MentionedLater(ms, k, q);
    }
  }

  lemma ShownHere(body: string, k: string) returns (p: nat)
    requires Shows(body, k)
    ensures OccursAt(Quoted(body), Quoted(k), p)
  {
    var s := Quoted(body);
    p := |body| - |k|;
    assert body == k ==> p == 0 && s[0..|s|] == s;
    if body != k {
      assert s[p..p + |Quoted(k)|] == body[p - 1..] + "\"";
    }
  }

  lemma MentionedKey(ms: seq<Member>, k: string) returns (p: nat)
    requires ms != [] && Shows(ms[0].key, k)
    ensures OccursAt(RenderMembers(ms), Quoted(k), p) && p < |RenderMembers(ms)| - |MembersTail(ms)|
  {
    hide OccursAt, Render, RenderMembers, Quoted, KeyText, Shows;
    var m := ms[0];
    var q := ShownHere(m.key, k);
    MembersInParts(ms);
    var rest := Colon(m) + (Render(m.value) + (m.after + MembersTail(ms)));
    OccursInside(m.before, Quoted(m.key), rest, Quoted(k), q);
    OccursLength(Quoted(m.key), k, q);
    p := |m.before| + q;
  }

  /** A mention in the later members stays where it is, seen from the end. */
  lemma MentionedLater(ms: seq<Member>, k: string, q: nat) returns (p: nat)
    requires |ms| > 1 && OccursAt(RenderMembers(ms[1..]), Quoted(k), q)
    ensures OccursAt(RenderMembers(ms), Quoted(k), p)
    ensures |RenderMembers(ms)| - p == |RenderMembers(ms[1..])| - q
  {
    hide OccursAt, Render, RenderMembers, Quoted, Colon;
    var m := ms[0];
    var front := m.before + Quoted(m.key) + Colon(m) + Render(m.value) + m.after + ",";
    MembersRest(ms);
    OccursInside(front, RenderMembers(ms[1..]), "", Quoted(k), q);
    assert RenderMembers(ms[1..]) + "" == RenderMembers(ms[1..]);
    p := |front| + q;
  }

  /** A mention in the first member's value lies in front of the tail. */
  lemma MentionedHere(ms: seq<Member>, k: string, q: nat) returns (p: nat)
    requires ms != [] && OccursAt(Render(ms[0].value), Quoted(k), q)
    ensures OccursAt(RenderMembers(ms), Quoted(k), p) && p < |RenderMembers(ms)| - |MembersTail(ms)|
  {
    hide OccursAt, Render, Quoted, KeyText;
    var m := ms[0];
    MembersInParts(ms);
    var front := m.before + (Quoted(m.key) + Colon(m));
    assert RenderMembers(ms) == front + (Render(m.value) + (m.after + MembersTail(ms)));
    OccursInside(front, Render(m.value), m.after + MembersTail(ms), Quoted(k), q);
    p := |front| + q;
    OccursLength(Render(m.value), k, q);
  }

  lemma OccursLength(s: string, k: string, q: nat)
    requires OccursAt(s, Quoted(k), q)
    ensures q < |s|
  {
  }

  lemma MembersRest(ms: seq<Member>)
    requires ms != [] && ms[1..] != []
    ensures RenderMembers(ms)
         == (ms[0].before + Quoted(ms[0].key) + Colon(ms[0]) + Render(ms[0].value) + ms[0].after + ",") + RenderMembers(ms[1..])
  {
    hide Render, RenderMembers, Quoted, Colon;
    var m := ms[0];
    MembersInParts(ms);
    SixLeft(m.before, Quoted(m.key), Colon(m), Render(m.value), m.after, ",", RenderMembers(ms[1..]));
  }

  lemma SixLeft(a: string, b: string, c: string, d: string, e: string, f: string, t: string)
    ensures a + (b + (c + (d + (e + (f + t))))) == (a + b + c + d + e + f) + t
  {
  }

  /** When another key or a value shows `k` first, the text mentions it in front of every key `k`. */
  lemma {:induction false} EarlyMention(ms: seq<Member>, k: string) returns (p: nat, j: nat)
    requires !KeyLeads(ms, k)
    ensures j < |ms| && forall i :: 0 <= i <= j ==> ms[i].key != k
    ensures OccursAt(RenderMembers(ms), Quoted(k), p)
    ensures forall i :: j < i < |ms| ==> p < |RenderMembers(ms)| - |KeyText(ms[i..])|
    decreases ms
  {
    hide OccursAt, Mentions, Render, RenderMembers, Quoted, KeyText;
    var m := ms[0];
    if Shows(m.key, k) || Mentions(m.value, k) {
      if Shows(m.key, k) {
        p := MentionedKey(ms, k);
      } else {
        var q := Mentioned(m.value, k);
        p := MentionedHere(ms, k, q);
      }
      j := 0;
      forall i | 0 < i < |ms| ensures p < |RenderMembers(ms)| - |KeyText(ms[i..])| {
        KeyTextAt(ms[1..], i - 1);
        assert ms[1..][i - 1..] == ms[i..];
        TailLength(ms);
      }
    } else {
      var q, n := EarlyMention(ms[1..], k);
      p := MentionedLater(ms, k, q);
      j := n + 1;
      assert forall i :: 0 < i < |ms| ==> ms[i] == ms[1..][i - 1] && ms[i..] == ms[1..][i - 1..];
    }
  }

  lemma TailLength(ms: seq<Member>)
    requires |ms| > 1
    ensures |MembersTail(ms)| == 1 + |RenderMembers(ms[1..])|
  {
  }

  /** For every object and any name: the first mention in the text is a key of the object, or there
      is none, exactly when the tree has the key first. */
  lemma KeyFirstExactly(obj: Json, k: string)
    requires obj.Obj? && WellFormed(obj) && PlainLits(obj) && IsName(k)
    ensures KeyFirst(obj, k) <==> KeyLeads(obj.members, k)
  {
    hide KeyText, RenderMembers, FindText, OccursAt, Quoted;
    if KeyLeads(obj.members, k) {
      LeadsThenFirst(obj, k);
    } else {
      var ms := obj.members;
      var p, j := EarlyMention(ms, k);
      var open := "{" + obj.gap;
      OccursInside(open, RenderMembers(ms), "", Quoted(k), p);
      assert RenderMembers(ms) + "" == RenderMembers(ms);
      assert Render(obj) == open + RenderMembers(ms);
      forall i: nat ensures !FirstMention(obj, k, i) {
        assert i < |ms| && ms[i].key == k ==> i > j;
      }
    }
  }
}
