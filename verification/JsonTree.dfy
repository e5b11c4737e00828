/** JSON values with the white space between their tokens, and their texts
    (sections 2 to 7 of RFC 8259). This is the reference that the scanner has to
    agree with; nothing here comes from the scanner. */
module JsonTree {
  import opened Text

  datatype Json =
    | Lit(text: string)                         // true, false, null, a number with a fraction or exponent
    | Num(n: int)                               // an integer
    | Str(body: string)                         // the characters between the quotes, escapes included
    | Arr(gap: string, elems: seq<Elem>)        // gap: white space after the bracket
    | Obj(gap: string, members: seq<Member>)
  {
    predicate IsScalar() {
      Lit? || Num?
    }
  }

  datatype Elem = Elem(before: string, value: Json, after: string)

  datatype Member = Member(before: string, key: string, colonBefore: string, colonAfter: string,
                           value: Json, after: string)

  // ------------------------------------------------------------ well-formedness

  /** No bare quote, and every backslash has a character after it. */
  predicate ValidBody(body: string) {
    body == ""
    || (body[0] == '\\' && |body| >= 2 && ValidBody(body[2..]))
    || (body[0] != '\\' && body[0] != '"' && ValidBody(body[1..]))
  }

  /** What a scalar may look like: it begins like no other token and holds no delimiter. */
  predicate ValidLit(text: string) {
    && text != ""
    && !IsSpace(text[0]) && text[0] != '"' && text[0] != '{' && text[0] != '['
    && ',' !in text && '}' !in text && ']' !in text
  }

  predicate WellFormed(v: Json)
    decreases v
  {
    match v
    case Lit(text) => ValidLit(text)
    case Num(n) => true
    case Str(body) => ValidBody(body)
    case Arr(gap, elems) => AllSpace(gap) && WellFormedElems(elems)
    case Obj(gap, members) => AllSpace(gap) && WellFormedMembers(members)
  }

  predicate WellFormedElems(es: seq<Elem>)
    decreases es
  {
    es == []
    || (AllSpace(es[0].before) && WellFormed(es[0].value) && AllSpace(es[0].after) && WellFormedElems(es[1..]))
  }

  predicate WellFormedMembers(ms: seq<Member>)
    decreases ms
  {
    ms == []
    || (&& AllSpace(ms[0].before) && ValidBody(ms[0].key) && AllSpace(ms[0].colonBefore)
        && AllSpace(ms[0].colonAfter) && WellFormed(ms[0].value) && AllSpace(ms[0].after)
        && WellFormedMembers(ms[1..]))
  }

  // ------------------------------------------------------------------- printing

  function Render(v: Json): string
    decreases v
  {
    match v
    case Lit(text) => text
    case Num(n) => Dec(n)
    case Str(body) => Quoted(body)
    case Arr(gap, elems) => "[" + gap + RenderElems(elems)
    case Obj(gap, members) => "{" + gap + RenderMembers(members)
  }

  /** The elements and the closing bracket. */
  function RenderElems(es: seq<Elem>): string
    decreases es
  {
    if es == [] then "]"
    else es[0].before + Render(es[0].value) + es[0].after + ElemsTail(es)
  }

  function ElemsTail(es: seq<Elem>): string
    requires es != []
    decreases es, 0
  {
    if |es| == 1 then "]" else "," + RenderElems(es[1..])
  }

  /** The members and the closing brace. */
  function RenderMembers(ms: seq<Member>): string
    decreases ms, 2
  {
    if ms == [] then "}" else ms[0].before + KeyText(ms)
  }

  /** From the first member's key on. */
  function KeyText(ms: seq<Member>): string
    requires ms != []
    decreases ms, 1
  {
    Quoted(ms[0].key) + ms[0].colonBefore + ":" + ms[0].colonAfter
    + Render(ms[0].value) + ms[0].after + MembersTail(ms)
  }

  function MembersTail(ms: seq<Member>): string
    requires ms != []
    decreases ms, 0
  {
    if |ms| == 1 then "}" else "," + RenderMembers(ms[1..])
  }

  // ---------------------------------------------------------------------- bytes

  /** Literals, keys and strings are bytes. */
  predicate ByteTree(v: Json)
    decreases v
  {
    match v
    case Lit(text) => IsBytes(text)
    case Num(n) => true
    case Str(body) => IsBytes(body)
    case Arr(gap, elems) => ByteElems(elems)
    case Obj(gap, members) => ByteMembers(members)
  }

  predicate ByteElems(es: seq<Elem>)
    decreases es
  {
    es == [] || (ByteTree(es[0].value) && ByteElems(es[1..]))
  }

  predicate ByteMembers(ms: seq<Member>)
    decreases ms
  {
    ms == [] || (IsBytes(ms[0].key) && ByteTree(ms[0].value) && ByteMembers(ms[1..]))
  }

  lemma BytesJoin(a: string, b: string)
    requires IsBytes(a) && IsBytes(b)
    ensures IsBytes(a + b)
  {
  }

  lemma SpaceBytes(s: string)
    requires AllSpace(s)
    ensures IsBytes(s)
  {
  }

  lemma Marks()
    ensures IsBytes("[") && IsBytes("]") && IsBytes("{") && IsBytes("}") && IsBytes(",") && IsBytes(":") && IsBytes("\"")
  {
  }

  lemma QuotedBytes(body: string)
    requires IsBytes(body)
    ensures IsBytes(Quoted(body))
  {
  }

  lemma DecBytes(n: int)
    ensures IsBytes(Dec(n))
  {
  }

  /** A tree of bytes prints to bytes. */
  lemma {:induction false} RenderBytes(v: Json)
    requires WellFormed(v) && ByteTree(v)
    ensures IsBytes(Render(v))
    decreases v, 0
  {
    hide IsBytes, AllSpace;
    Marks();
    match v
    case Lit(text) =>
    case Num(n) => DecBytes(n);
    case Str(body) => QuotedBytes(body);
    case Arr(gap, es) =>
      SpaceBytes(gap);
      ElemsBytes(es);
      BytesJoin("[", gap);
      BytesJoin("[" + gap, RenderElems(es));
    case Obj(gap, ms) =>
      SpaceBytes(gap);
      MembersBytes(ms);
      BytesJoin("{", gap);
      BytesJoin("{" + gap, RenderMembers(ms));
  }

  lemma {:induction false} ElemsBytes(es: seq<Elem>)
    requires WellFormedElems(es) && ByteElems(es)
    ensures IsBytes(RenderElems(es))
    decreases es, 0
  {
    hide IsBytes, AllSpace, Render, WellFormed, ByteTree;
    Marks();
    if es != [] {
      var e := es[0];
      RenderBytes(e.value);
      SpaceBytes(e.before);
      SpaceBytes(e.after);
      ElemsBytes(es[1..]);
      BytesJoin(",", RenderElems(es[1..]));
      BytesJoin(e.before, Render(e.value));
      BytesJoin(e.before + Render(e.value), e.after);
      BytesJoin(e.before + Render(e.value) + e.after, ElemsTail(es));
    }
  }

  lemma {:induction false} MembersBytes(ms: seq<Member>)
    requires WellFormedMembers(ms) && ByteMembers(ms)
    ensures IsBytes(RenderMembers(ms))
    decreases ms, 0
  {
    hide IsBytes, AllSpace, Render, WellFormed, ByteTree;
    Marks();
    if ms != [] {
      var m := ms[0];
      RenderBytes(m.value);
      SpaceBytes(m.before);
      SpaceBytes(m.colonBefore);
      SpaceBytes(m.colonAfter);
      SpaceBytes(m.after);
      QuotedBytes(m.key);
      MembersBytes(ms[1..]);
      BytesJoin(",", RenderMembers(ms[1..]));
      var a := Quoted(m.key) + m.colonBefore;
      BytesJoin(Quoted(m.key), m.colonBefore);
      BytesJoin(a, ":");
      BytesJoin(a + ":", m.colonAfter);
      BytesJoin(a + ":" + m.colonAfter, Render(m.value));
      BytesJoin(a + ":" + m.colonAfter + Render(m.value), m.after);
      BytesJoin(a + ":" + m.colonAfter + Render(m.value) + m.after, MembersTail(ms));
      BytesJoin(m.before, KeyText(ms));
    }
  }
}
