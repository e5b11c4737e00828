/** What the textual lookups mean on the texts of JSON trees: members are found and
    arrays are split exactly, provided the first mention of the quoted key is a key. */
module JsonLookup {
  import opened Wrappers
  import opened Text
  import opened JsonScan
  import opened JsonTree
  import opened JsonNumbers
  import opened JsonScanProofs
  import opened JsonExtract
  import opened JsonEscape

  // ------------------------------------------------------- reference semantics

  /** The first member with this key. */
  function Lookup(ms: seq<Member>, k: string): Option<Member> {
    if ms == [] then None
    else if ms[0].key == k then Some(ms[0])
    else Lookup(ms[1..], k)
  }

  function StringMember(obj: Json, k: string): Option<string>
    requires obj.Obj?
  {
    match Lookup(obj.members, k)
    case Some(m) => if m.value.Str? then Some(Unescape(m.value.body, false)) else None
    case None => None
  }

  /** The number that a value is (section 6 of RFC 8259). */
  function NumberOf(v: Json): Option<real> {
    match v
    case Num(n) => Some(n as real)
    case Lit(text) => (match ParseNumber(text) case Some(number) => Some(number.Value()) case None => None)
    case _ => None
  }

  /** What is read of a value as a number: its part in front of fraction and exponent, if that
      fits. A literal that is neither a number nor a name counts as `stoll` reads it. */
  function IntOf(v: Json): Option<int> {
    match v
    case Num(n) => if FitsInt64(n) then Some(n) else None
    case Lit(text) =>
      (match ParseNumber(text)
       case Some(number) => if FitsInt64(number.Whole()) then Some(number.Whole()) else None
       case None => if text in {"true", "false", "null"} then None else Stoll(text))
    case _ => None
  }

  function IntMember(obj: Json, k: string): Option<int>
    requires obj.Obj?
  {
    match Lookup(obj.members, k)
    case Some(m) => IntOf(m.value)
    case None => None
  }

  /** The strings among the elements. */
  function StringItems(es: seq<Elem>): seq<string> {
    if es == [] then []
    else (if es[0].value.Str? then [Unescape(es[0].value.body, false)] else []) + StringItems(es[1..])
  }

  function StringArrayMember(obj: Json, k: string): seq<string>
    requires obj.Obj?
  {
    match Lookup(obj.members, k)
    case Some(m) => if m.value.Arr? then StringItems(m.value.elems) else []
    case None => []
  }

  // -------------------------------------------------------------- text of a key

  /** The position of member `i`'s key in the text of the object. */
  function KeyOffset(obj: Json, i: nat): int
    requires obj.Obj? && i < |obj.members|
  {
    |Render(obj)| - |KeyText(obj.members[i..])|
  }

  /** The first place where the quoted key is mentioned is the key of member `i`. */
  predicate FirstMention(obj: Json, k: string, i: nat)
    requires obj.Obj?
  {
    i < |obj.members| && obj.members[i].key == k
    && KeyOffset(obj, i) >= 0 && FindText(Render(obj), Quoted(k)) == Some(KeyOffset(obj, i))
  }

  /** The quoted key is mentioned nowhere, or first as a member's key. */
  ghost predicate KeyFirst(obj: Json, k: string)
    requires obj.Obj?
  {
    FindText(Render(obj), Quoted(k)).None? || exists i: nat :: FirstMention(obj, k, i)
  }

  /** The position of the colon behind member `i`'s key. */
  function ColonOffset(obj: Json, i: nat): int
    requires obj.Obj? && i < |obj.members|
  {
    KeyOffset(obj, i) + |Quoted(obj.members[i].key)| + |obj.members[i].colonBefore|
  }

  /** The search reads the value of member `i`. */
  predicate Reads(obj: Json, k: string, i: nat)
    requires obj.Obj?
  {
    i < |obj.members| && KeyOffset(obj, i) >= 0 && ReadAt(Render(obj), k) == Some(ColonOffset(obj, i))
  }

  /** The search reads the value of the first member with this key, or none when there is none. Without
      this it may hit a nested member or a string, as it searches the text only. */
  ghost predicate KeyReached(obj: Json, k: string)
    requires obj.Obj?
  {
    || (Lookup(obj.members, k).None? && ReadAt(Render(obj), k).None?)
    || exists i: nat :: FirstMember(obj.members, k, i) && Reads(obj, k, i)
  }

  lemma {:induction false} KeyTextAt(ms: seq<Member>, i: nat)
    requires i < |ms|
    ensures |KeyText(ms[i..])| <= |RenderMembers(ms)|
    ensures i > 0 ==> |KeyText(ms[i..])| < |KeyText(ms)|
    ensures RenderMembers(ms)[|RenderMembers(ms)| - |KeyText(ms[i..])|..] == KeyText(ms[i..])
  {
    hide KeyText;
    if i == 0 {
      assert ms[0..] == ms;
    } else {
      KeyTextAt(ms[1..], i - 1);
      assert ms[1..][i - 1..] == ms[i..];
      var k, more := KeyText(ms), RenderMembers(ms[1..]);
      KeyTextTail(ms);
      assert RenderMembers(ms)[|RenderMembers(ms)| - |more|..] == k[|k| - |more|..] == more;
      var n := |KeyText(ms[i..])|;
      assert more[|more| - n..] == RenderMembers(ms)[|RenderMembers(ms)| - |more|..][|more| - n..];
    }
  }

  lemma KeyTextTail(ms: seq<Member>)
    requires |ms| > 1
    ensures |KeyText(ms)| > |RenderMembers(ms[1..])|
    ensures KeyText(ms)[|KeyText(ms)| - |RenderMembers(ms[1..])|..] == RenderMembers(ms[1..])
  {
  }

  lemma KeyTextInObject(obj: Json, i: nat)
    requires obj.Obj? && i < |obj.members|
    ensures 0 <= KeyOffset(obj, i) && Render(obj)[KeyOffset(obj, i)..] == KeyText(obj.members[i..])
    ensures OccursAt(Render(obj), Quoted(obj.members[i].key), KeyOffset(obj, i))
    ensures i > 0 ==> KeyOffset(obj, 0) < KeyOffset(obj, i)
  {
    hide KeyText, RenderMembers;
    var ms := obj.members;
    KeyTextAt(ms, i);
    assert ms[0..] == ms;
    var body := RenderMembers(ms);
    var p := KeyOffset(obj, i);
    assert Render(obj) == ("{" + obj.gap) + body;
    assert Render(obj)[|Render(obj)| - |body|..] == body;
    assert Render(obj)[p..] == body[|body| - |KeyText(ms[i..])|..];
    KeyTextKey(ms[i..]);
    var q := Quoted(ms[i].key);
    assert Render(obj)[p..p + |q|] == Render(obj)[p..][..|q|];
  }

  lemma KeyTextKey(ms: seq<Member>)
    requires ms != []
    ensures |KeyText(ms)| >= |Quoted(ms[0].key)| && KeyText(ms)[..|Quoted(ms[0].key)|] == Quoted(ms[0].key)
    ensures KeyText(ms)[|Quoted(ms[0].key)|..]
         == ms[0].colonBefore + [':'] + (ms[0].colonAfter + (Render(ms[0].value) + (ms[0].after + MembersTail(ms))))
  {
  }

  lemma {:induction false} MembersAt(ms: seq<Member>, i: nat)
    requires WellFormedMembers(ms) && i < |ms|
    ensures WellFormedMembers(ms[i..])
  {
    if i == 0 {
      assert ms[0..] == ms;
    } else {
      MembersAt(ms[1..], i - 1);
      assert ms[1..][i - 1..] == ms[i..];
    }
  }

  /** The slice of a member's value: a scalar's also holds the white space behind it. */
  function Slice(v: Json, after: string): string {
    if v.IsScalar() then Render(v) + after else Render(v)
  }

  /** Scanning a value that stands in front of a delimiter cuts out its slice. */
  lemma SliceScan(v: Json, after: string, tail: string)
    requires WellFormed(v) && AllSpace(after) && tail != "" && IsDelimiter(tail[0])
    ensures var s := Render(v) + (after + tail);
      && AfterWs(s) == s && s != "" && AfterValue(s).Done?
      && |AfterValue(s).value| < |s|
      && s[..|s| - |AfterValue(s).value|] == Slice(v, after)
      && AfterWs(AfterValue(s).value) == tail
  {
    hide Render, WellFormed, AfterValue;
    var s := Render(v) + (after + tail);
    RenderStart(v);
    ValueScan(v, after + tail);
    NextDelimiter(v, after, tail);
    if v.IsScalar() {
      assert forall i :: 0 <= i < |after| ==> !IsDelimiter(after[i]);
      ScalarScan(after, tail);
      assert s == (Render(v) + after) + tail;
    }
  }

  lemma {:induction false} NoColon(w: string, x: string)
    requires AllSpace(w)
    ensures FindChar(w + [':'] + x, ':') == Some(|w|)
  {
    assert ':' !in w;
    FindCharAt(w, ':', x);
  }

  /** What stands behind a key and its colon. */
  lemma ColonTail(obj: Json, i: nat)
    requires obj.Obj? && i < |obj.members|
    ensures var m := obj.members[i];
      && 0 <= ColonOffset(obj, i) < |Render(obj)|
      && Render(obj)[ColonOffset(obj, i)..]
           == [':'] + (m.colonAfter + (Render(m.value) + (m.after + MembersTail(obj.members[i..]))))
  {
    hide KeyText, Render, MembersTail, KeyOffset, Quoted;
    var m := obj.members[i];
    var p, q := KeyOffset(obj, i), |Quoted(m.key)|;
    KeyTextInObject(obj, i);
    KeyTextKey(obj.members[i..]);
    assert Render(obj)[p..][q..] == Render(obj)[p + q..];
    assert Render(obj)[p + q..][|m.colonBefore|..] == Render(obj)[p + q + |m.colonBefore|..];
  }

  /** Member extraction: when the search reads member `i`, the lookup returns exactly the slice of its value. */
  lemma ExtractMember(obj: Json, k: string, i: nat)
    requires obj.Obj? && WellFormed(obj) && Reads(obj, k, i)
    ensures ExtractValue(Render(obj), k)
         == Done(Some(Slice(obj.members[i].value, obj.members[i].after)))
  {
    hide Render, AfterValue, ReadAt, KeyOffset, KeyText, MembersTail, AfterWs, WellFormed, Slice, Quoted, ExtractValue, AllSpace;
    LookupReads(Render(obj), k);
    MemberRead(obj, i);
  }

  /** The value behind a member's colon. */
  lemma MemberRead(obj: Json, i: nat)
    requires obj.Obj? && WellFormed(obj) && i < |obj.members|
    ensures 0 <= ColonOffset(obj, i) < |Render(obj)| && ValueAhead(Render(obj)[ColonOffset(obj, i) + 1..])
    ensures ReadValue(Render(obj)[ColonOffset(obj, i) + 1..]) == Done(Some(Slice(obj.members[i].value, obj.members[i].after)))
  {
    hide Render, AfterValue, KeyOffset, ColonOffset, KeyText, MembersTail, AfterWs, WellFormed, Slice, Quoted, AllSpace;
    var m, ms, c := obj.members[i], obj.members[i..], ColonOffset(obj, i);
    ColonTail(obj, i);
    WellFormedMember(obj, i);
    var v := Render(m.value) + (m.after + MembersTail(ms));
    assert Render(obj)[c + 1..] == Render(obj)[c..][1..] == m.colonAfter + v;
    TailDelimiter(ms);
    SliceScan(m.value, m.after, MembersTail(ms));
    AfterWsSpaces(m.colonAfter, v);
    ValueProgress(m.colonAfter + v);
  }

  lemma TailDelimiter(ms: seq<Member>)
    requires ms != []
    ensures MembersTail(ms) != "" && IsDelimiter(MembersTail(ms)[0])
  {
  }

  lemma WellFormedMember(obj: Json, i: nat)
    requires obj.Obj? && WellFormed(obj) && i < |obj.members|
    ensures var m := obj.members[i];
      && AllSpace(m.colonBefore) && AllSpace(m.colonAfter) && AllSpace(m.after) && WellFormed(m.value)
  {
    MembersAt(obj.members, i);
  }

  predicate FirstMember(ms: seq<Member>, k: string, i: nat) {
    i < |ms| && ms[i].key == k && forall j :: 0 <= j < i ==> ms[j].key != k
  }

  lemma {:induction false} LookupFirst(ms: seq<Member>, k: string)
    ensures Lookup(ms, k).None? ==> forall i :: 0 <= i < |ms| ==> ms[i].key != k
    ensures Lookup(ms, k).Some? ==> exists i: nat :: FirstMember(ms, k, i) && ms[i] == Lookup(ms, k).value
  {
    if ms != [] && ms[0].key != k {
      LookupFirst(ms[1..], k);
      assert forall j :: 0 < j < |ms| ==> ms[j] == ms[1..][j - 1];
      if Lookup(ms, k).Some? {
        var i: nat :| FirstMember(ms[1..], k, i) && ms[1..][i] == Lookup(ms, k).value;
        assert FirstMember(ms, k, i + 1);
      }
    } else if ms != [] {
      assert FirstMember(ms, k, 0);
    }
  }

  /** Later keys stand at later positions. */
  lemma {:induction false} OffsetsIncrease(obj: Json, j: nat, i: nat)
    requires obj.Obj? && j < i < |obj.members|
    ensures KeyOffset(obj, j) < KeyOffset(obj, i)
  {
    hide KeyText;
    KeyTextAt(obj.members[j..], i - j);
    assert obj.members[j..][i - j..] == obj.members[i..];
  }

  lemma MentionReads(obj: Json, k: string, i: nat)
    requires obj.Obj? && WellFormed(obj) && FirstMention(obj, k, i)
    ensures Reads(obj, k, i)
  {
    hide Render, FindText, FindChar, KeyOffset, WellFormed, KeyText, Quoted, MembersTail, AllSpace, ValueAhead, ReadValue;
    var m, ms, p := obj.members[i], obj.members[i..], KeyOffset(obj, i);
    KeyTextInObject(obj, i);
    KeyTextKey(ms);
    WellFormedMember(obj, i);
    assert Render(obj)[p + |Quoted(k)|..] == Render(obj)[p..][|Quoted(k)|..];
    NoColon(m.colonBefore, m.colonAfter + (Render(m.value) + (m.after + MembersTail(ms))));
    MemberRead(obj, i);
    var tail := Render(obj)[p + |Quoted(k)|..];
    assert tail[|m.colonBefore| + 1..] == Render(obj)[ColonOffset(obj, i) + 1..];
  }

  /** A key that is mentioned first is reached. */
  lemma {:induction false} FirstIsReached(obj: Json, k: string)
    requires obj.Obj? && WellFormed(obj) && KeyFirst(obj, k)
    ensures KeyReached(obj, k)
  {
    hide Render, FindText, FindChar, KeyOffset, WellFormed, Reads, Quoted;
    LookupFirst(obj.members, k);
    if FindText(Render(obj), Quoted(k)).Some? {
      var i: nat :| FirstMention(obj, k, i);
      MentionReads(obj, k, i);
      forall j | 0 <= j < i ensures obj.members[j].key != k {
        KeyTextInObject(obj, j);
        OffsetsIncrease(obj, j, i);
      }
      assert FirstMember(obj.members, k, i);
    } else if Lookup(obj.members, k).Some? {
      var f: nat :| FirstMember(obj.members, k, f);
      KeyTextInObject(obj, f);
    }
  }

  /** What the lookup should return for this key. */
  function MemberText(obj: Json, k: string): Option<string>
    requires obj.Obj?
  {
    match Lookup(obj.members, k)
    case None => None
    case Some(m) => Some(Slice(m.value, m.after))
  }

  /** On the text of an object, the lookup is the lookup in the tree. */
  lemma {:induction false} ExtractLookup(obj: Json, k: string)
    requires obj.Obj? && WellFormed(obj) && KeyReached(obj, k)
    ensures ExtractValue(Render(obj), k) == Done(MemberText(obj, k))
    ensures Lookup(obj.members, k).Some? ==>
              WellFormed(Lookup(obj.members, k).value.value) && AllSpace(Lookup(obj.members, k).value.after)
  {
    hide Render, ReadAt, ReadValue, ExtractValue, KeyOffset, WellFormed, Slice, Reads, Quoted;
    var ms := obj.members;
    LookupFirst(ms, k);
    if Lookup(ms, k).Some? {
      var f: nat :| FirstMember(ms, k, f) && ms[f] == Lookup(ms, k).value;
      var i: nat :| FirstMember(ms, k, i) && Reads(obj, k, i);
      assert i == f;
      ExtractMember(obj, k, i);
      WellFormedMember(obj, i);
    } else {
      LookupReads(Render(obj), k);
    }
  }

  /** The search reads another place, where the same text stands. */
  predicate SameElsewhere(obj: Json, k: string)
    requires obj.Obj?
  {
    Lookup(obj.members, k).Some? && ReadAt(Render(obj), k).Some?
    && ReadValue(Render(obj)[ReadAt(Render(obj), k).value + 1..]) == Done(MemberText(obj, k))
  }

  /** The lookup is right exactly when it reads the right place or happens to find the same text at another. */
  lemma ExtractLookupExactly(obj: Json, k: string)
    requires obj.Obj? && WellFormed(obj)
    ensures ExtractValue(Render(obj), k) == Done(MemberText(obj, k)) <==> KeyReached(obj, k) || SameElsewhere(obj, k)
  {
    hide Render, ReadAt, ExtractValue, WellFormed, Slice, Lookup, AfterValue;
    LookupReads(Render(obj), k);
    if KeyReached(obj, k) {
      ExtractLookup(obj, k);
    }
  }

  /** No place in `before` begins like the quoted key. */
  predicate Free(before: string, key: string) {
    key != "" && forall i :: 0 <= i < |before| && before[i] == '"' ==> (before + Quoted(key))[i + 1] != key[0]
  }

  lemma FoundBehind(before: string, key: string, tail: string)
    requires Free(before, key)
    ensures FindText(before + Quoted(key) + tail, Quoted(key)) == Some(|before|)
  {
    hide FindText;
    var text := before + Quoted(key) + tail;
    assert OccursAt(text, Quoted(key), |before|);
    forall i | 0 <= i < |before| ensures !OccursAt(text, Quoted(key), i) {
      var w := text[i..i + |Quoted(key)|];
      assert w[0] == text[i] == before[i] && w[1] == text[i + 1] == (before + Quoted(key))[i + 1];
    }
  }

  /** The search reads behind the first colon that follows the first mention. */
  lemma ReadFirst(before: string, key: string, between: string, behind: string)
    requires Free(before, key) && ':' !in between && ValueAhead(behind)
    ensures ExtractValue(before + Quoted(key) + (between + [':'] + behind), key) == ReadValue(behind)
  {
    hide FindText, FindChar, Quoted, ValueAhead, ReadValue, ExtractValue, Free;
    var tail := between + [':'] + behind;
    var text := before + Quoted(key) + tail;
    FoundBehind(before, key, tail);
    FindCharAt(between, ':', behind);
    assert text[|before| + |Quoted(key)|..] == tail && tail[|between| + 1..] == behind;
    assert text[|before| + |Quoted(key)| + |between| + 1..] == behind;
    LookupReads(text, key);
  }

  const NESTED_TEXT := "{\"a\":{\"k\":1},\"k\":2}"

  function NestedInner(): Json {
    Obj("", [Member("", "k", "", "", Num(1), "")])
  }

  function NestedTree(): Json {
    Obj("", [Member("", "a", "", "", NestedInner(), ""), Member("", "k", "", "", Num(2), "")])
  }

  lemma {:induction false} NestedText()
    ensures Render(NestedTree()) == NESTED_TEXT
  {
    hide Render;
    var es := [Member("", "k", "", "", Num(1), "")];
    var ms := [Member("", "a", "", "", NestedInner(), ""), Member("", "k", "", "", Num(2), "")];
    NumberMember(1);
    NumberMember(2);
    RenderObject("", es);
    RenderObject("", ms);
    assert ms[1..] == [Member("", "k", "", "", Num(2), "")];
    KeyTextShape(ms, "");
  }

  lemma RenderObject(gap: string, ms: seq<Member>)
    ensures Render(Obj(gap, ms)) == "{" + gap + RenderMembers(ms)
  {
  }

  lemma NumberMember(n: nat)
    requires n < 10
    ensures Render(Num(n)) == [DigitChar(n)]
    ensures RenderMembers([Member("", "k", "", "", Num(n), "")]) == "\"k\":" + [DigitChar(n)] + "}"
  {
    var ms := [Member("", "k", "", "", Num(n), "")];
    assert Dec(n) == [DigitChar(n)];
    assert MembersTail(ms) == "}";
    assert KeyText(ms) == Quoted("k") + ":" + Dec(n) + "}";
    assert Quoted("k") == "\"k\"";
    assert RenderMembers(ms) == "" + KeyText(ms);
  }

  lemma NestedShape()
    ensures WellFormed(NestedTree()) && IntMember(NestedTree(), "k") == Some(2)
  {
  }

  lemma DigitScanned(rest: string)
    requires rest != "" && IsDelimiter(rest[0])
    ensures AfterValue("1" + rest) == Done(rest) && AfterWs("1" + rest) == "1" + rest
  {
    hide AfterValue, Render;
    NumberMember(1);
    ValueScan(Num(1), rest);
  }

  /** Without the condition the lookup is wrong: it finds the nested member first. */
  lemma {:induction false} NestedMentionWins()
    ensures ExtractValue(Render(NestedTree()), "k") == Done(Some("1"))
    ensures IntMember(NestedTree(), "k") == Some(2)
  {
    hide Render, AfterValue, ExtractValue, WellFormed, IntMember, NestedTree, AfterWs;
    NestedText();
    NestedShape();
    var rest := "},\"k\":2}";
    DigitScanned(rest);
    assert ("1" + rest)[..1] == "1";
    assert Quoted("k") == "\"k\"" && NESTED_TEXT == "{\"a\":{" + Quoted("k") + ("" + [':'] + ("1" + rest));
    ReadFirst("{\"a\":{", "k", "", "1" + rest);
  }

  const STRING_TEXT := "{\"a\":\"k\"}"

  function StringTree(): Json {
    Obj("", [Member("", "a", "", "", Str("k"), "")])
  }

  lemma {:induction false} StringText()
    ensures Render(StringTree()) == STRING_TEXT && WellFormed(StringTree())
    ensures FindText(STRING_TEXT, Quoted("k")) == Some(5)
  {
    hide FindText;
    var ms := [Member("", "a", "", "", Str("k"), "")];
    assert Quoted("k") == "\"k\"" && Quoted("a") == "\"a\"";
    KeyTextShape(ms, "");
    RenderObject("", ms);
    assert MembersTail(ms) == "}";
    assert OccursAt(STRING_TEXT, Quoted("k"), 5);
    assert forall i :: 0 <= i < 5 ==> STRING_TEXT[i] != '"' || STRING_TEXT[i + 1] != 'k';
    forall i | 0 <= i < 5 ensures !OccursAt(STRING_TEXT, Quoted("k"), i) {
      var w := STRING_TEXT[i..i + 3];
      assert w[0] == STRING_TEXT[i] && w[1] == STRING_TEXT[i + 1];
    }
  }

  /** A mention that is no key does no harm where no colon follows it: the absent name is not found. */
  lemma {:induction false} HarmlessMention()
    ensures WellFormed(StringTree()) && !KeyFirst(StringTree(), "k") && KeyReached(StringTree(), "k")
    ensures ExtractValue(Render(StringTree()), "k") == Done(None)
  {
    hide Render, FindText, WellFormed, ExtractValue, Quoted;
    StringText();
    assert |Quoted("k")| == 3 by { QuotedLength("k"); }
    assert STRING_TEXT[8..] == "}" && "}"[1..] == "";
    assert FindChar("}", ':').None?;
    assert KeyReached(StringTree(), "k");
    ExtractLookup(StringTree(), "k");
    assert Lookup(StringTree().members, "k").None?;
  }

  // -------------------------------------------------------------- typed members

  /** `parse_json_string` accepts the slice of a string and of nothing else. */
  lemma {:induction false} ParseSlice(v: Json, after: string)
    requires WellFormed(v)
    ensures ParseString(Slice(v, after)) == if v.Str? then Some(Unescape(v.body, false)) else None
  {
  }

  lemma ExtractStringMember(obj: Json, k: string)
    requires obj.Obj? && WellFormed(obj) && KeyReached(obj, k)
    ensures ExtractString(Render(obj), k) == Done(StringMember(obj, k))
  {
    hide Render, Slice, ExtractValue, ParseString, Unescape;
    ExtractLookup(obj, k);
    if Lookup(obj.members, k).Some? {
      var m := Lookup(obj.members, k).value;
      ParseSlice(m.value, m.after);
    }
  }

  lemma {:induction false} LeadingNatSpaces(s: string, w: string, acc: nat)
    requires AllSpace(w)
    ensures LeadingNat(s + w, acc) == LeadingNat(s, acc)
  {
    if s == "" {
      assert s + w == w;
    } else if IsDigit(s[0]) {
      assert (s + w)[1..] == s[1..] + w;
      LeadingNatSpaces(s[1..], w, acc * 10 + (s[0] as int - 48));
    }
  }

  /** White space behind a scalar does not change the number. */
  lemma StollSpaces(s: string, w: string)
    requires s != "" && !IsSpace(s[0]) && AllSpace(w)
    ensures Stoll(s + w) == Stoll(s)
  {
    var u := if s[0] == '-' || s[0] == '+' then s[1..] else s;
    var x := if s[0] == '-' || s[0] == '+' then (s + w)[1..] else s + w;
    assert x == u + w;
    assert AfterWs(s) == s && AfterWs(s + w) == s + w;
    LeadingNatSpaces(u, w, 0);
    assert u != "" ==> x[0] == u[0];
    assert u == "" ==> x == w;
  }

  lemma StollSlice(v: Json, after: string)
    requires WellFormed(v) && AllSpace(after)
    ensures Stoll(Slice(v, after)) == IntOf(v)
  {
    hide Stoll, LeadingInt, ParseNumber;
    match v
    case Num(n) => NumberSlice(n, after);
    case Lit(text) =>
      StollSpaces(text, after);
      LiteralRead(text);
    case Str(body) => NotANumber(Slice(v, after));
    case Arr(gap, es) => NotANumber(Slice(v, after));
    case Obj(gap, ms) => NotANumber(Slice(v, after));
  }

  lemma LiteralRead(text: string)
    ensures Stoll(text) == IntOf(Lit(text))
  {
    hide Stoll, ParseNumber, Number.Valid, Number.Text;
    NamesAreNoNumbers();
    if ParseNumber(text).Some? {
      ParseExactly(text, ParseNumber(text).value);
      WholeRead(ParseNumber(text).value);
    }
  }

  lemma NumberSlice(n: int, after: string)
    requires AllSpace(after)
    ensures Stoll(Dec(n) + after) == if FitsInt64(n) then Some(n) else None
  {
    LeadingIntDec(n, after);
  }

  lemma NotANumber(s: string)
    requires s != "" && (s[0] == '"' || s[0] == '[' || s[0] == '{')
    ensures Stoll(s) == None
  {
  }

  lemma ExtractIntMember(obj: Json, k: string)
    requires obj.Obj? && WellFormed(obj) && KeyReached(obj, k)
    ensures ExtractInt64(Render(obj), k) == Done(IntMember(obj, k))
  {
    hide Render, Slice, ExtractValue, Stoll;
    ExtractLookup(obj, k);
    if Lookup(obj.members, k).Some? {
      var m := Lookup(obj.members, k).value;
      StollSlice(m.value, m.after);
    }
  }

  lemma SliceOpening(v: Json, after: string)
    requires WellFormed(v)
    ensures Slice(v, after) != ""
    ensures Slice(v, after)[0] == '{' <==> v.Obj?
    ensures Slice(v, after)[0] == '[' <==> v.Arr?
  {
  }

  lemma ExtractOpeningMember(obj: Json, k: string, open: char)
    requires obj.Obj? && WellFormed(obj) && KeyReached(obj, k)
    ensures ExtractOpening(Render(obj), k, '{')
         == Done(match Lookup(obj.members, k)
                 case Some(m) => if m.value.Obj? then Some(Render(m.value)) else None
                 case None => None)
    ensures ExtractOpening(Render(obj), k, '[')
         == Done(match Lookup(obj.members, k)
                 case Some(m) => if m.value.Arr? then Some(Render(m.value)) else None
                 case None => None)
  {
    hide Render, ExtractValue, WellFormed;
    ExtractLookup(obj, k);
    if Lookup(obj.members, k).Some? {
      var m := Lookup(obj.members, k).value;
      SliceOpening(m.value, m.after);
    }
  }

  // --------------------------------------------------------------------- arrays

  function Slices(es: seq<Elem>): seq<string> {
    if es == [] then [] else [Slice(es[0].value, es[0].after)] + Slices(es[1..])
  }

  /** Array splitting: the splitter cuts out exactly the elements. */
  lemma {:induction false} SplitElems(gap: string, es: seq<Elem>)
    requires AllSpace(gap) && WellFormedElems(es)
    ensures SplitFrom(gap + RenderElems(es)) == Done(Slices(es))
    decreases es
  {
    hide AfterValue, Slice, Render, WellFormed, AfterWs;
    if es == [] {
      AfterWsAt(gap, "]");
    } else {
      var e := es[0];
      var s := gap + RenderElems(es);
      var t := Render(e.value) + (e.after + ElemsTail(es));
      ElemsShape(gap, es, "");
      assert RenderElems(es) + "" == RenderElems(es) && ElemsTail(es) + "" == ElemsTail(es);
      SliceScan(e.value, e.after, ElemsTail(es));
      RenderStart(e.value);
      AfterWsSpaces(gap, e.before + t);
      AfterWsAt(e.before, t);
      assert t[0] == Render(e.value)[0];
      if |es| == 1 {
        assert SplitFrom("]") == Done([]);
      } else {
        SplitElems("", es[1..]);
        assert "" + RenderElems(es[1..]) == ElemsTail(es)[1..];
      }
    }
  }

  lemma {:induction false} ParseSlices(es: seq<Elem>)
    requires WellFormedElems(es)
    ensures ParsedStrings(Slices(es)) == StringItems(es)
  {
    hide ParseString, Slice, WellFormed, Unescape;
    if es != [] {
      ParseSlice(es[0].value, es[0].after);
      ParseSlices(es[1..]);
      assert Slices(es)[1..] == Slices(es[1..]);
    }
  }

  lemma {:induction false} ArrayEnds(es: seq<Elem>)
    ensures RenderElems(es) != "" && RenderElems(es)[|RenderElems(es)| - 1] == ']'
  {
    if |es| > 1 {
      ArrayEnds(es[1..]);
    }
  }

  lemma SplitArray(v: Json)
    requires v.Arr? && WellFormed(v)
    ensures SplitElements(Render(v)) == Done(Slices(v.elems))
  {
    hide SplitFrom, RenderElems, Slices;
    var s := Render(v);
    ArrayEnds(v.elems);
    assert s[1..] == v.gap + RenderElems(v.elems);
    SplitElems(v.gap, v.elems);
  }

  lemma ExtractStringArrayMember(obj: Json, k: string)
    requires obj.Obj? && WellFormed(obj) && KeyReached(obj, k)
    ensures ExtractStringArray(Render(obj), k) == Done(StringArrayMember(obj, k))
  {
    hide Render, ExtractOpening, SplitElements, Slices, ParsedStrings;
    ExtractOpeningMember(obj, k, '[');
    ExtractLookup(obj, k);
    match Lookup(obj.members, k)
    case None =>
    case Some(m) =>
      if m.value.Arr? {
        SplitArray(m.value);
        ParseSlices(m.value.elems);
      }
  }

  /** The array that a producer writes for a list of strings, with any white space. */
  predicate ListArray(v: Json, xs: seq<string>) {
    v.Arr? && |v.elems| == |xs| && forall i :: 0 <= i < |xs| ==> v.elems[i].value == Str(Escape(xs[i]))
  }

  lemma {:induction false} ListItems(es: seq<Elem>, xs: seq<string>)
    requires |es| == |xs| && forall i :: 0 <= i < |xs| ==> es[i].value == Str(Escape(xs[i]))
    ensures StringItems(es) == xs
  {
    if es != [] {
      EscapeRoundTrip(xs[0]);
      assert forall i :: 0 <= i < |xs[1..]| ==> es[1..][i] == es[i + 1] && xs[1..][i] == xs[i + 1];
      ListItems(es[1..], xs[1..]);
    }
  }

  /** For a rendered array of escaped strings the lookup returns the original list. */
  lemma StringListRoundTrip(obj: Json, k: string, i: nat, xs: seq<string>)
    requires obj.Obj? && WellFormed(obj) && Reads(obj, k, i) && ListArray(obj.members[i].value, xs)
    ensures ExtractStringArray(Render(obj), k) == Done(xs)
  {
    hide Render, SplitElements, Slices, ParsedStrings, WellFormed;
    var v := obj.members[i].value;
    ExtractMember(obj, k, i);
    WellFormedMember(obj, i);
    SliceOpening(v, obj.members[i].after);
    SplitArray(v);
    ArrayElems(v);
    ParseSlices(v.elems);
    ListItems(v.elems, xs);
  }

  lemma ArrayElems(v: Json)
    requires v.Arr? && WellFormed(v)
    ensures WellFormedElems(v.elems)
  {
  }
}
