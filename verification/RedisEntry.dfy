/** The text of a state entry in Redis (`redis.cpp`), with the fallback for entries that
    hold nothing but a verifier. */
module RedisEntry {
  import opened Wrappers
  import opened Text
  import opened Forms
  import UrlEncode

  datatype StateEntry = StateEntry(codeVerifier: string, realm: string)
  {
    predicate IsBytes() {
      Text.IsBytes(codeVerifier) && Text.IsBytes(realm)
    }
  }

  function EncodeEntry(entry: StateEntry): string
    requires entry.IsBytes()
  {
    "verifier=" + UrlEncode.Encode(entry.codeVerifier) + "&realm=" + UrlEncode.Encode(entry.realm)
  }

  /** One `key=value` piece; other keys are ignored. */
  function WithPart(entry: StateEntry, part: string): StateEntry {
    if part == "" then entry
    else
      var key, value := UrlEncode.Decode(KeyPart(part)), UrlEncode.Decode(ValuePart(part));
      if key == "verifier" then entry.(codeVerifier := value)
      else if key == "realm" then entry.(realm := value)
      else entry
  }

  function WithParts(entry: StateEntry, parts: seq<string>): StateEntry
    decreases parts
  {
    if parts == [] then entry else WithParts(WithPart(entry, parts[0]), parts[1..])
  }

  function DecodeEntry(raw: string): Option<StateEntry> {
    var entry := WithParts(StateEntry("", ""), Split(raw, '&'));
    if entry.codeVerifier == "" then None else Some(entry)
  }

  /** What `consume_state_entry` makes of a stored text. */
  function ReadEntry(raw: string): StateEntry {
    DecodeEntry(raw).GetOr(StateEntry(raw, ""))
  }

  lemma EntryStep(s: string, entry: StateEntry)
    ensures WithParts(entry, Split(s, '&'))
         == match FindChar(s, '&')
            case None => WithPart(entry, s)
            case Some(end) => WithParts(WithPart(entry, s[..end]), Split(s[end + 1..], '&'))
  {
  }

  method DecodeStateEntry(raw: string) returns (r: Option<StateEntry>)
    ensures r == DecodeEntry(raw)
  {
    hide FindChar, UrlEncode.Decode, Rest, Split, WithParts;
    var entry := StateEntry("", "");
    var start := 0;
    RestStart(raw);
    NothingDecodes();
    while start <= |raw|
      invariant start <= |raw|
      invariant WithParts(entry, Split(Rest(raw, start), '&')) == WithParts(StateEntry("", ""), Split(raw, '&'))
      decreases |raw| - start
    {
      EntryStep(Rest(raw, start), entry);
      var end := FindChar(Rest(raw, start), '&');
      var part := if end.None? then Rest(raw, start) else Rest(raw, start)[..end.value];
      if part != "" {
        var eq := FindChar(part, '=');
        var key := UrlEncode.UrlDecode(if eq.None? then part else part[..eq.value]);
        var value := UrlEncode.UrlDecode(if eq.None? then "" else part[eq.value + 1..]);
        if key == "verifier" {
          entry := entry.(codeVerifier := value);
        } else if key == "realm" {
          entry := entry.(realm := value);
        }
      }
      if end.None? {
        break;
      }
      RestShift(raw, start, end.value + 1);
      start := start + end.value + 1;
    }
    return if entry.codeVerifier == "" then None else Some(entry);
  }

  lemma NothingDecodes()
    ensures UrlEncode.Decode("") == ""
  {
  }

  lemma EntrySplit(entry: StateEntry)
    requires entry.IsBytes()
    ensures Split(EncodeEntry(entry), '&')
         == ["verifier=" + UrlEncode.Encode(entry.codeVerifier), "realm=" + UrlEncode.Encode(entry.realm)]
  {
    hide UrlEncode.Encode;
    UrlEncode.EncodeSafe(entry.codeVerifier);
    UrlEncode.EncodeSafe(entry.realm);
    var a, b := "verifier=" + UrlEncode.Encode(entry.codeVerifier), "realm=" + UrlEncode.Encode(entry.realm);
    assert '&' !in a && '&' !in b;
    var parts := [a, b];
    assert Join(parts[1..], '&') == b;
    assert EncodeEntry(entry) == a + "&" + b;
    SplitJoin(parts, '&');
  }

  lemma {:induction false} PartOf(entry: StateEntry, key: string, value: string)
    requires IsBytes(value) && (key == "verifier" || key == "realm")
    ensures WithPart(entry, key + "=" + UrlEncode.Encode(value))
         == if key == "verifier" then entry.(codeVerifier := value) else entry.(realm := value)
  {
    hide UrlEncode.Encode, UrlEncode.Decode, KeyPart, ValuePart;
    PartsOf(key, UrlEncode.Encode(value));
    UrlEncode.RoundTrip(value);
    UrlEncode.DecodePlain(key);
  }

  /** Every entry with a verifier is recovered. */
  lemma EntryRoundTrip(entry: StateEntry)
    requires entry.IsBytes() && entry.codeVerifier != ""
    ensures DecodeEntry(EncodeEntry(entry)) == Some(entry) && ReadEntry(EncodeEntry(entry)) == entry
  {
    hide WithPart, EncodeEntry, UrlEncode.Encode;
    EntrySplit(entry);
    var a, b := "verifier=" + UrlEncode.Encode(entry.codeVerifier), "realm=" + UrlEncode.Encode(entry.realm);
    PartOf(StateEntry("", ""), "verifier", entry.codeVerifier);
    PartOf(StateEntry(entry.codeVerifier, ""), "realm", entry.realm);
    assert "verifier" + "=" == "verifier=" && "realm" + "=" == "realm=";
    assert [a, b][1..] == [b] && [b][1..] == [];
    assert WithParts(StateEntry("", ""), [a, b]) == WithParts(StateEntry(entry.codeVerifier, ""), [b]);
  }

  /** Without a verifier the entry is lost: the decoder refuses it and the fallback takes
      the encoded text for the verifier. So an entry survives exactly when it has one. */
  lemma SurvivesExactly(entry: StateEntry)
    requires entry.IsBytes()
    ensures ReadEntry(EncodeEntry(entry)) == entry <==> entry.codeVerifier != ""
  {
    if entry.codeVerifier != "" {
      EntryRoundTrip(entry);
    } else {
      assert ReadEntry(EncodeEntry(entry)).codeVerifier != "";
    }
  }

  /** A bare verifier over the unreserved characters, as stored before realms existed,
      comes back unchanged with no realm. */
  lemma LegacyVerifier(verifier: string)
    requires forall i :: 0 <= i < |verifier| ==> UrlEncode.Unreserved(verifier[i])
    ensures DecodeEntry(verifier) == None && ReadEntry(verifier) == StateEntry(verifier, "")
  {
    hide UrlEncode.Decode;
    assert '&' !in verifier && '=' !in verifier;
    assert Split(verifier, '&') == [verifier];
    assert [verifier][1..] == [];
    NothingDecodes();
    assert WithPart(StateEntry("", ""), verifier) == StateEntry("", "");
    assert WithParts(StateEntry("", ""), [verifier]) == WithParts(StateEntry("", ""), []);
  }

  // ------------------------------------------------- the texts as a form would have them

  /** The encoding is the form body of the two fields. */
  lemma EntryIsForm(entry: StateEntry)
    requires entry.IsBytes()
    ensures FieldsOfBytes([("verifier", entry.codeVerifier), ("realm", entry.realm)])
    ensures EncodeEntry(entry) == FormBody([("verifier", entry.codeVerifier), ("realm", entry.realm)])
  {
    hide UrlEncode.Encode, IsBytes, FieldText;
    NamesPlain();
    EncodePlain("verifier");
    EncodePlain("realm");
    var a, b := ("verifier", entry.codeVerifier), ("realm", entry.realm);
    assert [a, b][1..] == [b] && [b][1..] == [];
    assert FieldTexts([b]) == [FieldText(b)] && FieldTexts([a, b]) == [FieldText(a)] + FieldTexts([b]);
    var texts := [FieldText(a), FieldText(b)];
    assert FieldTexts([a, b]) == texts && texts[1..] == [FieldText(b)];
    TwoTexts(FieldText(a), FieldText(b));
    NamedTexts(entry);
  }

  lemma NamesPlain()
    ensures IsBytes("verifier") && forall i :: 0 <= i < |"verifier"| ==> UrlEncode.Unreserved("verifier"[i])
    ensures IsBytes("realm") && forall i :: 0 <= i < |"realm"| ==> UrlEncode.Unreserved("realm"[i])
  {
  }

  lemma TwoTexts(x: string, y: string)
    ensures Join([x, y], '&') == x + "&" + y
  {
    assert [x, y][1..] == [y];
  }

  lemma NamedTexts(entry: StateEntry)
    requires entry.IsBytes() && IsBytes("verifier") && IsBytes("realm")
    requires UrlEncode.Encode("verifier") == "verifier" && UrlEncode.Encode("realm") == "realm"
    ensures EncodeEntry(entry) == FieldText(("verifier", entry.codeVerifier)) + "&" + FieldText(("realm", entry.realm))
  {
    hide UrlEncode.Encode;
    assert "verifier" + "=" == "verifier=" && "realm" + "=" == "realm=";
  }

  lemma {:induction false} EncodePlain(value: string)
    requires IsBytes(value) && forall i :: 0 <= i < |value| ==> UrlEncode.Unreserved(value[i])
    ensures UrlEncode.Encode(value) == value
  {
    if value != "" {
      EncodePlain(value[1..]);
    }
  }

  /** A field of any spelling, without ampersands. */
  ghost predicate SpellsEntryField(text: string, f: Field) {
    exists key: string, value: string ::
      '=' !in key && UrlEncode.Spells(key, f.0) && UrlEncode.Spells(value, f.1)
      && (text == key + "=" + value || (text == key && text != "" && value == ""))
  }

  ghost predicate SpellsEntry(texts: seq<string>, fields: seq<Field>) {
    if texts == [] then fields == []
    else
      || (texts[0] == "" && SpellsEntry(texts[1..], fields))
      || (fields != [] && SpellsEntryField(texts[0], fields[0]) && SpellsEntry(texts[1..], fields[1..]))
  }

  /** The last verifier and the last realm among the fields. */
  function Recorded(fields: seq<Field>, entry: StateEntry): StateEntry
    decreases fields
  {
    if fields == [] then entry
    else
      Recorded(fields[1..],
               StateEntry(if fields[0].0 == "verifier" then fields[0].1 else entry.codeVerifier,
                          if fields[0].0 == "realm" then fields[0].1 else entry.realm))
  }

  lemma EntryFieldSpelled(entry: StateEntry, text: string, f: Field)
    requires SpellsEntryField(text, f)
    ensures WithPart(entry, text) == StateEntry(if f.0 == "verifier" then f.1 else entry.codeVerifier,
                                                if f.0 == "realm" then f.1 else entry.realm)
  {
    hide UrlEncode.Spells, UrlEncode.Decode;
    var key: string, value: string :|
      '=' !in key && UrlEncode.Spells(key, f.0) && UrlEncode.Spells(value, f.1)
      && (text == key + "=" + value || (text == key && text != "" && value == ""));
    UrlEncode.DecodeSpelled(key, f.0);
    UrlEncode.DecodeSpelled(value, f.1);
    if text == key + "=" + value {
      PartsOf(key, value);
    }
  }

  lemma {:induction false} EntryPartsSpelled(entry: StateEntry, texts: seq<string>, fields: seq<Field>)
    requires SpellsEntry(texts, fields)
    ensures WithParts(entry, texts) == Recorded(fields, entry)
    decreases texts
  {
    hide WithPart, SpellsEntryField;
    if texts != [] {
      if texts[0] == "" && SpellsEntry(texts[1..], fields) {
        NothingSpelled(entry);
        EntryPartsSpelled(entry, texts[1..], fields);
      } else {
        EntryFieldSpelled(entry, texts[0], fields[0]);
        EntryPartsSpelled(WithPart(entry, texts[0]), texts[1..], fields[1..]);
      }
    }
  }

  lemma NothingSpelled(entry: StateEntry)
    ensures WithPart(entry, "") == entry
  {
  }

  /** Whatever other fields there are and in whatever order, the last verifier and the last realm count; without
      a verifier there is no entry. */
  lemma EntrySpelled(texts: seq<string>, fields: seq<Field>)
    requires texts != [] && SpellsEntry(texts, fields) && forall t :: t in texts ==> '&' !in t
    ensures var entry := Recorded(fields, StateEntry("", ""));
      DecodeEntry(Join(texts, '&')) == if entry.codeVerifier == "" then None else Some(entry)
  {
    SplitJoin(texts, '&');
    EntryPartsSpelled(StateEntry("", ""), texts, fields);
  }
}
