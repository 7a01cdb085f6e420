/** The scan of a self-addressing document: where its version string and its digests stand. */
module SadScans {
  import opened Prelude
  import opened JsonTexts
  import opened JsonValues
  import opened JsonReaders
  import opened JsonFields
  import opened Scanners
  import VersionHead

  type DigestCode = nat

  /** The labels whose fields hold digests, and the code of each. The source keeps at most four and
      reserves `v`. */
  type SadCodes = seq<(bytes, DigestCode)>

  const V: bytes := [118]

  /** `index_of`: the first slot with this label. */
  function IndexOf(codes: SadCodes, key: bytes): (r: Option<nat>)
    ensures r.Some? ==> r.value < |codes| && codes[r.value].0 == key
    ensures r.None? ==> forall i | 0 <= i < |codes| :: codes[i].0 != key
  {
    if codes == [] then None
    else if codes[0].0 == key then Some(0)
    else match IndexOf(codes[1..], key)
      case Some(i) => Some(i + 1)
      case None => None
  }

  // ── The scan ───────────────────────────────────────────────────────────

  /** The span of each slot's digest, and where the version string starts and what size it declares. */
  datatype Sad = Sad(spans: map<nat, (nat, nat)>, version: Option<(nat, nat)>)

  const NOTHING := Sad(map[], None)

  /** One top-level field of the scan; keys are compared as spelled. */
  function FieldAt(s: bytes, c: Cursor, key: bytes, codes: SadCodes, found: Sad): (r: Read<(Sad, Cursor)>)
    ensures r.Got? ==> c.pos < r.value.1.pos <= |s|
  {
    if key == V then
      var text :- StringAt(s, c.pos);
      var version := VersionHead.ParseV1(text.0);
      if version.Err? || |text.0| != VersionHead.V1_LEN || version.value.kind != KindJson then Bad(BadVersionString)
      else Got((found.(version := Some((c.pos + 1, version.value.size))), Cursor(text.1, c.budget)))
    else
      match IndexOf(codes, key)
      case Some(i) =>
        var text :- StringAt(s, c.pos);
        Got((found.(spans := found.spans[i := (c.pos + 1, text.1 - 1)]), Cursor(text.1, c.budget)))
      case None =>
        var value :- ValueAt(s, c);
        Got((found, value.1))
  }

  function ScanFields(s: bytes, c: Cursor, codes: SadCodes, seen: set<bytes>, found: Sad): (r: Read<(Sad, Cursor)>)
    ensures r.Got? ==> r.value.1.pos <= |s|
    decreases |s| - c.pos
  {
    var key :- JsonTextAt(s, c.pos);
    var spelled := Spelled(s, c.pos, key.1);
    if spelled in seen then Bad(NonCanonical(c.pos + 1)) else
      var colon :- Expect(s, Cursor(key.1, c.budget), [58]);
      var field :- FieldAt(s, colon, spelled, codes, found);
      if ByteAt(s, field.1.pos, 44) then
        var next :- Expect(s, field.1, [44]);
        ScanFields(s, next, codes, seen + {spelled}, field.0)
      else
        var end :- Expect(s, field.1, [125]);
        Got((field.0, end))
  }

  function ScanObject(s: bytes, codes: SadCodes): (r: Read<(Sad, Cursor)>)
  {
    var start :- Expect(s, Cursor(0, UNLIMITED), [123]);
    if ByteAt(s, start.pos, 125) then
      var end :- Expect(s, start, [125]);
      Got((NOTHING, end))
    else ScanFields(s, start, codes, {}, NOTHING)
  }

  /** `scan_sad`. */
  function ScanSad(s: bytes, codes: SadCodes): Read<Sad> {
    var scanned :- ScanObject(s, codes);
    if scanned.1.pos == |s| then Got(scanned.0) else Bad(NonCanonical(scanned.1.pos))
  }

  /** The value of one top-level field of the scan. */
  method ScanField(sc: Scanner, key: bytes, codes: SadCodes, found: Sad) returns (r: Read<Sad>)
    requires sc.Valid()
    modifies sc
    ensures sc.Valid()
    ensures match FieldAt(sc.input, old(sc.Here()), key, codes, found)
      case Got((sad, end)) => r == Got(sad) && sc.Here() == end
      case Bad(e) => r == Bad(e)
  {
    hide StringAt, ValueAt, VersionHead.ParseV1;
    var start := sc.pos + 1;
    if key == V {
      var text := sc.String();
      if text.Bad? {
        return Bad(text.error);
      }
      var version := VersionHead.ParseV1(text.value);
      if version.Err? || |text.value| != VersionHead.V1_LEN || version.value.kind != KindJson {
        return Bad(BadVersionString);
      }
      return Got(found.(version := Some((start, version.value.size))));
    }
    match IndexOf(codes, key) {
      case Some(i) =>
        var text := sc.String();
        if text.Bad? {
          return Bad(text.error);
        }
        r := Got(found.(spans := found.spans[i := (start, sc.pos - 1)]));
      case None =>
        var value := sc.CanonicalValue();
        r := if value.Bad? then Bad(value.error) else Got(found);
    }
  }

  /** The loop over the top-level fields. */
  method Scan(raw: bytes, codes: SadCodes) returns (r: Read<Sad>)
    requires |raw| <= ISIZE_MAX
    ensures r == ScanSad(raw, codes)
  {
    hide Expect, FieldAt, JsonTextAt, ScanFields;
    var sc := new Scanner(raw, UNLIMITED);
    var brace := sc.Take([123]);
    if brace.Bad? {
      return Bad(brace.error);
    }
    ByteIsAt(raw, sc.pos, 125);
    var empty := sc.TakeLit([125]);
    if empty.Bad? {
      return Bad(empty.error);
    }
    var found, seen, more := NOTHING, {}, !empty.value;
    ghost var start := sc.Here();
    while more
      invariant sc.Valid()
      invariant !empty.value ==>
        (ScanFields(raw, start, codes, {}, NOTHING) ==
         if more then ScanFields(raw, sc.Here(), codes, seen, found) else Got((found, sc.Here())))
      invariant empty.value ==> !more && found == NOTHING && sc.Here() == start
      decreases |raw| - sc.pos, if more then 1 else 0
    {
      UnfoldFields(raw, sc.Here(), codes, seen, found);
      var at := sc.pos;
      var key := sc.JsonString();
      if key.Bad? {
        return Bad(key.error);
      }
      if key.value in seen {
        return Bad(NonCanonical(at + 1));
      }
      seen := seen + {key.value};
      var colon := sc.Take([58]);
      if colon.Bad? {
        return Bad(colon.error);
      }
      var field := ScanField(sc, key.value, codes, found);
      if field.Bad? {
        return Bad(field.error);
      }
      found := field.value;
      ByteIsAt(raw, sc.pos, 44);
      ExpectByte(raw, sc.Here(), 44);
      var comma := sc.TakeLit([44]);
      if comma.Bad? {
        assert false;
      }
      if !comma.value {
        var close := sc.Take([125]);
        if close.Bad? {
          return Bad(close.error);
        }
        more := false;
      }
    }
    var done := sc.Finish();
    return if done.Bad? then Bad(done.error) else Got(found);
  }

  lemma UnfoldFields(s: bytes, c: Cursor, codes: SadCodes, seen: set<bytes>, found: Sad)
    ensures var key := JsonTextAt(s, c.pos);
      ScanFields(s, c, codes, seen, found) ==
        if key.Bad? then Bad(key.error)
        else if Spelled(s, c.pos, key.value.1) in seen then Bad(NonCanonical(c.pos + 1))
        else
          var spelled := Spelled(s, c.pos, key.value.1);
          var colon := Expect(s, Cursor(key.value.1, c.budget), [58]);
          if colon.Bad? then Bad(colon.error)
          else
            var field := FieldAt(s, colon.value, spelled, codes, found);
            if field.Bad? then Bad(field.error)
            else if ByteAt(s, field.value.1.pos, 44) then
              var next := Expect(s, field.value.1, [44]);
              if next.Bad? then Bad(next.error) else ScanFields(s, next.value, codes, seen + {spelled}, field.value.0)
            else
              var end := Expect(s, field.value.1, [125]);
              if end.Bad? then Bad(end.error) else Got((field.value.0, end.value))
  {
    hide JsonTextAt, Expect, FieldAt;
  }

  // ── What the scan finds ────────────────────────────────────────────────

  predicate JsonVersion(text: bytes) {
    VersionHead.ParseV1(text).Ok? && |text| == VersionHead.V1_LEN && VersionHead.ParseV1(text).value.kind == KindJson
  }

  /** The version field holds a JSON version string and a digestive field a plain string. */
  predicate FieldFits(m: Member, codes: SadCodes) {
    if Escape(m.key) == V then m.value.Text? && Plain(m.value.text) && JsonVersion(m.value.text)
    else IndexOf(codes, Escape(m.key)).Some? ==> m.value.Text? && Plain(m.value.text)
  }

  predicate Scannable(members: seq<Member>, codes: SadCodes) {
    forall i | 0 <= i < |members| :: FieldFits(members[i], codes)
  }

  /** The text of a printed member, between its quotes. */
  function TextSpan(c: Cursor, m: Member): (nat, nat)
    requires m.value.Text?
  {
    (ColonOf(c, m).pos + 1, ColonOf(c, m).pos + 1 + |m.value.text|)
  }

  function Noted(c: Cursor, m: Member, codes: SadCodes, found: Sad): Sad {
    if !m.value.Text? then found
    else if Escape(m.key) == V then
      if JsonVersion(m.value.text) then found.(version := Some((TextSpan(c, m).0, VersionHead.ParseV1(m.value.text).value.size))) else found
    else
      match IndexOf(codes, Escape(m.key))
      case Some(i) => found.(spans := found.spans[i := TextSpan(c, m)])
      case None => found
  }

  function NextOf(c: Cursor, m: Member): Cursor {
    Cursor(AfterOf(c, m).pos + 1, AfterOf(c, m).budget)
  }

  /** What a scan notes of members printed from `c` on. */
  function SadOf(c: Cursor, members: seq<Member>, codes: SadCodes, found: Sad): Sad
    decreases |members|
  {
    if members == [] then found else SadOf(NextOf(c, members[0]), members[1..], codes, Noted(c, members[0], codes, found))
  }

  /** A field is accepted exactly if it is a value that fits its key. */
  lemma FieldExact(s: bytes, c: Cursor, m: Member, codes: SadCodes, found: Sad)
    requires ValueAt(s, ColonOf(c, m)) == Got((m.value, AfterOf(c, m)))
    ensures var r := FieldAt(s, ColonOf(c, m), Escape(m.key), codes, found);
            if FieldFits(m, codes) then r == Got((Noted(c, m, codes, found), AfterOf(c, m))) else r.Bad?
  {
    hide StringAt, ValueAt, Escape, Plain, VersionHead.ParseV1, Quoted;
    var colon, key := ColonOf(c, m), Escape(m.key);
    if key == V || IndexOf(codes, key).Some? {
      FoundString(s, colon, m.value, AfterOf(c, m));
      if m.value.Text? && Plain(m.value.text) {
        StringIsText(s, colon, m.value.text, AfterOf(c, m));
        PlainWidth(m.value.text);
      }
    }
  }

  lemma PlainWidth(t: bytes)
    requires Plain(t)
    ensures |Quoted(t)| == |t| + 2
  {
    PlainIsUnescaped(t);
  }

  lemma KeyStands(s: bytes, pos: nat, key: bytes)
    requires ValidUtf8(key) && At(s, pos, Quoted(key))
    ensures JsonTextAt(s, pos) == Got((key, pos + |Quoted(key)|))
    ensures Spelled(s, pos, pos + |Quoted(key)|) == Escape(key)
  {
    hide JsonTextAt, Utf8Run;
    JsonTextExact(s, pos, key, pos + |Quoted(key)|);
    SpelledIsEscape(s, pos, key, pos + |Quoted(key)|);
  }

  /** One printed field of a scan. */
  lemma ScanStep(s: bytes, c: Cursor, members: seq<Member>, codes: SadCodes, seen: set<bytes>, found: Sad)
    requires members != [] && CanonicalMembers(members) && Escape(members[0].key) !in seen
    requires At(s, c.pos, PrintMembers(members))
    requires Covers(c.budget, FieldsOfMembers(members), HeightOfMembers(members))
    ensures var m := members[0];
            var after := AfterOf(c, m);
            && At(s, after.pos, MoreMembers(members[1..]))
            && if !FieldFits(m, codes) then ScanFields(s, c, codes, seen, found).Bad?
               else if ByteAt(s, after.pos, 44)
               then ScanFields(s, c, codes, seen, found) ==
                    (var next := Expect(s, after, [44]); if next.Bad? then Bad(next.error) else ScanFields(s, next.value, codes, seen + {Escape(m.key)}, Noted(c, m, codes, found)))
               else ScanFields(s, c, codes, seen, found) ==
                    (var end := Expect(s, after, [125]); if end.Bad? then Bad(end.error) else Got((Noted(c, m, codes, found), end.value)))
  {
    hide JsonTextAt, Expect, FieldAt, FieldFits, Noted, ScanFields, ValueAt, Canonical, Print, Quoted, Fields, Height, Utf8Run, Escape, PrintMembers, MoreMembers, At;
    var m := members[0];
    MemberStands(s, c, members);
    KeyStands(s, c.pos, m.key);
    FieldExact(s, c, m, codes, found);
    UnfoldFields(s, c, codes, seen, found);
  }

  /** Of a printed object the scan accepts exactly the ones whose special fields fit; it then notes
      exactly where those fields stand, and stops behind the brace. */
  lemma {:induction false} ScanExact(s: bytes, c: Cursor, members: seq<Member>, codes: SadCodes, seen: set<bytes>, found: Sad)
    requires members != [] && CanonicalMembers(members) && DistinctKeys(members) && FreshKeys(members, seen)
    requires At(s, c.pos, PrintMembers(members))
    requires c.budget.depth > 0 && Covers(c.budget, FieldsOfMembers(members), HeightOfMembers(members))
    ensures ScanFields(s, c, codes, seen, found).Got? <==> Scannable(members, codes)
    ensures Scannable(members, codes) ==>
      && ScanFields(s, c, codes, seen, found).value.0 == SadOf(c, members, codes, found)
      && ScanFields(s, c, codes, seen, found).value.1.pos == c.pos + |PrintMembers(members)|
    decreases |members|
  {
    hide Expect, Noted, ScanFields, Canonical, DistinctKeys, FreshKeys, FieldFits, Print, Quoted, Fields, Height, Utf8Run, Escape, Scannable;
    var m, rest := members[0], members[1..];
    KeysStayFresh(members, seen);
    ScannableParts(members, codes);
    ScanStep(s, c, members, codes, seen, found);
    var after := AfterOf(c, m);
    FirstAt(s, after.pos, MoreMembers(rest));
    ExpectByte(s, after, 44);
    ExpectByte(s, after, 125);
    if rest == [] {
      ScannableParts(rest, codes);
    } else {
      assert MoreMembers(rest) == [44] + PrintMembers(rest);
      Split(s, after.pos, [44], PrintMembers(rest));
      ScanExact(s, NextOf(c, m), rest, codes, seen + {Escape(m.key)}, Noted(c, m, codes, found));
    }
  }

  lemma ScannableParts(members: seq<Member>, codes: SadCodes)
    ensures members != [] ==> (Scannable(members, codes) <==> FieldFits(members[0], codes) && Scannable(members[1..], codes))
    ensures members == [] ==> Scannable(members, codes)
  {
    hide FieldFits;
    if members != [] {
      assert forall i | 0 < i < |members| :: members[i] == members[1..][i - 1];
    }
  }

  // ── Nothing but canonical objects is scanned ───────────────────────────

  /** What a field of the scan holds is a canonical value. */
  lemma FieldIsValue(s: bytes, c: Cursor, key: bytes, codes: SadCodes, found: Sad) returns (value: Json)
    requires FieldAt(s, c, key, codes, found).Got? && c.budget.Within()
    ensures ValueAt(s, c) == Got((value, FieldAt(s, c, key, codes, found).value.1))
    ensures Canonical(value) && s[c.pos..FieldAt(s, c, key, codes, found).value.1.pos] == Print(value)
    ensures FieldAt(s, c, key, codes, found).value.1.budget.Within()
    ensures FieldAt(s, c, key, codes, found).value.1.budget.depth == c.budget.depth
  {
    hide StringAt, ValueAt, Canonical, Print, VersionHead.ParseV1;
    if StringAt(s, c.pos).Got? {
      var (t, end) := StringAt(s, c.pos).value;
      StringIsText(s, c, t, Cursor(end, c.budget));
    }
    ValueIsPrinted(s, c);
    value := ValueAt(s, c).value.0;
  }

  lemma KeyIsSpelled(s: bytes, c: Cursor) returns (key: bytes)
    requires JsonTextAt(s, c.pos).Got?
    requires Expect(s, Cursor(JsonTextAt(s, c.pos).value.1, c.budget), [58]).Got?
    ensures ValidUtf8(key) && Spelled(s, c.pos, JsonTextAt(s, c.pos).value.1) == Escape(key)
    ensures var colon := Expect(s, Cursor(JsonTextAt(s, c.pos).value.1, c.budget), [58]).value;
            c.pos < colon.pos <= |s| && colon.budget == c.budget && s[c.pos..colon.pos] == Quoted(key) + [58]
  {
    hide JsonTextAt, Expect, Quoted, Utf8Run, Escape;
    var end := JsonTextAt(s, c.pos).value.1;
    key := JsonTextAt(s, c.pos).value.0;
    JsonTextExact(s, c.pos, key, end);
    SpelledIsEscape(s, c.pos, key, end);
    ExpectByte(s, Cursor(end, c.budget), 58);
    assert s[c.pos..end] == s[c.pos..][..|Quoted(key)|] == Quoted(key);
    assert s[c.pos..end + 1] == s[c.pos..end] + [58];
  }

  /** The scan behind a field: what remains prints as the members that remain. */
  ghost predicate Remaining(s: bytes, from: nat, to: nat, members: seq<Member>, seen: set<bytes>) {
    && from <= to <= |s| && s[from..to] == MoreMembers(members)
    && CanonicalMembers(members) && DistinctKeys(members) && FreshKeys(members, seen)
  }

  /** A scan succeeds on nothing but the print of canonical members with distinct keys. */
  lemma {:induction false} ScannedIsPrinted(s: bytes, c: Cursor, codes: SadCodes, seen: set<bytes>, found: Sad) returns (members: seq<Member>)
    requires ScanFields(s, c, codes, seen, found).Got? && c.budget.Within() && c.budget.depth > 0
    ensures members != [] && CanonicalMembers(members) && DistinctKeys(members) && FreshKeys(members, seen)
    ensures c.pos <= ScanFields(s, c, codes, seen, found).value.1.pos
    ensures s[c.pos..ScanFields(s, c, codes, seen, found).value.1.pos] == PrintMembers(members)
    decreases |s| - c.pos, 1
  {
    hide JsonTextAt, Expect, FieldAt, ScanFields, Canonical, DistinctKeys, FreshKeys, MoreMembers, Print, Quoted, Utf8Run, Escape;
    UnfoldFields(s, c, codes, seen, found);
    var spelled := Spelled(s, c.pos, JsonTextAt(s, c.pos).value.1);
    var colon := Expect(s, Cursor(JsonTextAt(s, c.pos).value.1, c.budget), [58]).value;
    var key := KeyIsSpelled(s, c);
    var value := FieldIsValue(s, colon, spelled, codes, found);
    var (noted, after) := FieldAt(s, colon, spelled, codes, found).value;
    var end := ScanFields(s, c, codes, seen, found).value.1;
    var rest := RestIsPrinted(s, c, after, codes, seen + {spelled}, noted, end);
    members := [Member(key, value)] + rest;
    assert members[1..] == rest;
    KeysStayFresh(members, seen);
    Adjacent3(s, c.pos, colon.pos, after.pos, end.pos);
  }

  lemma {:induction false} RestIsPrinted(s: bytes, c: Cursor, after: Cursor, codes: SadCodes, seen: set<bytes>, noted: Sad, end: Cursor) returns (rest: seq<Member>)
    requires c.pos < after.pos <= |s| && after.budget.Within() && after.budget.depth > 0
    requires if ByteAt(s, after.pos, 44)
             then Expect(s, after, [44]).Got? && ScanFields(s, Expect(s, after, [44]).value, codes, seen, noted).Got?
                  && ScanFields(s, Expect(s, after, [44]).value, codes, seen, noted).value.1 == end
             else Expect(s, after, [125]) == Got(end)
    ensures Remaining(s, after.pos, end.pos, rest, seen)
    decreases |s| - c.pos, 0
  {
    hide Expect, ScanFields, CanonicalMembers, DistinctKeys, PrintMember;
    ExpectByte(s, after, 44);
    ExpectByte(s, after, 125);
    if ByteAt(s, after.pos, 44) {
      rest := ScannedIsPrinted(s, Expect(s, after, [44]).value, codes, seen, noted);
      assert s[after.pos..end.pos] == [44] + s[after.pos + 1..end.pos];
      assert MoreMembers(rest) == [44] + PrintMembers(rest);
    } else {
      rest := [];
      NoMembers();
      PrintNothing();
      assert DistinctKeys([]) by { NoKeys(); }
    }
  }

  lemma NoKeys()
    ensures DistinctKeys([])
  {
  }

  /** Main result: a document is scanned exactly if it is the compact print of a canonical object
      whose version field holds a JSON version string and whose digestive fields hold plain strings.
      The scan then notes exactly where these stand. */
  lemma ScanSadExact(s: bytes, codes: SadCodes)
    requires |s| <= ISIZE_MAX
    ensures ScanSad(s, codes).Got? <==> ObjectIn(s).Some? && Scannable(ObjectIn(s).value, codes)
    ensures ScanSad(s, codes).Got? ==>
      ScanSad(s, codes).value == SadOf(Cursor(1, UNLIMITED.(depth := 1)), ObjectIn(s).value, codes, NOTHING)
  {
    hide Expect, ScanFields, Scannable, SadOf, ObjectIn, Canonical, Print;
    if ObjectIn(s).Some? {
      ObjectInExact(s, ObjectIn(s).value);
      PrintedScan(s, ObjectIn(s).value, codes);
    } else if ScanSad(s, codes).Got? {
      var members := SadIsObject(s, codes);
      ObjectInExact(s, members);
    }
  }

  lemma PrintedScan(s: bytes, members: seq<Member>, codes: SadCodes)
    requires |s| <= ISIZE_MAX && Canonical(Object(members)) && s == Print(Object(members))
    ensures ScanSad(s, codes).Got? <==> Scannable(members, codes)
    ensures ScanSad(s, codes).Got? ==> ScanSad(s, codes).value == SadOf(Cursor(1, UNLIMITED.(depth := 1)), members, codes, NOTHING)
  {
    hide Expect, ScanFields, Scannable, SadOf, PrintMember, CanonicalMembers;
    CostWithinText(Object(members));
    assert s[0..] == s;
    Split(s, 0, [123], PrintMembers(members));
    FirstAt(s, 1, PrintMembers(members));
    ExpectByte(s, Cursor(0, UNLIMITED), 123);
    var c := Cursor(1, UNLIMITED.(depth := 1));
    if members == [] {
      ExpectByte(s, c, 125);
      ScannableParts(members, codes);
      assert SadOf(c, members, codes, NOTHING) == NOTHING by { NoSad(c, codes); }
    } else {
      assert PrintMember(members[0])[0] == QUOTE by { MemberQuote(members[0]); }
      assert FreshKeys(members, {});
      ScanExact(s, c, members, codes, {}, NOTHING);
    }
  }

  lemma NoSad(c: Cursor, codes: SadCodes)
    ensures SadOf(c, [], codes, NOTHING) == NOTHING
  {
  }

  lemma SadIsObject(s: bytes, codes: SadCodes) returns (members: seq<Member>)
    requires |s| <= ISIZE_MAX && ScanSad(s, codes).Got?
    ensures Canonical(Object(members)) && s == Print(Object(members))
  {
    hide Expect, ScanFields, PrintMember, CanonicalMembers;
    ExpectByte(s, Cursor(0, UNLIMITED), 123);
    var start := Expect(s, Cursor(0, UNLIMITED), [123]).value;
    ExpectByte(s, start, 125);
    if ByteAt(s, start.pos, 125) {
      members := [];
      NoMembers();
      assert s == [123, 125];
    } else {
      members := ScannedIsPrinted(s, start, codes, {}, NOTHING);
      assert s == [123] + s[1..|s|];
    }
  }
}
