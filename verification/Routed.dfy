/** Selecting a string field from a routed payload. */
module RoutedPayloads {
  import opened Prelude
  import opened JsonTexts
  import opened JsonValues
  import opened JsonReaders
  import opened JsonFields
  import opened Scanners

  // ── The search ─────────────────────────────────────────────────────────

  /** The search from a key on: the string under `name`, skipping the values of other keys. */
  function FindFrom(s: bytes, c: Cursor, name: bytes): Read<bytes>
    decreases |s| - c.pos
  {
    var key :- StringAt(s, c.pos);
    var colon :- Expect(s, Cursor(key.1, c.budget), [58]);
    if key.0 == name then
      var text :- StringAt(s, colon.pos);
      Got(text.0)
    else
      var value :- ValueAt(s, colon);
      NextKey(s, value.1, name)
  }

  /** After a skipped value: the next key, or the end of an object that lacks the field. */
  function NextKey(s: bytes, c: Cursor, name: bytes): Read<bytes>
    decreases |s| - c.pos
  {
    if ByteAt(s, c.pos, 125) then
      var end :- Expect(s, c, [125]);
      Bad(NonCanonical(end.pos))
    else
      var next :- Expect(s, c, [44]);
      FindFrom(s, next, name)
  }

  /** `payload_string_field`. */
  function FindString(payload: bytes, name: bytes): Read<bytes> {
    var start :- Expect(payload, Cursor(0, UNLIMITED), [123]);
    if ByteAt(payload, start.pos, 125) then
      var end :- Expect(payload, start, [125]);
      Bad(NonCanonical(end.pos))
    else FindFrom(payload, start, name)
  }

  method PayloadStringField(payload: bytes, name: bytes) returns (r: Read<bytes>)
    requires |payload| <= ISIZE_MAX
    ensures r == FindString(payload, name)
  {
    hide Expect, FindFrom, ValueAt, StringAt;
    var sc := new Scanner(payload, UNLIMITED);
    var brace := sc.Take([123]);
    if brace.Bad? {
      return Bad(brace.error);
    }
    ByteIsAt(payload, sc.pos, 125);
    var empty := sc.TakeLit([125]);
    if empty.Bad? {
      return Bad(empty.error);
    }
    if empty.value {
      return Bad(NonCanonical(sc.pos));
    }
    while true
      invariant sc.Valid() && FindString(payload, name) == FindFrom(payload, sc.Here(), name)
      decreases |payload| - sc.pos
    {
      UnfoldFind(payload, sc.Here(), name);
      var key := sc.String();
      if key.Bad? {
        return Bad(key.error);
      }
      var colon := sc.Take([58]);
      if colon.Bad? {
        return Bad(colon.error);
      }
      if key.value == name {
        r := sc.String();
        return;
      }
      var value := sc.ValueSpan();
      if value.Bad? {
        return Bad(value.error);
      }
      ByteIsAt(payload, sc.pos, 125);
      var end := sc.TakeLit([125]);
      if end.Bad? {
        return Bad(end.error);
      }
      if end.value {
        return Bad(NonCanonical(sc.pos));
      }
      var comma := sc.Take([44]);
      if comma.Bad? {
        return Bad(comma.error);
      }
    }
  }

  lemma UnfoldFind(s: bytes, c: Cursor, name: bytes)
    ensures var key := StringAt(s, c.pos);
            FindFrom(s, c, name) ==
              if key.Bad? then Bad(key.error)
              else
                var colon := Expect(s, Cursor(key.value.1, c.budget), [58]);
                if colon.Bad? then Bad(colon.error)
                else if key.value.0 == name then
                  var text := StringAt(s, colon.value.pos);
                  if text.Bad? then Bad(text.error) else Got(text.value.0)
                else
                  var value := ValueAt(s, colon.value);
                  if value.Bad? then Bad(value.error) else NextKey(s, value.value.1, name)
  {
    hide StringAt, Expect, ValueAt, NextKey;
  }

  // ── What the search finds ──────────────────────────────────────────────

  /** The text of the member named `name`, provided that neither it nor any key up to its own is
      spelled with an escape. */
  function Lookup(members: seq<Member>, name: bytes): Option<bytes> {
    if members == [] || !Plain(members[0].key) then None
    else if members[0].key != name then Lookup(members[1..], name)
    else if members[0].value.Text? && Plain(members[0].value.text) then Some(members[0].value.text)
    else None
  }

  predicate Agrees(r: Read<bytes>, found: Option<bytes>) {
    if found.Some? then r == Got(found.value) else r.Bad?
  }

  lemma {:induction false} FindExact(s: bytes, c: Cursor, members: seq<Member>, name: bytes)
    requires members != [] && CanonicalMembers(members) && At(s, c.pos, PrintMembers(members))
    requires c.budget.depth > 0 && Covers(c.budget, FieldsOfMembers(members), HeightOfMembers(members))
    ensures Agrees(FindFrom(s, c, name), Lookup(members, name))
    decreases |members|, 0
  {
    hide StringAt, Expect, ValueAt, NextKey, FindFrom, Canonical, Print, Quoted, Plain, Fields, Height, PrintMembers, MoreMembers, At;
    var m, rest := members[0], members[1..];
    MemberStands(s, c, members);
    KeyIsPlainOrRefused(s, c.pos, m.key);
    UnfoldFind(s, c, name);
    if Plain(m.key) {
      if m.key == name {
        FoundString(s, ColonOf(c, m), m.value, AfterOf(c, m));
      } else {
        NextKeyExact(s, AfterOf(c, m), rest, name);
      }
    }
  }

  lemma {:induction false} NextKeyExact(s: bytes, c: Cursor, members: seq<Member>, name: bytes)
    requires CanonicalMembers(members) && At(s, c.pos, MoreMembers(members))
    requires c.budget.depth > 0 && Covers(c.budget, FieldsOfMembers(members), HeightOfMembers(members))
    ensures Agrees(NextKey(s, c, name), Lookup(members, name))
    decreases |members|, 1
  {
    hide Expect, FindFrom, PrintMember, CanonicalMembers;
    FirstAt(s, c.pos, MoreMembers(members));
    ExpectByte(s, c, 125);
    if members != [] {
      assert MoreMembers(members) == [44] + PrintMembers(members);
      Split(s, c.pos, [44], PrintMembers(members));
      ExpectByte(s, c, 44);
      FindExact(s, Cursor(c.pos + 1, c.budget), members, name);
    }
  }

  /** Main result: on every canonical object the search answers as `Lookup` does on its members,
      and keys inside nested values never match. */
  lemma FindStringExact(members: seq<Member>, name: bytes)
    requires Canonical(Object(members)) && |Print(Object(members))| <= ISIZE_MAX
    ensures Agrees(FindString(Print(Object(members)), name), Lookup(members, name))
  {
    hide Expect, FindFrom, Canonical, PrintMember, Plain;
    var s := Print(Object(members));
    CanonicalParts(members);
    CostWithinText(Object(members));
    assert s[0..] == s;
    Split(s, 0, [123], PrintMembers(members));
    FirstAt(s, 1, PrintMembers(members));
    ExpectByte(s, Cursor(0, UNLIMITED), 123);
    var start := Cursor(1, UNLIMITED.(depth := 1));
    ExpectByte(s, start, 125);
    if members != [] {
      assert PrintMember(members[0])[0] == QUOTE by { MemberQuote(members[0]); }
      FindExact(s, start, members, name);
    }
  }

  lemma CanonicalParts(members: seq<Member>)
    requires Canonical(Object(members))
    ensures CanonicalMembers(members) && DistinctKeys(members)
  {
  }

  /** Member `i` is the first one named `name`, a string, and nothing up to there needs an escape. */
  ghost predicate FoundAt(members: seq<Member>, i: nat, name: bytes, t: bytes) {
    && i < |members|
    && members[i] == Member(name, Text(t)) && Plain(t)
    && (forall k | 0 <= k <= i :: Plain(members[k].key))
    && (forall k | 0 <= k < i :: members[k].key != name)
  }

  /** Exactly when the search returns a string. */
  lemma {:induction false} LookupMeaning(members: seq<Member>, name: bytes, t: bytes)
    ensures Lookup(members, name) == Some(t) <==> exists i: nat :: FoundAt(members, i, name, t)
    decreases |members|
  {
    hide Plain;
    if members != [] {
      var rest := members[1..];
      LookupMeaning(rest, name, t);
      if Lookup(members, name) == Some(t) {
        if members[0].key == name {
          assert FoundAt(members, 0, name, t);
        } else {
          var i: nat :| FoundAt(rest, i, name, t);
          assert forall k | 0 < k <= i + 1 :: members[k] == rest[k - 1];
          assert FoundAt(members, i + 1, name, t);
        }
      }
      if exists i: nat :: FoundAt(members, i, name, t) {
        var i: nat :| FoundAt(members, i, name, t);
        assert Plain(members[0].key);
        if i > 0 {
          assert forall k | 0 <= k <= i - 1 :: rest[k] == members[k + 1];
          assert FoundAt(rest, i - 1, name, t);
        }
      }
    }
  }

  const HIDDEN := Member([107], Text([118]))
  const HIDING := Member([QUOTE], Text([]))

  /** The promise read literally, "the first member with that name, when it is a string", fails: the
      search refuses `{"\"":"","k":"v"}`, whose member `k` is a string, because it stops at a key
      that is spelled with an escape. */
  lemma EscapedKeyHidesLaterFields()
    ensures Canonical(Object([HIDING, HIDDEN])) && HIDING.key != HIDDEN.key
    ensures FindString(Print(Object([HIDING, HIDDEN])), HIDDEN.key).Bad?
  {
    hide FindString;
    var members := [HIDING, HIDDEN];
    AsciiUtf8(Ready, [QUOTE]);
    AsciiUtf8(Ready, [107]);
    AsciiUtf8(Ready, [118]);
    assert members[1..] == [HIDDEN] && [HIDDEN][1..] == [];
    assert CanonicalMembers([]);
    assert CanonicalMembers([HIDDEN]);
    assert CanonicalMembers(members);
    HidingIsShort();
    FindStringExact(members, HIDDEN.key);
    assert !Plain(HIDING.key);
  }

  lemma HidingIsShort()
    ensures |Print(Object([HIDING, HIDDEN]))| <= ISIZE_MAX
  {
    var members := [HIDING, HIDDEN];
    assert members[1..] == [HIDDEN] && [HIDDEN][1..] == [];
    EscapeOne(QUOTE);
    EscapeOne(107);
    EscapeOne(118);
    assert MoreMembers([]) == [125];
    assert MoreMembers([HIDDEN]) == [44] + PrintMember(HIDDEN) + [125];
    assert PrintMembers(members) == PrintMember(HIDING) + MoreMembers([HIDDEN]);
  }
}
