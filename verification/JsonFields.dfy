/** Objects of fixed shape: literals that name their fields, and the objects read through them. */
module JsonFields {
  import opened Prelude
  import opened JsonTexts
  import opened JsonValues
  import opened JsonReaders
  import opened Scanners

  // ── Fixed fields ───────────────────────────────────────────────────────

  predicate FieldName(name: bytes) {
    name != [] && forall i | 0 <= i < |name| :: 97 <= name[i] <= 122
  }

  /** A literal that names a field, with what stands before it. */
  function FieldLit(lead: bytes, name: bytes): bytes {
    lead + Quoted(name) + [58]
  }

  lemma NamesAreSpelledPlainly(name: bytes)
    requires FieldName(name)
    ensures Plain(name) && Quoted(name) == [QUOTE] + name + [QUOTE] && ValidUtf8(name)
  {
    PlainIsUnescaped(name);
    AsciiUtf8(Ready, name);
  }

  /** The literal from inside the name charges one field. */
  lemma {:induction false} ChargeName(lit: bytes, at: nat, name: bytes, i: nat, pos: nat, b: Budget)
    requires FieldName(name) && i <= |name| && |lit| == at + |name| + 2
    requires lit[at..] == name + [QUOTE, 58]
    ensures Charge(lit, at + i, pos, b) ==
      if b.fields >= b.maxFields then Bad(FieldLimit(pos + at + |name|, b.maxFields)) else Got(Spend(b, 1))
    decreases |name| - i
  {
    assert forall k | 0 <= k < |name| + 2 :: lit[at + k] == (name + [QUOTE, 58])[k];
    if i < |name| {
      assert lit[at + i] == name[i];
      ChargeName(lit, at, name, i + 1, pos, b);
    } else {
      assert lit[at + i] == QUOTE && lit[at + i + 1] == 58;
      assert Charge(lit, at + i + 2, pos, Spend(b, 1)) == Got(Spend(b, 1));
      assert Charge(lit, at + i + 1, pos, Spend(b, 1)) == Got(Spend(b, 1));
    }
  }

  lemma LitShape(lead: bytes, name: bytes)
    requires FieldName(name)
    ensures var lit := FieldLit(lead, name);
            && |lit| == |lead| + |name| + 3 && lit[..|lead|] == lead
            && lit[|lead|] == QUOTE && lit[|lead| + 1] == name[0] && lit[|lead| + 1..] == name + [QUOTE, 58]
  {
    hide Escape;
    NamesAreSpelledPlainly(name);
    assert FieldLit(lead, name) == lead + ([QUOTE] + (name + [QUOTE, 58]));
  }

  /** From its opening quote on, a field literal charges one field. */
  lemma ChargeQuotedName(lead: bytes, name: bytes, pos: nat, b: Budget)
    requires FieldName(name)
    ensures var r := Charge(FieldLit(lead, name), |lead|, pos, b);
            if b.fields >= b.maxFields then r.Bad? else r == Got(Spend(b, 1))
  {
    hide FieldLit;
    var lit := FieldLit(lead, name);
    LitShape(lead, name);
    ChargeName(lit, |lead| + 1, name, 0, pos, b);
    assert Charge(lit, |lead|, pos, b) == Charge(lit, |lead| + 1, pos, b);
  }

  /** What a field literal charges: the brace it may begin with, and one field. */
  lemma ChargeField(lead: bytes, name: bytes, pos: nat, b: Budget)
    requires FieldName(name) && lead in {[], [44], [123]}
    ensures var r := Charge(FieldLit(lead, name), 0, pos, b);
            if lead == [123] && b.depth >= b.maxDepth then r.Bad?
            else if b.fields >= b.maxFields then r.Bad?
            else r == Got(Spend(if lead == [123] then b.(depth := b.depth + 1) else b, 1))
  {
    hide FieldLit;
    var lit := FieldLit(lead, name);
    LitShape(lead, name);
    ChargeQuotedName(lead, name, pos, b);
    if lead != [] {
      assert lit[0] == lit[..1][0] == lead[0];
      ChargeQuotedName(lead, name, pos, b.(depth := b.depth + 1));
    }
  }

  /** Stepping over a field literal is stepping over its lead and reading that key. */
  lemma FieldIsKey(s: bytes, c: Cursor, lead: bytes, name: bytes, keys: set<bytes>, next: Cursor)
    requires FieldName(name) && lead in {[], [44], [123]} && Escape(name) !in keys
    ensures Expect(s, c, FieldLit(lead, name)) == Got(next) <==>
      Expect(s, c, lead).Got? && KeyAt(s, Expect(s, c, lead).value, keys) == Got((name, next))
  {
    hide Charge, KeyAt, Quoted, Escape, Utf8Run;
    NamesAreSpelledPlainly(name);
    ChargeField(lead, name, c.pos, c.budget);
    LeadCharge(s, c, lead);
    var lit := FieldLit(lead, name);
    assert lit == lead + (Quoted(name) + [58]);
    if At(s, c.pos, lit) {
      Split(s, c.pos, lead, Quoted(name) + [58]);
      if Expect(s, c, lit).Got? {
        KeyIsRead(s, Expect(s, c, lead).value, keys, name);
      }
    }
    if Expect(s, c, lead).Got? && KeyAt(s, Expect(s, c, lead).value, keys).Got? {
      var start := Expect(s, c, lead).value;
      var (key, colon) := KeyAt(s, start, keys).value;
      KeyIsPrinted(s, start, keys);
      if key == name {
        assert s[start.pos..][..colon.pos - start.pos] == s[start.pos..colon.pos];
        Join(s, c.pos, lead, Quoted(name) + [58]);
      }
    }
  }

  lemma LeadCharge(s: bytes, c: Cursor, lead: bytes)
    requires lead in {[], [44], [123]}
    ensures var r := Expect(s, c, lead);
            if !At(s, c.pos, lead) then r.Bad?
            else if lead == [123] then r == if c.budget.depth >= c.budget.maxDepth then Bad(DepthLimit(c.pos, c.budget.maxDepth)) else Got(Cursor(c.pos + 1, c.budget.(depth := c.budget.depth + 1)))
            else r == Got(Cursor(c.pos + |lead|, c.budget))
  {
    if lead != [] {
      ExpectByte(s, c, lead[0]);
      if At(s, c.pos, lead) {
        AtIndex(s, c.pos, lead);
      }
    }
  }

  // ── Objects read field by field ────────────────────────────────────────

  /** The members of an object from `c` on: all of them after its brace, or those after a value. */
  function RestAt(s: bytes, c: Cursor, lead: bytes, keys: set<bytes>): Read<(seq<Member>, Cursor)> {
    if lead == [] then MemberAt(s, c, keys) else AfterMember(s, c, keys)
  }

  lemma RestIsMember(s: bytes, c: Cursor, lead: bytes, keys: set<bytes>, members: seq<Member>, end: Cursor)
    requires lead in {[], [44]} && members != []
    ensures RestAt(s, c, lead, keys) == Got((members, end)) <==>
      Expect(s, c, lead).Got? && MemberAt(s, Expect(s, c, lead).value, keys) == Got((members, end))
  {
    hide Expect, KeyAt, ValueAt;
    LeadCharge(s, c, lead);
    if lead == [44] {
      ByteIsAt(s, c.pos, 44);
    } else if c.pos > |s| {
      assert MemberAt(s, c, keys).Bad?;
    }
  }

  lemma MemberIsKeyAndValue(s: bytes, c: Cursor, keys: set<bytes>, name: bytes, value: Json, rest: seq<Member>, end: Cursor)
    ensures MemberAt(s, c, keys) == Got(([Member(name, value)] + rest, end)) <==>
      && KeyAt(s, c, keys).Got? && KeyAt(s, c, keys).value.0 == name
      && var start := KeyAt(s, c, keys).value.1;
         ValueAt(s, start).Got? && ValueAt(s, start).value.0 == value
         && AfterMember(s, ValueAt(s, start).value.1, keys + {Escape(name)}) == Got((rest, end))
  {
    hide KeyAt, ValueAt, AfterMember, Escape;
    var whole := [Member(name, value)] + rest;
    assert whole[0] == Member(name, value) && whole[1..] == rest;
    if MemberAt(s, c, keys) == Got((whole, end)) {
      var key := KeyAt(s, c, keys).value;
      var read := ValueAt(s, key.1).value;
      var more := AfterMember(s, read.1, keys + {Escape(key.0)}).value;
      assert ([Member(key.0, read.0)] + more.0)[0] == Member(key.0, read.0);
      assert ([Member(key.0, read.0)] + more.0)[1..] == more.0;
    }
  }

  /** The members that remain are `name: value` and `rest` exactly when the field literal, the
      value and the rest follow one another. */
  lemma FieldThen(s: bytes, c: Cursor, lead: bytes, keys: set<bytes>, name: bytes, value: Json, rest: seq<Member>, end: Cursor)
    requires FieldName(name) && lead in {[], [44]} && Escape(name) !in keys
    ensures RestAt(s, c, lead, keys) == Got(([Member(name, value)] + rest, end)) <==>
      && Expect(s, c, FieldLit(lead, name)).Got?
      && var start := Expect(s, c, FieldLit(lead, name)).value;
         ValueAt(s, start).Got? && ValueAt(s, start).value.0 == value
         && RestAt(s, ValueAt(s, start).value.1, [44], keys + {Escape(name)}) == Got((rest, end))
  {
    hide Expect, KeyAt, ValueAt, MemberAt, AfterMember, FieldLit, Escape;
    RestIsMember(s, c, lead, keys, [Member(name, value)] + rest, end);
    if Expect(s, c, FieldLit(lead, name)).Got? {
      FieldIsKey(s, c, lead, name, keys, Expect(s, c, FieldLit(lead, name)).value);
    }
    if Expect(s, c, lead).Got? {
      var start := Expect(s, c, lead).value;
      MemberIsKeyAndValue(s, start, keys, name, value, rest, end);
      if KeyAt(s, start, keys).Got? {
        FieldIsKey(s, c, lead, name, keys, KeyAt(s, start, keys).value.1);
      }
    }
  }

  lemma NoMoreFields(s: bytes, c: Cursor, keys: set<bytes>, end: Cursor)
    ensures RestAt(s, c, [44], keys) == Got(([], end)) <==> Expect(s, c, [125]) == Got(end)
  {
    hide KeyAt, ValueAt, AfterMember;
    ExpectByte(s, c, 125);
    ExpectByte(s, c, 44);
    RestOfNothing(s, c, keys);
  }

  lemma RestOfNothing(s: bytes, c: Cursor, keys: set<bytes>)
    ensures var r := AfterMember(s, c, keys);
            if ByteAt(s, c.pos, 44) then r.Got? ==> r.value.0 != []
            else if ByteAt(s, c.pos, 125) then r == if Expect(s, c, [125]).Bad? then Bad(Expect(s, c, [125]).error) else Got(([], Expect(s, c, [125]).value))
            else r.Bad?
  {
    hide Expect, KeyAt, ValueAt;
  }

  /** An object with at least one member is its brace and the rest. */
  lemma ObjectThen(s: bytes, c: Cursor, members: seq<Member>, end: Cursor)
    requires members != []
    ensures ValueAt(s, c) == Got((Object(members), end)) <==>
      Expect(s, c, [123]).Got? && RestAt(s, Expect(s, c, [123]).value, [], {}) == Got((members, end))
  {
    hide Expect, MemberAt, ItemsAt, ScalarAt;
    ExpectByte(s, c, 123);
    if !ByteAt(s, c.pos, 123) && !ByteAt(s, c.pos, 91) && ScalarAt(s, c.pos).Got? {
      ScalarIsPrinted(s, c.pos);
    }
    if Expect(s, c, [123]).Got? {
      MemberStartsWithQuote(s, Expect(s, c, [123]).value);
    }
  }

  lemma MemberStartsWithQuote(s: bytes, c: Cursor)
    ensures MemberAt(s, c, {}).Got? ==> ByteAt(s, c.pos, QUOTE)
  {
    hide ValueAt, AfterMember, JsonTextAt;
  }

  lemma TextIsValue(s: bytes, c: Cursor, t: bytes, after: Cursor)
    ensures JsonTextAt(s, c.pos) == Got((t, after.pos)) && after.budget == c.budget <==> ValueAt(s, c) == Got((Text(t), after))
  {
    hide TextAt, Utf8Checked, MembersAt, ItemsAt, NumberEnd;
  }

  /** A brace and a field in one literal are the brace and then the field. */
  lemma BracedField(s: bytes, c: Cursor, name: bytes, next: Cursor)
    requires FieldName(name)
    ensures Expect(s, c, FieldLit([123], name)) == Got(next) <==>
      Expect(s, c, [123]).Got? && Expect(s, Expect(s, c, [123]).value, FieldLit([], name)) == Got(next)
  {
    hide KeyAt, FieldLit, Charge;
    FieldIsKey(s, c, [123], name, {}, next);
    if Expect(s, c, [123]).Got? {
      var brace := Expect(s, c, [123]).value;
      LeadCharge(s, brace, []);
      FieldIsKey(s, brace, [], name, {}, next);
    }
  }

  /** A field that holds human text. */
  function TextField(s: bytes, c: Cursor, lead: bytes, name: bytes): (r: Read<(bytes, Cursor)>)
    ensures r.Got? && c.budget.Within() ==> r.value.1.budget.Within()
  {
    var start :- Expect(s, c, FieldLit(lead, name));
    var text :- JsonTextAt(s, start.pos);
    Got((text.0, Cursor(text.1, start.budget)))
  }

  /** A field that holds a plain string. */
  function StringField(s: bytes, c: Cursor, lead: bytes, name: bytes): (r: Read<(bytes, Cursor)>)
    ensures r.Got? && c.budget.Within() ==> r.value.1.budget.Within()
  {
    var start :- Expect(s, c, FieldLit(lead, name));
    var text :- StringAt(s, start.pos);
    Got((text.0, Cursor(text.1, start.budget)))
  }

  /** A field that holds an object, with the bytes it spans. */
  function ObjectField(s: bytes, c: Cursor, lead: bytes, name: bytes): (r: Read<((Json, bytes), Cursor)>)
    ensures r.Got? ==> |r.value.0.1| <= |s|
  {
    var start :- Expect(s, c, FieldLit(lead, name));
    var tree :- ObjectAt(s, start);
    Got(((tree.0, s[start.pos..tree.1.pos]), tree.1))
  }

  lemma TextFieldThen(s: bytes, c: Cursor, lead: bytes, keys: set<bytes>, name: bytes, t: bytes, rest: seq<Member>, end: Cursor)
    requires FieldName(name) && lead in {[], [44]} && Escape(name) !in keys
    ensures RestAt(s, c, lead, keys) == Got(([Member(name, Text(t))] + rest, end)) <==>
      var field := TextField(s, c, lead, name);
      field.Got? && field.value.0 == t && RestAt(s, field.value.1, [44], keys + {Escape(name)}) == Got((rest, end))
  {
    hide Expect, JsonTextAt, ValueAt, RestAt, FieldLit, Escape;
    FieldThen(s, c, lead, keys, name, Text(t), rest, end);
    if Expect(s, c, FieldLit(lead, name)).Got? {
      var start := Expect(s, c, FieldLit(lead, name)).value;
      if JsonTextAt(s, start.pos).Got? {
        TextIsValue(s, start, t, Cursor(JsonTextAt(s, start.pos).value.1, start.budget));
      }
      if ValueAt(s, start).Got? {
        TextIsValue(s, start, t, ValueAt(s, start).value.1);
      }
    }
  }

  lemma StringFieldThen(s: bytes, c: Cursor, lead: bytes, keys: set<bytes>, name: bytes, t: bytes, rest: seq<Member>, end: Cursor)
    requires FieldName(name) && lead in {[], [44]} && Escape(name) !in keys
    ensures Plain(t) && RestAt(s, c, lead, keys) == Got(([Member(name, Text(t))] + rest, end)) <==>
      var field := StringField(s, c, lead, name);
      field.Got? && field.value.0 == t && RestAt(s, field.value.1, [44], keys + {Escape(name)}) == Got((rest, end))
  {
    hide Expect, StringAt, ValueAt, RestAt, FieldLit, Escape, Plain;
    FieldThen(s, c, lead, keys, name, Text(t), rest, end);
    if Expect(s, c, FieldLit(lead, name)).Got? {
      var start := Expect(s, c, FieldLit(lead, name)).value;
      if StringAt(s, start.pos).Got? {
        StringIsText(s, start, t, Cursor(StringAt(s, start.pos).value.1, start.budget));
      }
      if ValueAt(s, start).Got? {
        StringIsText(s, start, t, ValueAt(s, start).value.1);
      }
    }
  }

  lemma ObjectFieldThen(s: bytes, c: Cursor, lead: bytes, keys: set<bytes>, name: bytes, members: seq<Member>, rest: seq<Member>, end: Cursor)
    requires FieldName(name) && lead in {[], [44]} && Escape(name) !in keys
    ensures RestAt(s, c, lead, keys) == Got(([Member(name, Object(members))] + rest, end)) <==>
      var field := ObjectField(s, c, lead, name);
      field.Got? && field.value.0.0 == Object(members) && RestAt(s, field.value.1, [44], keys + {Escape(name)}) == Got((rest, end))
  {
    hide Expect, ValueAt, RestAt, FieldLit, Escape;
    FieldThen(s, c, lead, keys, name, Object(members), rest, end);
    if Expect(s, c, FieldLit(lead, name)).Got? {
      ObjectsStartWithBrace(s, Expect(s, c, FieldLit(lead, name)).value);
    }
  }

  /** The bytes an object field spans are the compact print of its canonical tree. */
  lemma ObjectFieldSpan(s: bytes, c: Cursor, lead: bytes, name: bytes)
    requires c.budget.Within() && |s| <= ISIZE_MAX && ObjectField(s, c, lead, name).Got?
    ensures var (tree, span) := ObjectField(s, c, lead, name).value.0;
            tree.Object? && ObjectIn(span) == Some(tree.members) && span == Print(tree)
  {
    hide ValueAt, Canonical, Print, Charge;
    var start := Expect(s, c, FieldLit(lead, name)).value;
    ObjectsStartWithBrace(s, start);
    ValueIsPrinted(s, start);
    var (tree, end) := ObjectAt(s, start).value;
    ObjectInExact(s[start.pos..end.pos], tree.members);
  }

  /** The object that is the whole of `text`, if it is one. */
  function TreeIn(text: bytes): Json {
    var members := ObjectIn(text);
    if members.Some? then Object(members.value) else Null
  }

  /** As `ObjectFieldThen`, with the object given by the bytes it spans. */
  lemma SpanFieldThen(s: bytes, c: Cursor, keys: set<bytes>, name: bytes, span: bytes, rest: seq<Member>, end: Cursor)
    requires FieldName(name) && Escape(name) !in keys && c.budget.Within() && |s| <= ISIZE_MAX && |span| <= ISIZE_MAX
    ensures ObjectIn(span).Some? && RestAt(s, c, [44], keys) == Got(([Member(name, TreeIn(span))] + rest, end)) <==>
      var field := ObjectField(s, c, [44], name);
      field.Got? && field.value.0.1 == span && RestAt(s, field.value.1, [44], keys + {Escape(name)}) == Got((rest, end))
  {
    hide RestAt, Escape, ObjectIn, ObjectField, Canonical, Print;
    var field := ObjectField(s, c, [44], name);
    if field.Got? {
      ObjectFieldSpan(s, c, [44], name);
      ObjectFieldThen(s, c, [44], keys, name, field.value.0.0.members, rest, end);
    }
    if ObjectIn(span).Some? {
      ObjectInExact(span, ObjectIn(span).value);
      ObjectFieldThen(s, c, [44], keys, name, ObjectIn(span).value, rest, end);
    }
  }

  lemma ObjectsStartWithBrace(s: bytes, c: Cursor)
    ensures ValueAt(s, c).Got? && ValueAt(s, c).value.0.Object? <==> ObjectAt(s, c).Got?
    ensures ObjectAt(s, c).Got? ==> ObjectAt(s, c) == ValueAt(s, c)
  {
    hide Expect, MembersAt, ItemsAt, ScalarAt;
    if !ByteAt(s, c.pos, 123) && !ByteAt(s, c.pos, 91) && ScalarAt(s, c.pos).Got? {
      ScalarIsPrinted(s, c.pos);
    }
  }

  // ── Fields over a scanner ──────────────────────────────────────────────

  method ReadTextField(sc: Scanner, lead: bytes, name: bytes) returns (r: Read<bytes>)
    requires sc.Valid()
    modifies sc
    ensures sc.Valid()
    ensures match TextField(sc.input, old(sc.Here()), lead, name)
      case Got((text, end)) => r == Got(text) && sc.Here() == end
      case Bad(e) => r == Bad(e)
  {
    hide Expect, JsonTextAt, FieldLit;
    var named := sc.Take(FieldLit(lead, name));
    if named.Bad? {
      return Bad(named.error);
    }
    r := sc.JsonText();
  }

  method ReadStringField(sc: Scanner, lead: bytes, name: bytes) returns (r: Read<bytes>)
    requires sc.Valid()
    modifies sc
    ensures sc.Valid()
    ensures match StringField(sc.input, old(sc.Here()), lead, name)
      case Got((text, end)) => r == Got(text) && sc.Here() == end
      case Bad(e) => r == Bad(e)
  {
    hide Expect, StringAt, FieldLit;
    var named := sc.Take(FieldLit(lead, name));
    if named.Bad? {
      return Bad(named.error);
    }
    r := sc.String();
  }

  method ReadObjectField(sc: Scanner, lead: bytes, name: bytes) returns (r: Read<bytes>)
    requires sc.Valid()
    modifies sc
    ensures sc.Valid()
    ensures match ObjectField(sc.input, old(sc.Here()), lead, name)
      case Got(((_, span), end)) => r == Got(span) && sc.Here() == end
      case Bad(e) => r == Bad(e)
  {
    hide Expect, ObjectAt, FieldLit;
    var named := sc.Take(FieldLit(lead, name));
    if named.Bad? {
      return Bad(named.error);
    }
    r := sc.ObjectValueSpan();
  }

  // ── Objects read member by member ─────────────────────────────────────

  /** Where the value and the rest of an object stand behind a printed member. */
  function ColonOf(c: Cursor, m: Member): Cursor {
    Cursor(c.pos + |Quoted(m.key)| + 1, c.budget)
  }

  function AfterOf(c: Cursor, m: Member): Cursor {
    Cursor(ColonOf(c, m).pos + |Print(m.value)|, Spend(c.budget, Fields(m.value)))
  }

  lemma ColonStands(s: bytes, c: Cursor, m: Member)
    requires At(s, c.pos, Quoted(m.key) + [58])
    ensures At(s, c.pos, Quoted(m.key))
    ensures Expect(s, Cursor(c.pos + |Quoted(m.key)|, c.budget), [58]) == Got(ColonOf(c, m))
  {
    hide Expect, Quoted;
    Split(s, c.pos, Quoted(m.key), [58]);
    ByteIsAt(s, c.pos + |Quoted(m.key)|, 58);
    ExpectByte(s, Cursor(c.pos + |Quoted(m.key)|, c.budget), 58);
  }

  lemma MemberStands(s: bytes, c: Cursor, members: seq<Member>)
    requires members != [] && CanonicalMembers(members) && At(s, c.pos, PrintMembers(members))
    requires Covers(c.budget, FieldsOfMembers(members), HeightOfMembers(members))
    ensures var m := members[0];
            && At(s, c.pos, Quoted(m.key))
            && Expect(s, Cursor(c.pos + |Quoted(m.key)|, c.budget), [58]) == Got(ColonOf(c, m))
            && ValueAt(s, ColonOf(c, m)) == Got((m.value, AfterOf(c, m)))
            && At(s, AfterOf(c, m).pos, MoreMembers(members[1..]))
  {
    hide Expect, ValueAt, Canonical, Print, Quoted, Fields, Height, At, MoreMembers;
    var m, rest := members[0], members[1..];
    var first := Quoted(m.key) + [58];
    assert PrintMembers(members) == first + (Print(m.value) + MoreMembers(rest));
    SplitAt(s, c.pos, first, Print(m.value) + MoreMembers(rest));
    ColonStands(s, c, m);
    MoreStarts(rest);
    ValueStands(s, ColonOf(c, m), m.value, MoreMembers(rest));
  }

  lemma SplitAt(s: bytes, pos: nat, a: bytes, b: bytes)
    requires At(s, pos, a + b)
    ensures At(s, pos, a) && At(s, pos + |a|, b)
  {
    Split(s, pos, a, b);
  }

  lemma MoreStarts(members: seq<Member>)
    ensures MoreMembers(members) != [] && MoreMembers(members)[0] in {44, 93, 125}
  {
    hide PrintMember;
  }

  lemma ValueStands(s: bytes, c: Cursor, value: Json, more: bytes)
    requires Canonical(value) && At(s, c.pos, Print(value) + more) && more != [] && more[0] in {44, 93, 125}
    requires Covers(c.budget, Fields(value), Height(value))
    ensures ValueAt(s, c) == Got((value, Cursor(c.pos + |Print(value)|, Spend(c.budget, Fields(value)))))
    ensures At(s, c.pos + |Print(value)|, more)
  {
    hide ValueAt, Canonical, Print, Fields, Height, At;
    SplitAt(s, c.pos, Print(value), more);
    SeparatorStopsNumber(s, c.pos + |Print(value)|, more);
    PrintedIsValue(s, c, value);
  }

  lemma KeyIsPlainOrRefused(s: bytes, pos: nat, key: bytes)
    requires ValidUtf8(key) && At(s, pos, Quoted(key))
    ensures if Plain(key) then StringAt(s, pos) == Got((key, pos + |Quoted(key)|)) else StringAt(s, pos).Bad?
  {
    hide StringAt, JsonTextAt, Quoted, Utf8Run, Plain;
    var end := pos + |Quoted(key)|;
    JsonTextExact(s, pos, key, end);
    StringExact(s, pos, key, end);
    if StringAt(s, pos).Got? {
      StringExact(s, pos, StringAt(s, pos).value.0, StringAt(s, pos).value.1);
    }
  }

  /** A value is read as a fixed string exactly if it is a plain string. */
  lemma FoundString(s: bytes, c: Cursor, value: Json, after: Cursor)
    requires ValueAt(s, c) == Got((value, after))
    ensures if value.Text? && Plain(value.text) then StringAt(s, c.pos).Got? && StringAt(s, c.pos).value.0 == value.text
            else StringAt(s, c.pos).Bad?
  {
    hide StringAt, ValueAt, Plain;
    if StringAt(s, c.pos).Got? {
      var (t, end) := StringAt(s, c.pos).value;
      StringIsText(s, c, t, Cursor(end, c.budget));
    }
    if value.Text? {
      StringIsText(s, c, value.text, after);
    }
  }

  lemma MemberQuote(m: Member)
    ensures |PrintMember(m)| > 0 && PrintMember(m)[0] == QUOTE
  {
  }

  /** Canonical objects with the same compact print are the same. */
  lemma PrintIsInjective(a: Json, b: Json)
    requires a.Object? && b.Object? && Canonical(a) && Canonical(b) && Print(a) == Print(b)
    ensures a == b
  {
    hide ValueAt, Canonical, Print, Fields, Height;
    var c := Cursor(0, Budget(Fields(a) + Fields(b), Height(a) + Height(b), 0, 0));
    assert Print(a)[0..] == Print(a);
    PrintedIsValue(Print(a), c, a);
    PrintedIsValue(Print(a), c, b);
  }

  // ── Objects built member by member ────────────────────────────────────

  lemma CanonicalWith(m: Member, rest: seq<Member>)
    requires ValidUtf8(m.key) && Canonical(m.value) && CanonicalMembers(rest)
    ensures CanonicalMembers([m] + rest)
  {
    assert ([m] + rest)[1..] == rest;
  }

  lemma CostWith(m: Member, rest: seq<Member>)
    ensures FieldsOfMembers([m] + rest) == 1 + Fields(m.value) + FieldsOfMembers(rest)
    ensures HeightOfMembers([m] + rest) == Max(Height(m.value), HeightOfMembers(rest))
    ensures FieldsOfMembers([]) == 0 && HeightOfMembers([]) == 0
  {
    assert ([m] + rest)[1..] == rest;
  }

  lemma PrintWith(m: Member, rest: seq<Member>)
    ensures PrintMembers([m] + rest) == FieldLit([], m.key) + Print(m.value) + MoreMembers(rest)
    ensures MoreMembers([m] + rest) == FieldLit([44], m.key) + Print(m.value) + MoreMembers(rest)
  {
    hide Quoted, Print;
    assert ([m] + rest)[1..] == rest;
  }

  lemma PrintNothing()
    ensures MoreMembers([]) == [125]
  {
  }

  // ── Whole texts ────────────────────────────────────────────────────────

  /** The members of the canonical object that is the whole of `text`. */
  function ObjectIn(text: bytes): Option<seq<Member>> {
    match ObjectAt(text, Cursor(0, UNLIMITED))
    case Got((Object(members), end)) => if end.pos == |text| then Some(members) else None
    case _ => None
  }

  /** A caller's text is accepted as an object exactly when it is the compact print of a canonical
      one. */
  lemma ObjectInExact(text: bytes, members: seq<Member>)
    requires |text| <= ISIZE_MAX
    ensures ObjectIn(text) == Some(members) <==> Canonical(Object(members)) && text == Print(Object(members))
  {
    hide ValueAt, Canonical, Print;
    var c := Cursor(0, UNLIMITED);
    var end := Cursor(|text|, Spend(UNLIMITED, Fields(Object(members))));
    ObjectExact(text, c, members, end);
    assert text[0..] == text;
    if Canonical(Object(members)) && text == Print(Object(members)) {
      CostWithinText(Object(members));
      PrintedObjectStarts(members);
    }
    var read := ValueAt(text, c);
    if ObjectIn(text) == Some(members) {
      ValueIsPrinted(text, c);
    }
  }

  lemma PrintedObjectStarts(members: seq<Member>)
    ensures |Print(Object(members))| > 0 && Print(Object(members))[0] == 123
  {
  }
}
