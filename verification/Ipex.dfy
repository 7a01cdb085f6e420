/** The payload maps of the IPEX messages: builders, strict readers, and their agreement. */
module IpexPayloads {
  import opened Prelude
  import CounterCodes
  import opened JsonTexts
  import opened JsonValues
  import opened JsonReaders
  import opened JsonFields
  import opened Scanners

  datatype IpexRoute = Apply | Offer | Agree | Grant | Admit | Spurn

  // ── Payloads ───────────────────────────────────────────────────────────

  /** What a route's payload map carries. SAIDs and identifiers are their qb64 texts; the filter
      object of an application is carried verbatim. */
  datatype Payload =
    | Application(message: bytes, schema: bytes, filter: bytes, recipient: bytes)
    | Transfer(message: bytes, recipient: bytes)
    | Note(message: bytes)

  const M: bytes := [109]
  const S: bytes := [115]
  const A: bytes := [97]
  const I: bytes := [105]

  /** Which texts decode as a SAID and which as an identifier, taken as given. */
  datatype Lift = Lift(said: bytes -> bool, identifier: bytes -> bool)

  predicate Qb64(text: bytes) {
    forall i | 0 <= i < |text| :: CounterCodes.B64Index(text[i]).Ok?
  }

  /** The payload map as a JSON tree. */
  function TreeOf(p: Payload): Json {
    Object(MembersOf(p))
  }

  function MembersOf(p: Payload): seq<Member> {
    match p
    case Application(message, schema, filter, recipient) =>
      [Member(M, Text(message))] + ([Member(S, Text(schema))] + ([Member(A, TreeIn(filter))] + [Member(I, Text(recipient))]))
    case Transfer(message, recipient) => [Member(M, Text(message))] + [Member(I, Text(recipient))]
    case Note(message) => [Member(M, Text(message))]
  }

  /** What the parameter types of the builders guarantee: a message that is UTF-8, and SAIDs and
      identifiers in qb64. */
  predicate Typed(lift: Lift, p: Payload) {
    && ValidUtf8(p.message)
    && (p.Application? ==> Qb64(p.schema) && Qb64(p.recipient) && |p.filter| <= ISIZE_MAX)
    && (p.Transfer? ==> Qb64(p.recipient))
    && Decodes(lift, p)
  }

  /** The primitives of a payload decode. */
  predicate Decodes(lift: Lift, p: Payload) {
    && (p.Application? ==> lift.said(p.schema) && lift.identifier(p.recipient))
    && (p.Transfer? ==> lift.identifier(p.recipient))
  }

  /** The payloads the builders accept: the filter is a canonical object. */
  predicate Sendable(lift: Lift, p: Payload) {
    Typed(lift, p) && (p.Application? ==> ObjectIn(p.filter).Some?)
  }

  predicate ForRoute(route: IpexRoute, p: Payload) {
    match route
    case Apply => p.Application?
    case Grant => p.Transfer?
    case _ => p.Note?
  }

  // ── Strict readers ─────────────────────────────────────────────────────

  /** A string field that holds a primitive. */
  function PrimitiveField(decodes: bytes -> bool, s: bytes, c: Cursor, lead: bytes, name: bytes): (r: Read<(bytes, Cursor)>)
    ensures r.Got? && c.budget.Within() ==> r.value.1.budget.Within()
  {
    var text :- StringField(s, c, lead, name);
    if decodes(text.0) then Got(text) else Bad(InvalidPrimitive)
  }

  /** `apply_payload`. */
  function ApplicationAt(lift: Lift, s: bytes, c: Cursor): (r: Read<(Payload, Cursor)>)
    ensures r.Got? ==> r.value.0.Application? && |r.value.0.filter| <= |s|
  {
    var brace :- Expect(s, c, [123]);
    var message :- TextField(s, brace, [], M);
    var schema :- PrimitiveField(lift.said, s, message.1, [44], S);
    var filter :- ObjectField(s, schema.1, [44], A);
    var recipient :- PrimitiveField(lift.identifier, s, filter.1, [44], I);
    var end :- Expect(s, recipient.1, [125]);
    Got((Application(message.0, schema.0, filter.0.1, recipient.0), end))
  }

  /** `grant_payload`. */
  function TransferAt(lift: Lift, s: bytes, c: Cursor): (r: Read<(Payload, Cursor)>)
    ensures r.Got? ==> r.value.0.Transfer?
  {
    var brace :- Expect(s, c, [123]);
    var message :- TextField(s, brace, [], M);
    var recipient :- PrimitiveField(lift.identifier, s, message.1, [44], I);
    var end :- Expect(s, recipient.1, [125]);
    Got((Transfer(message.0, recipient.0), end))
  }

  /** `message_only`, whose first literal holds the brace and the field name. */
  function NoteAt(s: bytes, c: Cursor): (r: Read<(Payload, Cursor)>)
    ensures r.Got? ==> r.value.0.Note?
  {
    var message :- TextField(s, c, [123], M);
    var end :- Expect(s, message.1, [125]);
    Got((Note(message.0), end))
  }

  function PayloadAt(lift: Lift, route: IpexRoute, s: bytes, c: Cursor): (r: Read<(Payload, Cursor)>)
    ensures r.Got? ==> ForRoute(route, r.value.0) && (r.value.0.Application? ==> |r.value.0.filter| <= |s|)
  {
    match route
    case Apply => ApplicationAt(lift, s, c)
    case Grant => TransferAt(lift, s, c)
    case _ => NoteAt(s, c)
  }

  // ── The readers are the value reader on one shape ──────────────────────

  /** Texts in fixed fields need no escape and decode, and the filter is an object. */
  predicate Fixed(lift: Lift, p: Payload) {
    && Decodes(lift, p)
    && (p.Application? ==> Plain(p.schema) && Plain(p.recipient) && ObjectIn(p.filter).Some?)
    && (p.Transfer? ==> Plain(p.recipient))
  }

  lemma NamesAreDistinct()
    ensures FieldName(M) && FieldName(S) && FieldName(A) && FieldName(I)
    ensures Escape(M) == M && Escape(S) == S && Escape(A) == A && Escape(I) == I
  {
    PlainIsUnescaped(M);
    PlainIsUnescaped(S);
    PlainIsUnescaped(A);
    PlainIsUnescaped(I);
  }

  lemma NoteExact(s: bytes, c: Cursor, p: Payload, end: Cursor)
    requires p.Note?
    ensures NoteAt(s, c) == Got((p, end)) <==> ValueAt(s, c) == Got((TreeOf(p), end))
  {
    hide Expect, JsonTextAt, ValueAt, RestAt, FieldLit, Escape;
    NamesAreDistinct();
    ObjectThen(s, c, MembersOf(p), end);
    if Expect(s, c, FieldLit([123], M)).Got? {
      BracedField(s, c, M, Expect(s, c, FieldLit([123], M)).value);
    }
    if Expect(s, c, [123]).Got? {
      var brace := Expect(s, c, [123]).value;
      if Expect(s, brace, FieldLit([], M)).Got? {
        BracedField(s, c, M, Expect(s, brace, FieldLit([], M)).value);
      }
      assert MembersOf(p) == [Member(M, Text(p.message))] + [];
      TextFieldThen(s, brace, [], {}, M, p.message, [], end);
      if TextField(s, brace, [], M).Got? {
        NoMoreFields(s, TextField(s, brace, [], M).value.1, {} + {Escape(M)}, end);
      }
    }
  }

  lemma TransferExact(lift: Lift, s: bytes, c: Cursor, p: Payload, end: Cursor)
    requires p.Transfer?
    ensures TransferAt(lift, s, c) == Got((p, end)) <==> Fixed(lift, p) && ValueAt(s, c) == Got((TreeOf(p), end))
  {
    hide Expect, TextField, StringField, ValueAt, RestAt, Escape, Plain;
    NamesAreDistinct();
    ObjectThen(s, c, MembersOf(p), end);
    if Expect(s, c, [123]).Got? {
      var brace := Expect(s, c, [123]).value;
      TextFieldThen(s, brace, [], {}, M, p.message, [Member(I, Text(p.recipient))], end);
      var message := TextField(s, brace, [], M);
      if message.Got? {
        RecipientEnds(lift.identifier, s, message.value.1, {} + {Escape(M)}, p.recipient, end);
      }
    }
  }

  /** The last field of a payload, and the closing brace. */
  lemma RecipientEnds(decodes: bytes -> bool, s: bytes, c: Cursor, keys: set<bytes>, recipient: bytes, end: Cursor)
    requires I !in keys
    ensures Plain(recipient) && decodes(recipient) && RestAt(s, c, [44], keys) == Got(([Member(I, Text(recipient))], end)) <==>
      var field := PrimitiveField(decodes, s, c, [44], I);
      field.Got? && field.value.0 == recipient && Expect(s, field.value.1, [125]) == Got(end)
  {
    hide Expect, StringField, RestAt, Escape, Plain;
    NamesAreDistinct();
    assert [Member(I, Text(recipient))] == [Member(I, Text(recipient))] + [];
    StringFieldThen(s, c, [44], keys, I, recipient, [], end);
    if StringField(s, c, [44], I).Got? {
      NoMoreFields(s, StringField(s, c, [44], I).value.1, keys + {Escape(I)}, end);
    }
  }

  lemma ApplicationExact(lift: Lift, s: bytes, c: Cursor, p: Payload, end: Cursor)
    requires p.Application? && |p.filter| <= ISIZE_MAX && c.budget.Within() && |s| <= ISIZE_MAX
    ensures ApplicationAt(lift, s, c) == Got((p, end)) <==> Fixed(lift, p) && ValueAt(s, c) == Got((TreeOf(p), end))
  {
    hide Expect, TextField, StringField, ObjectField, ValueAt, RestAt, Escape, Plain, ObjectIn;
    NamesAreDistinct();
    ObjectThen(s, c, MembersOf(p), end);
    if Expect(s, c, [123]).Got? {
      var brace := Expect(s, c, [123]).value;
      var recipient := [Member(I, Text(p.recipient))];
      var filter := [Member(A, TreeIn(p.filter))] + recipient;
      TextFieldThen(s, brace, [], {}, M, p.message, [Member(S, Text(p.schema))] + filter, end);
      var message := TextField(s, brace, [], M);
      if message.Got? {
        StringFieldThen(s, message.value.1, [44], {} + {Escape(M)}, S, p.schema, filter, end);
        var schema := PrimitiveField(lift.said, s, message.value.1, [44], S);
        if schema.Got? {
          SpanFieldThen(s, schema.value.1, {} + {Escape(M)} + {Escape(S)}, A, p.filter, recipient, end);
          var field := ObjectField(s, schema.value.1, [44], A);
          if field.Got? {
            RecipientEnds(lift.identifier, s, field.value.1, {} + {Escape(M)} + {Escape(S)} + {A}, p.recipient, end);
          }
        }
      }
    }
  }

  /** Main result: a route's strict reader is the value reader on payloads of that route's shape,
      with plain fixed fields; in particular it consumes what a whole value consumes. */
  lemma PayloadExact(lift: Lift, route: IpexRoute, s: bytes, c: Cursor, p: Payload, end: Cursor)
    requires c.budget.Within() && |s| <= ISIZE_MAX && (p.Application? ==> |p.filter| <= ISIZE_MAX)
    ensures PayloadAt(lift, route, s, c) == Got((p, end)) <==> ForRoute(route, p) && Fixed(lift, p) && ValueAt(s, c) == Got((TreeOf(p), end))
  {
    hide ApplicationAt, TransferAt, NoteAt, ValueAt, Plain, ObjectIn;
    match p {
      case Application(_, _, _, _) => ApplicationExact(lift, s, c, p, end);
      case Transfer(_, _) => TransferExact(lift, s, c, p, end);
      case Note(_) => NoteExact(s, c, p, end);
    }
  }

  // ── Round trip ─────────────────────────────────────────────────────────

  lemma {:induction false} Qb64IsPlain(text: bytes)
    requires Qb64(text)
    ensures Plain(text) && ValidUtf8(text)
    decreases |text|
  {
    assert forall i | 0 <= i < |text| :: CounterCodes.B64Index(text[i]).Ok? ==> 45 <= text[i] <= 122 && text[i] != BACKSLASH;
    if text != [] {
      AsciiUtf8(Ready, text);
    }
  }

  /** What the filter adds to the cost of an application. */
  function FilterFields(p: Payload): nat {
    if p.Application? then Fields(TreeIn(p.filter)) else 0
  }

  function FilterHeight(p: Payload): nat {
    if p.Application? then Height(TreeIn(p.filter)) else 0
  }

  lemma CostOfPayload(p: Payload)
    ensures Fields(TreeOf(p)) == |MembersOf(p)| + FilterFields(p)
    ensures Height(TreeOf(p)) == 1 + FilterHeight(p)
  {
    var message := Member(M, Text(p.message));
    match p {
      case Note(_) =>
        assert MembersOf(p) == [message] + [];
        CostWith(message, []);
      case Transfer(_, recipient) =>
        var last := Member(I, Text(recipient));
        assert [last] + [] == [last];
        CostWith(last, []);
        CostWith(message, [last]);
      case Application(_, schema, filter, recipient) =>
        var last := Member(I, Text(recipient));
        var middle := [Member(A, TreeIn(filter))] + [last];
        assert [last] + [] == [last];
        CostWith(last, []);
        CostWith(Member(A, TreeIn(filter)), [last]);
        CostWith(Member(S, Text(schema)), middle);
        CostWith(message, [Member(S, Text(schema))] + middle);
    }
  }

  lemma SendableIsCanonical(lift: Lift, p: Payload)
    requires Sendable(lift, p)
    ensures Canonical(TreeOf(p)) && Fixed(lift, p)
  {
    hide Utf8Run, Qb64, Plain, ObjectIn, CanonicalMembers;
    NamesAreText();
    NoMembers();
    var message := Member(M, Text(p.message));
    match p {
      case Note(_) =>
        assert MembersOf(p) == [message] + [];
        CanonicalWith(message, []);
      case Transfer(_, recipient) =>
        Qb64IsPlain(recipient);
        var last := Member(I, Text(recipient));
        CanonicalWith(last, []);
        assert [last] + [] == [last];
        CanonicalWith(message, [last]);
      case Application(_, schema, filter, recipient) =>
        Qb64IsPlain(recipient);
        Qb64IsPlain(schema);
        ObjectInExact(filter, ObjectIn(filter).value);
        var last := Member(I, Text(recipient));
        var middle := [Member(A, TreeIn(filter))] + [last];
        CanonicalWith(last, []);
        assert [last] + [] == [last];
        CanonicalWith(Member(A, TreeIn(filter)), [last]);
        CanonicalWith(Member(S, Text(schema)), middle);
        CanonicalWith(message, [Member(S, Text(schema))] + middle);
    }
  }

  lemma NamesAreText()
    ensures ValidUtf8(M) && ValidUtf8(S) && ValidUtf8(A) && ValidUtf8(I)
  {
    AsciiUtf8(Ready, M);
    AsciiUtf8(Ready, S);
    AsciiUtf8(Ready, A);
    AsciiUtf8(Ready, I);
  }

  /** Main result: reading a rendered payload recovers every part of it, to the last byte, exactly
      when the budget admits the payload's fields and depth. */
  lemma PayloadRoundTrip(lift: Lift, route: IpexRoute, p: Payload, b: Budget)
    requires ForRoute(route, p) && Sendable(lift, p) && b.Within() && |Print(TreeOf(p))| <= ISIZE_MAX
    ensures var s := Print(TreeOf(p));
            PayloadAt(lift, route, s, Cursor(0, b)) == Got((p, Cursor(|s|, Spend(b, |MembersOf(p)| + FilterFields(p))))) <==>
              Covers(b, |MembersOf(p)| + FilterFields(p), 1 + FilterHeight(p))
  {
    hide PayloadAt, ValueAt, Canonical, Print, Fields, Height, MembersOf, Fixed, Sendable;
    var s := Print(TreeOf(p));
    SendableIsCanonical(lift, p);
    CostOfPayload(p);
    FilterIsShort(lift, p);
    var end := Cursor(|s|, Spend(b, Fields(TreeOf(p))));
    PayloadExact(lift, route, s, Cursor(0, b), p, end);
    ObjectExact(s, Cursor(0, b), MembersOf(p), end);
    assert s[0..] == s;
  }

  lemma FilterIsShort(lift: Lift, p: Payload)
    requires Sendable(lift, p)
    ensures p.Application? ==> |p.filter| <= ISIZE_MAX
  {
  }

  // ── The readers, over a scanner ────────────────────────────────────────

  method ReadPrimitiveField(decodes: bytes -> bool, sc: Scanner, lead: bytes, name: bytes) returns (r: Read<bytes>)
    requires sc.Valid()
    modifies sc
    ensures sc.Valid()
    ensures match PrimitiveField(decodes, sc.input, old(sc.Here()), lead, name)
      case Got((text, end)) => r == Got(text) && sc.Here() == end
      case Bad(e) => r == Bad(e)
  {
    hide StringField;
    r := ReadStringField(sc, lead, name);
    if r.Got? && !decodes(r.value) {
      r := Bad(InvalidPrimitive);
    }
  }

  /** `apply_payload`: the filter is carried as the bytes it spans. */
  method ApplyPayload(lift: Lift, sc: Scanner) returns (r: Read<Payload>)
    requires sc.Valid()
    modifies sc
    ensures sc.Valid()
    ensures match ApplicationAt(lift, sc.input, old(sc.Here()))
      case Got((p, end)) => r == Got(p) && sc.Here() == end
      case Bad(e) => r == Bad(e)
  {
    hide Expect, TextField, PrimitiveField, ObjectField;
    var brace := sc.Take([123]);
    if brace.Bad? {
      return Bad(brace.error);
    }
    var message := ReadTextField(sc, [], M);
    if message.Bad? {
      return Bad(message.error);
    }
    var schema := ReadPrimitiveField(lift.said, sc, [44], S);
    if schema.Bad? {
      return Bad(schema.error);
    }
    var filter := ReadObjectField(sc, [44], A);
    if filter.Bad? {
      return Bad(filter.error);
    }
    var recipient := ReadPrimitiveField(lift.identifier, sc, [44], I);
    if recipient.Bad? {
      return Bad(recipient.error);
    }
    var close := sc.Take([125]);
    if close.Bad? {
      return Bad(close.error);
    }
    r := Got(Application(message.value, schema.value, filter.value, recipient.value));
  }

  /** `grant_payload`. */
  method GrantPayload(lift: Lift, sc: Scanner) returns (r: Read<Payload>)
    requires sc.Valid()
    modifies sc
    ensures sc.Valid()
    ensures match TransferAt(lift, sc.input, old(sc.Here()))
      case Got((p, end)) => r == Got(p) && sc.Here() == end
      case Bad(e) => r == Bad(e)
  {
    hide Expect, TextField, PrimitiveField;
    var brace := sc.Take([123]);
    if brace.Bad? {
      return Bad(brace.error);
    }
    var message := ReadTextField(sc, [], M);
    if message.Bad? {
      return Bad(message.error);
    }
    var recipient := ReadPrimitiveField(lift.identifier, sc, [44], I);
    if recipient.Bad? {
      return Bad(recipient.error);
    }
    var close := sc.Take([125]);
    if close.Bad? {
      return Bad(close.error);
    }
    r := Got(Transfer(message.value, recipient.value));
  }

  /** `message_only`. */
  method MessageOnly(sc: Scanner) returns (r: Read<Payload>)
    requires sc.Valid()
    modifies sc
    ensures sc.Valid()
    ensures match NoteAt(sc.input, old(sc.Here()))
      case Got((p, end)) => r == Got(p) && sc.Here() == end
      case Bad(e) => r == Bad(e)
  {
    hide Expect, TextField;
    var message := ReadTextField(sc, [123], M);
    if message.Bad? {
      return Bad(message.error);
    }
    var close := sc.Take([125]);
    if close.Bad? {
      return Bad(close.error);
    }
    r := Got(Note(message.value));
  }

  /** The payload part of `IpexMessage::parse`. */
  method ParsePayload(lift: Lift, route: IpexRoute, attrs: bytes, maxFields: usize, maxDepth: usize) returns (r: Read<Payload>)
    requires |attrs| <= ISIZE_MAX
    ensures var payload := PayloadAt(lift, route, attrs, Cursor(0, Budget(maxFields, maxDepth, 0, 0)));
            r == if payload.Got? then Got(payload.value.0) else Bad(payload.error)
  {
    hide ApplicationAt, TransferAt, NoteAt;
    var sc := new Scanner(attrs, Budget(maxFields, maxDepth, 0, 0));
    match route {
      case Apply => r := ApplyPayload(lift, sc);
      case Grant => r := GrantPayload(lift, sc);
      case _ => r := MessageOnly(sc);
    }
  }

  // ── The builders ───────────────────────────────────────────────────────

  /** A payload as its builder spells it, field after field. */
  function Spell(p: Payload): bytes {
    match p
    case Application(message, schema, filter, recipient) =>
      [123] + (FieldLit([], M) + Quoted(message) + (FieldLit([44], S) + Quoted(schema) + (FieldLit([44], A) + filter
        + (FieldLit([44], I) + Quoted(recipient) + [125]))))
    case Transfer(message, recipient) =>
      [123] + (FieldLit([], M) + Quoted(message) + (FieldLit([44], I) + Quoted(recipient) + [125]))
    case Note(message) => [123] + (FieldLit([], M) + Quoted(message) + [125])
  }

  /** The builders spell the compact print of the payload's tree. */
  lemma SpellIsPrint(p: Payload)
    requires p.Application? ==> ObjectIn(p.filter).Some? && |p.filter| <= ISIZE_MAX
    ensures Spell(p) == Print(TreeOf(p))
  {
    hide Quoted, FieldLit, ObjectIn, Utf8Run, Qb64;
    PrintNothing();
    match p {
      case Note(message) =>
        assert MembersOf(p) == [Member(M, Text(message))] + [];
        PrintWith(Member(M, Text(message)), []);
      case Transfer(message, recipient) =>
        assert [Member(I, Text(recipient))] == [Member(I, Text(recipient))] + [];
        PrintWith(Member(I, Text(recipient)), []);
        PrintWith(Member(M, Text(message)), [Member(I, Text(recipient))]);
      case Application(message, schema, filter, recipient) =>
        ObjectInExact(filter, ObjectIn(filter).value);
        var last := [Member(I, Text(recipient))];
        var middle := [Member(A, TreeIn(filter))] + last;
        assert last == last + [];
        PrintWith(Member(I, Text(recipient)), []);
        PrintWith(Member(A, TreeIn(filter)), last);
        PrintWith(Member(S, Text(schema)), middle);
        PrintWith(Member(M, Text(message)), [Member(S, Text(schema))] + middle);
    }
  }

  /** The value a builder writes after a field name, and what it has still to write. */
  lemma Written(before: bytes, name: bytes, value: bytes, rest: bytes)
    ensures before + name + value + rest == before + (name + value + rest)
  {
  }

  /** The name of a field: its comma, its quoted name and its colon. */
  method WriteName(buf: Buffer, lead: bytes, name: bytes)
    modifies buf
    ensures buf.data == old(buf.data) + FieldLit(lead, name)
  {
    hide Quoted;
    buf.Extend(lead);
    WriteStr(buf, name);
    buf.Extend([58]);
  }

  method WriteTextField(buf: Buffer, lead: bytes, name: bytes, text: bytes, ghost rest: bytes)
    modifies buf
    ensures buf.data + rest == old(buf.data) + (FieldLit(lead, name) + Quoted(text) + rest)
  {
    hide Quoted, FieldLit;
    ghost var before := buf.data;
    WriteName(buf, lead, name);
    WriteStr(buf, text);
    Written(before, FieldLit(lead, name), Quoted(text), rest);
  }

  /** A primitive is written between quotes as it is. */
  method WriteQb64Field(buf: Buffer, lead: bytes, name: bytes, qb64: bytes, ghost rest: bytes)
    requires Qb64(qb64)
    modifies buf
    ensures buf.data + rest == old(buf.data) + (FieldLit(lead, name) + Quoted(qb64) + rest)
  {
    hide FieldLit, Qb64, Plain, Escape;
    ghost var before := buf.data;
    WriteName(buf, lead, name);
    buf.Extend([QUOTE]);
    buf.Extend(qb64);
    buf.Extend([QUOTE]);
    Qb64IsPlain(qb64);
    PlainIsUnescaped(qb64);
    assert buf.data == before + FieldLit(lead, name) + Quoted(qb64);
    Written(before, FieldLit(lead, name), Quoted(qb64), rest);
  }

  /** Render a payload through one scratch buffer. */
  method RenderPayload(ghost lift: Lift, p: Payload) returns (r: bytes)
    requires Typed(lift, p)
    ensures r == Spell(p)
  {
    hide Quoted, FieldLit, Qb64, Utf8Run;
    var buf := new Buffer([]);
    buf.Extend([123]);
    match p {
      case Application(message, schema, filter, recipient) =>
        ghost var last := FieldLit([44], I) + Quoted(recipient) + [125];
        ghost var middle := FieldLit([44], A) + filter + last;
        WriteTextField(buf, [], M, message, FieldLit([44], S) + Quoted(schema) + middle);
        WriteQb64Field(buf, [44], S, schema, middle);
        ghost var before := buf.data;
        WriteName(buf, [44], A);
        buf.Extend(filter);
        Written(before, FieldLit([44], A), filter, last);
        WriteQb64Field(buf, [44], I, recipient, [125]);
      case Transfer(message, recipient) =>
        WriteTextField(buf, [], M, message, FieldLit([44], I) + Quoted(recipient) + [125]);
        WriteQb64Field(buf, [44], I, recipient, [125]);
      case Note(message) =>
        WriteTextField(buf, [], M, message, [125]);
    }
    buf.Extend([125]);
    r := buf.data;
  }

  /** One canonical object that is all of `text`. */
  method CheckObject(text: bytes) returns (r: Read<()>)
    requires |text| <= ISIZE_MAX
    ensures r.Got? <==> ObjectIn(text).Some?
  {
    hide ValueAt;
    var sc := new Scanner(text, UNLIMITED);
    var span := sc.ObjectValueSpan();
    ObjectsAreObjects(text, Cursor(0, UNLIMITED));
    if span.Bad? {
      return Bad(span.error);
    }
    r := sc.Finish();
  }

  lemma ObjectsAreObjects(s: bytes, c: Cursor)
    ensures ObjectAt(s, c).Got? ==> ObjectAt(s, c).value.0.Object?
  {
    hide Expect, MembersAt;
  }

  /** The payload part of the six builders: the filter of an application is checked before it is
      rendered and the whole payload after that. The first check alone decides: what passes it
      renders as UTF-8 and as one canonical object. */
  method BuildPayload(ghost lift: Lift, p: Payload) returns (r: Read<bytes>)
    requires Typed(lift, p) && |Spell(p)| <= ISIZE_MAX
    ensures r.Got? <==> Sendable(lift, p)
    ensures r.Got? ==> r.value == Print(TreeOf(p))
  {
    hide Spell, ObjectIn, Utf8Run, Qb64, Print, Canonical, TreeOf;
    if p.Application? {
      var filter := CheckObject(p.filter);
      if filter.Bad? {
        return Bad(filter.error);
      }
    }
    var payload := RenderPayload(lift, p);
    SpellIsPrint(p);
    RenderedIsObject(lift, p);
    if !ValidUtf8(payload) {
      assert false;
    }
    var whole := CheckObject(payload);
    if whole.Bad? {
      assert false;
    }
    r := Got(payload);
  }

  lemma RenderedIsObject(lift: Lift, p: Payload)
    requires Sendable(lift, p) && |Print(TreeOf(p))| <= ISIZE_MAX
    ensures ValidUtf8(Print(TreeOf(p))) && ObjectIn(Print(TreeOf(p))) == Some(MembersOf(p))
  {
    hide Print, Canonical, ObjectIn, Utf8Run, Qb64, MembersOf;
    SendableIsCanonical(lift, p);
    PrintIsUtf8(TreeOf(p));
    ObjectInExact(Print(TreeOf(p)), MembersOf(p));
  }

  /** Main result: whatever a builder renders, the reader of its route takes apart into exactly what
      went in, under every limit that admits it. */
  method BuildThenParse(lift: Lift, route: IpexRoute, p: Payload, maxFields: usize, maxDepth: usize) returns (r: Read<Payload>)
    requires ForRoute(route, p) && Sendable(lift, p) && |Spell(p)| <= ISIZE_MAX
    ensures Covers(Budget(maxFields, maxDepth, 0, 0), |MembersOf(p)| + FilterFields(p), 1 + FilterHeight(p)) ==> r == Got(p)
  {
    hide Spell, ObjectIn, Utf8Run, Qb64, Print, Canonical, TreeOf, MembersOf, PayloadAt, Fields, Height;
    SpellIsPrint(p);
    var payload := BuildPayload(lift, p);
    PayloadRoundTrip(lift, route, p, Budget(maxFields, maxDepth, 0, 0));
    r := ParsePayload(lift, route, payload.value, maxFields, maxDepth);
  }
}
