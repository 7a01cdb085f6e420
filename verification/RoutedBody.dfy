/** V1 routed query and reply bodies: rendering with a computed digest, and the strict parse that
    verifies it. */
module RoutedBodies {
  import opened Prelude
  import opened JsonTexts
  import opened JsonValues
  import opened JsonReaders
  import opened JsonFields
  import opened Scanners
  import opened SadScans
  import opened SadSlots
  import opened Saids
  import VersionHead

  datatype MessageType = Qry | Rpy

  /** Only queries carry a reply route. The payload is kept as the bytes it spans. */
  datatype RoutedBody = RoutedBody(kind: MessageType, said: bytes, datetime: bytes, route: bytes, replyRoute: bytes, payload: bytes)

  const T: bytes := [116]
  const D: bytes := [100]
  const DT: bytes := [100, 116]
  const R: bytes := [114]
  const RR: bytes := [114, 114]

  function Code(kind: MessageType): bytes {
    if kind == Qry then [113, 114, 121] else [114, 112, 121]
  }

  /** The field that holds the payload: `q` in a query, `a` in a reply. */
  function PayloadName(kind: MessageType): bytes {
    if kind == Qry then [113] else [97]
  }

  // ── The body as a tree ─────────────────────────────────────────────────

  function PayloadMembers(b: RoutedBody): seq<Member> {
    [Member(PayloadName(b.kind), TreeIn(b.payload))]
  }

  function RouteMembers(b: RoutedBody): seq<Member> {
    [Member(R, Text(b.route))] + if b.kind == Qry then [Member(RR, Text(b.replyRoute))] + PayloadMembers(b) else PayloadMembers(b)
  }

  function DigestMembers(b: RoutedBody): seq<Member> {
    [Member(D, Text(b.said))] + ([Member(DT, Text(b.datetime))] + RouteMembers(b))
  }

  function BodyMembers(version: bytes, b: RoutedBody): seq<Member> {
    [Member(V, Text(version))] + ([Member(T, Text(Code(b.kind)))] + DigestMembers(b))
  }

  function BodyTree(version: bytes, b: RoutedBody): Json {
    Object(BodyMembers(version, b))
  }

  /** `KERI10JSON`, six hex digits that give the size, and `_`. */
  predicate DeclaresSize(version: bytes, size: nat) {
    && JsonVersion(version)
    && version[..4] == [75, 69, 82, 73]
    && HexValue(version[4]) == Some(1)
    && HexValue(version[5]) == Some(0)
    && VersionHead.ParseV1(version).value.size == size
  }

  // ── The strict parse ───────────────────────────────────────────────────

  const VERSION_AT: nat := 6
  const VERSION_END: nat := 23

  /** `ParsedEvent::head`: the version string by its fixed place, then the message type. */
  function HeadAt(s: bytes, b: Budget): (r: Read<(bytes, Cursor)>)
    ensures r.Got? && b.Within() ==> r.value.1.budget.Within()
    ensures r.Got? ==> |s| >= VERSION_END
  {
    var quote :- Expect(s, Cursor(0, b), FieldLit([123], V) + [QUOTE]);
    if |s| < VERSION_END then Bad(NonCanonical(quote.pos))
    else if !DeclaresSize(s[VERSION_AT..VERSION_END], |s|) then Bad(BadVersionString)
    else
      var t :- Expect(s, Cursor(VERSION_END, quote.budget), [QUOTE] + FieldLit([44], T));
      var tag :- StringAt(s, t.pos);
      Got((tag.0, Cursor(tag.1, t.budget)))
  }

  function KindOf(tag: bytes): Option<MessageType> {
    if tag == Code(Qry) then Some(Qry) else if tag == Code(Rpy) then Some(Rpy) else None
  }

  /** The reply route of a query; nothing in a reply. */
  function ReplyRouteAt(s: bytes, c: Cursor, kind: MessageType): (r: Read<(bytes, Cursor)>)
    ensures r.Got? && c.budget.Within() ==> r.value.1.budget.Within()
  {
    if kind == Qry then StringField(s, c, [44], RR) else Got(([], c))
  }

  /** The fields after the message type. */
  function FieldsAt(s: bytes, c: Cursor, kind: MessageType): (r: Read<(RoutedBody, Cursor)>)
    ensures r.Got? ==> r.value.0.kind == kind && |r.value.0.payload| <= |s|
  {
    var said :- StringField(s, c, [44], D);
    var datetime :- StringField(s, said.1, [44], DT);
    var route :- StringField(s, datetime.1, [44], R);
    var reply :- ReplyRouteAt(s, route.1, kind);
    var payload :- ObjectField(s, reply.1, [44], PayloadName(kind));
    var end :- Expect(s, payload.1, [125]);
    Got((RoutedBody(kind, said.0, datetime.0, route.0, reply.0, payload.0.1), end))
  }

  /** The grammar of a body, without its digest. */
  function GrammarOf(s: bytes, b: Budget): (r: Read<RoutedBody>)
    ensures r.Got? ==> |r.value.payload| <= |s|
  {
    var head :- HeadAt(s, b);
    var kind := KindOf(head.0);
    if kind.None? then Bad(NonCanonical(head.1.pos)) else
      var body :- FieldsAt(s, head.1, kind.value);
      if body.1.pos != |s| then Bad(NonCanonical(body.1.pos)) else Got(body.0)
  }

  /** The one digestive field of a routed body. */
  function SaidCodes(code: DigestCode): (codes: SadCodes)
    ensures |codes| == 1
    ensures forall key :: IndexOf(codes, key) == if key == D then Some(0) else None
  {
    assert [(D, code)][1..] == [];
    [(D, code)]
  }

  /** `RoutedBody::parse`. A body with a V2 version string is refused before anything else. */
  function Parse(suite: Suite, s: bytes, b: Budget): Read<RoutedBody> {
    if At(s, 0, FieldLit([123], V) + [QUOTE]) && VersionHead.ParsesAsV2(s[VERSION_AT..]) then Bad(BadVersionString) else
      var body :- GrammarOf(s, b);
      var code := suite.infer(body.said);
      if code.None? then Bad(UnknownDigestCode) else
        var verified :- Verified(suite, s, SaidCodes(code.value));
        Got(body)
  }

  // ── The parse over a scanner ───────────────────────────────────────────

  method Head(sc: Scanner) returns (r: Read<bytes>)
    requires sc.Valid() && sc.pos == 0
    modifies sc
    ensures sc.Valid()
    ensures match HeadAt(sc.input, old(sc.budget))
      case Got((tag, end)) => r == Got(tag) && sc.Here() == end
      case Bad(e) => r == Bad(e)
  {
    hide Expect, StringAt, DeclaresSize, FieldLit;
    var opening := sc.Take(FieldLit([123], V) + [QUOTE]);
    if opening.Bad? {
      return Bad(opening.error);
    }
    if |sc.input| < VERSION_END {
      return Bad(NonCanonical(sc.pos));
    }
    if !DeclaresSize(sc.input[VERSION_AT..VERSION_END], |sc.input|) {
      return Bad(BadVersionString);
    }
    sc.pos := VERSION_END;
    var t := sc.Take([QUOTE] + FieldLit([44], T));
    if t.Bad? {
      return Bad(t.error);
    }
    r := sc.String();
  }

  method BodyFields(sc: Scanner, kind: MessageType) returns (r: Read<RoutedBody>)
    requires sc.Valid()
    modifies sc
    ensures sc.Valid()
    ensures match FieldsAt(sc.input, old(sc.Here()), kind)
      case Got((body, end)) => r == Got(body) && sc.Here() == end
      case Bad(e) => r == Bad(e)
  {
    hide Expect, StringField, ObjectField;
    var said := ReadStringField(sc, [44], D);
    if said.Bad? {
      return Bad(said.error);
    }
    var datetime := ReadStringField(sc, [44], DT);
    if datetime.Bad? {
      return Bad(datetime.error);
    }
    var route := ReadStringField(sc, [44], R);
    if route.Bad? {
      return Bad(route.error);
    }
    var replyRoute := [];
    if kind == Qry {
      var reply := ReadStringField(sc, [44], RR);
      if reply.Bad? {
        return Bad(reply.error);
      }
      replyRoute := reply.value;
    }
    var payload := ReadObjectField(sc, [44], PayloadName(kind));
    if payload.Bad? {
      return Bad(payload.error);
    }
    var close := sc.Take([125]);
    if close.Bad? {
      return Bad(close.error);
    }
    r := Got(RoutedBody(kind, said.value, datetime.value, route.value, replyRoute, payload.value));
  }

  method ParseBody(suite: Suite, raw: bytes, limits: Budget) returns (r: Read<RoutedBody>)
    requires |raw| <= ISIZE_MAX && limits.Within()
    ensures r == Parse(suite, raw, limits)
  {
    hide HeadAt, FieldsAt, Verified, FieldLit, VersionHead.ParsesAsV2, KindOf;
    var opening := FieldLit([123], V) + [QUOTE];
    V2PrefixLength();
    if |opening| <= |raw| && raw[..|opening|] == opening && VersionHead.ParsesAsV2(raw[VERSION_AT..]) {
      assert raw[0..] == raw;
      return Bad(BadVersionString);
    }
    assert raw[0..] == raw;
    var sc := new Scanner(raw, limits);
    var tag := Head(sc);
    if tag.Bad? {
      return Bad(tag.error);
    }
    var kind := KindOf(tag.value);
    if kind.None? {
      return Bad(NonCanonical(sc.pos));
    }
    var body := BodyFields(sc, kind.value);
    if body.Bad? {
      return Bad(body.error);
    }
    var done := sc.Finish();
    if done.Bad? {
      return Bad(done.error);
    }
    var code := suite.infer(body.value.said);
    if code.None? {
      return Bad(UnknownDigestCode);
    }
    var verified := Verify(suite, raw, SaidCodes(code.value));
    return if verified.Bad? then Bad(verified.error) else body;
  }

  lemma V2PrefixLength()
    ensures |FieldLit([123], V) + [QUOTE]| == VERSION_AT
  {
    hide Escape;
    Names();
  }

  // ── The grammar is the value reader on one shape ───────────────────────

  lemma {:induction false} ChargeBeforeQuote(lit: bytes, i: nat, pos: nat, b: Budget)
    requires i <= |lit| && lit != [] && lit[|lit| - 1] != QUOTE
    ensures Charge(lit + [QUOTE], i, pos, b) == Charge(lit, i, pos, b)
    decreases |lit| - i
  {
    var longer := lit + [QUOTE];
    if i < |lit| {
      assert longer[i] == lit[i] && (i + 1 < |lit| ==> longer[i + 1] == lit[i + 1]);
      ChargeBeforeQuote(lit, i + 1, pos, b);
      if Opens(lit[i]) {
        ChargeBeforeQuote(lit, i + 1, pos, b.(depth := b.depth + 1));
      } else if Closes(lit[i]) && b.depth > 0 {
        ChargeBeforeQuote(lit, i + 1, pos, b.(depth := b.depth - 1));
      } else if EndsKey(lit, i) {
        ChargeBeforeQuote(lit, i + 1, pos, b.(fields := b.fields + 1));
      }
    } else {
      assert Charge(longer, |lit| + 1, pos, b) == Got(b);
    }
  }

  lemma {:induction false} ChargeAfterQuote(lit: bytes, i: nat, pos: nat, b: Budget)
    requires i <= |lit|
    ensures Charge([QUOTE] + lit, i + 1, pos, b) == Charge(lit, i, pos + 1, b)
    decreases |lit| - i
  {
    var longer := [QUOTE] + lit;
    if i < |lit| {
      assert longer[i + 1] == lit[i] && (i + 1 < |lit| ==> longer[i + 2] == lit[i + 1]);
      ChargeAfterQuote(lit, i + 1, pos, b);
      if Opens(lit[i]) {
        ChargeAfterQuote(lit, i + 1, pos, b.(depth := b.depth + 1));
      } else if Closes(lit[i]) && b.depth > 0 {
        ChargeAfterQuote(lit, i + 1, pos, b.(depth := b.depth - 1));
      } else if EndsKey(lit, i) {
        ChargeAfterQuote(lit, i + 1, pos, b.(fields := b.fields + 1));
      }
    }
  }

  /** A literal that runs on into a quote is the literal and then the quote. */
  lemma ExpectThenQuote(s: bytes, c: Cursor, lit: bytes, next: Cursor)
    requires lit != [] && lit[|lit| - 1] != QUOTE
    ensures Expect(s, c, lit + [QUOTE]) == Got(next) <==>
      next.pos > 0 && Expect(s, c, lit) == Got(Cursor(next.pos - 1, next.budget)) && ByteAt(s, next.pos - 1, QUOTE)
  {
    hide Charge;
    ChargeBeforeQuote(lit, 0, c.pos, c.budget);
    if At(s, c.pos, lit + [QUOTE]) {
      Split(s, c.pos, lit, [QUOTE]);
      ByteIsAt(s, c.pos + |lit|, QUOTE);
    }
    if At(s, c.pos, lit) && ByteAt(s, c.pos + |lit|, QUOTE) {
      FirstAt(s, c.pos, lit);
      ByteIsAt(s, c.pos + |lit|, QUOTE);
      Join(s, c.pos, lit, [QUOTE]);
    }
  }

  /** A literal that starts with a closing quote is the quote and then the literal. */
  lemma QuoteThenExpect(s: bytes, c: Cursor, lit: bytes, next: Cursor)
    requires lit != [] && lit[0] != 58
    ensures Expect(s, c, [QUOTE] + lit) == Got(next) <==>
      ByteAt(s, c.pos, QUOTE) && Expect(s, Cursor(c.pos + 1, c.budget), lit) == Got(next)
  {
    assert ([QUOTE] + lit)[1] == lit[0];
    ChargeAfterQuote(lit, 0, c.pos, c.budget);
    assert Charge([QUOTE] + lit, 0, c.pos, c.budget) == Charge([QUOTE] + lit, 1, c.pos, c.budget);
    hide Charge;
    if At(s, c.pos, [QUOTE] + lit) {
      Split(s, c.pos, [QUOTE], lit);
      ByteIsAt(s, c.pos, QUOTE);
    }
    if ByteAt(s, c.pos, QUOTE) && At(s, c.pos + 1, lit) {
      ByteIsAt(s, c.pos, QUOTE);
      Join(s, c.pos, [QUOTE], lit);
    }
  }

  lemma VersionIsPlain(version: bytes, size: nat)
    requires DeclaresSize(version, size)
    ensures |version| == VersionHead.V1_LEN && Plain(version) && ValidUtf8(version)
  {
    JsonVersionIsPlain(version);
  }

  lemma Names()
    ensures FieldName(V) && FieldName(T) && FieldName(D) && FieldName(DT) && FieldName(R) && FieldName(RR)
    ensures FieldName(PayloadName(Qry)) && FieldName(PayloadName(Rpy))
    ensures Escape(V) == V && Escape(T) == T && Escape(D) == D && Escape(DT) == DT && Escape(R) == R && Escape(RR) == RR
    ensures Escape(PayloadName(Qry)) == PayloadName(Qry) && Escape(PayloadName(Rpy)) == PayloadName(Rpy)
    ensures |Quoted(V)| == 3 && |Quoted(T)| == 3 && |Quoted(D)| == 3
  {
    hide Escape;
    PlainIsUnescaped(V);
    PlainIsUnescaped(T);
    PlainIsUnescaped(D);
    PlainIsUnescaped(DT);
    PlainIsUnescaped(R);
    PlainIsUnescaped(RR);
    PlainIsUnescaped(PayloadName(Qry));
    PlainIsUnescaped(PayloadName(Rpy));
  }

  /** Reading the version string by its place is reading it as the first field. */
  lemma VersionByPlace(s: bytes, b: Budget, version: bytes, next: Cursor)
    requires DeclaresSize(version, |s|)
    ensures |s| >= VERSION_END && s[VERSION_AT..VERSION_END] == version
            && Expect(s, Cursor(0, b), FieldLit([123], V) + [QUOTE]) == Got(Cursor(VERSION_AT, next.budget))
            && ByteAt(s, VERSION_END, QUOTE) && next.pos == VERSION_END + 1
      <==> Expect(s, Cursor(0, b), [123]).Got? && StringField(s, Expect(s, Cursor(0, b), [123]).value, [], V) == Got((version, next))
  {
    hide Charge, JsonTextAt, StringAt, Utf8Run, Escape, DeclaresSize;
    Names();
    VersionIsPlain(version, |s|);
    PlainIsUnescaped(version);
    var c := Cursor(0, b);
    var lit := FieldLit([123], V);
    assert |lit| == 5 && lit[4] == 58;
    ExpectThenQuote(s, c, lit, Cursor(VERSION_AT, next.budget));
    BracedField(s, c, V, Cursor(5, next.budget));
    StringExact(s, 5, version, 24);
    JsonTextExact(s, 5, version, 24);
    if |s| >= VERSION_END && s[VERSION_AT..VERSION_END] == version && ByteAt(s, 5, QUOTE) && ByteAt(s, VERSION_END, QUOTE) {
      assert s[5..24] == [QUOTE] + s[VERSION_AT..VERSION_END] + [QUOTE];
      assert s[5..][..19] == s[5..24];
    }
    if At(s, 5, Quoted(version)) {
      AtIndex(s, 5, Quoted(version));
      assert s[VERSION_AT..VERSION_END] == s[5..][1..18] == Quoted(version)[1..18] == version;
    }
    StringExact(s, 5, version, next.pos);
    JsonTextExact(s, 5, version, next.pos);
    if Expect(s, c, [123]).Got? {
      var brace := Expect(s, c, [123]).value;
      if Expect(s, brace, FieldLit([], V)).Got? {
        BracedField(s, c, V, Expect(s, brace, FieldLit([], V)).value);
      }
    }
  }

  /** The fixed fields are plain strings, a reply has no reply route, and the payload is a canonical
      object. */
  predicate Shaped(b: RoutedBody) {
    && Plain(b.said) && Plain(b.datetime) && Plain(b.route)
    && (if b.kind == Qry then Plain(b.replyRoute) else b.replyRoute == [])
    && |b.payload| <= ISIZE_MAX && ObjectIn(b.payload).Some?
  }

  lemma HeadExact(s: bytes, b: Budget, version: bytes, tag: bytes, next: Cursor)
    requires DeclaresSize(version, |s|)
    ensures HeadAt(s, b) == Got((tag, next)) && s[VERSION_AT..VERSION_END] == version <==>
      && Expect(s, Cursor(0, b), [123]).Got?
      && var first := StringField(s, Expect(s, Cursor(0, b), [123]).value, [], V);
         first.Got? && first.value.0 == version && StringField(s, first.value.1, [44], T) == Got((tag, next))
  {
    hide Charge, StringAt, DeclaresSize, Escape, Expect;
    Names();
    var c := Cursor(0, b);
    var quote := Expect(s, c, FieldLit([123], V) + [QUOTE]);
    var lit := FieldLit([44], T);
    assert lit != [] && lit[0] == 44;
    if quote.Got? {
      var after := Cursor(VERSION_END + 1, quote.value.budget);
      VersionByPlace(s, b, version, after);
      QuoteThenExpectAny(s, Cursor(VERSION_END, quote.value.budget), lit);
    }
    if Expect(s, c, [123]).Got? {
      var first := StringField(s, Expect(s, c, [123]).value, [], V);
      if first.Got? && first.value.0 == version {
        VersionByPlace(s, b, version, first.value.1);
        QuoteThenExpectAny(s, Cursor(VERSION_END, first.value.1.budget), lit);
      }
    }
  }

  lemma QuoteThenExpectAny(s: bytes, c: Cursor, lit: bytes)
    requires lit != [] && lit[0] != 58
    ensures Expect(s, c, [QUOTE] + lit).Got? <==> ByteAt(s, c.pos, QUOTE) && Expect(s, Cursor(c.pos + 1, c.budget), lit).Got?
    ensures Expect(s, c, [QUOTE] + lit).Got? ==> Expect(s, c, [QUOTE] + lit) == Expect(s, Cursor(c.pos + 1, c.budget), lit)
  {
    hide Expect;
    if Expect(s, c, [QUOTE] + lit).Got? {
      QuoteThenExpect(s, c, lit, Expect(s, c, [QUOTE] + lit).value);
    }
    if Expect(s, Cursor(c.pos + 1, c.budget), lit).Got? {
      QuoteThenExpect(s, c, lit, Expect(s, Cursor(c.pos + 1, c.budget), lit).value);
    }
  }

  /** The payload field and the closing brace. */
  lemma PayloadEnds(s: bytes, c: Cursor, keys: set<bytes>, b: RoutedBody, end: Cursor)
    requires PayloadName(b.kind) !in keys && c.budget.Within() && |s| <= ISIZE_MAX && |b.payload| <= ISIZE_MAX
    ensures ObjectIn(b.payload).Some? && RestAt(s, c, [44], keys) == Got((PayloadMembers(b), end)) <==>
      var field := ObjectField(s, c, [44], PayloadName(b.kind));
      field.Got? && field.value.0.1 == b.payload && Expect(s, field.value.1, [125]) == Got(end)
  {
    hide Expect, ObjectField, RestAt, Escape, ObjectIn, PayloadName;
    Names();
    assert PayloadMembers(b) == PayloadMembers(b) + [];
    assert b.kind == Qry || b.kind == Rpy;
    SpanFieldThen(s, c, keys, PayloadName(b.kind), b.payload, [], end);
    var field := ObjectField(s, c, [44], PayloadName(b.kind));
    if field.Got? {
      NoMoreFields(s, field.value.1, keys + {Escape(PayloadName(b.kind))}, end);
    }
  }

  /** The reply route, if there is one, and the payload. */
  lemma ReplyEnds(s: bytes, c: Cursor, keys: set<bytes>, b: RoutedBody, end: Cursor)
    requires PayloadName(b.kind) !in keys && RR !in keys && c.budget.Within() && |s| <= ISIZE_MAX && |b.payload| <= ISIZE_MAX
    ensures
      && (if b.kind == Qry then Plain(b.replyRoute) else b.replyRoute == []) && ObjectIn(b.payload).Some?
      && RestAt(s, c, [44], keys) == Got(((if b.kind == Qry then [Member(RR, Text(b.replyRoute))] + PayloadMembers(b) else PayloadMembers(b)), end)) <==>
        var reply := ReplyRouteAt(s, c, b.kind);
        && reply.Got? && reply.value.0 == b.replyRoute
        && var field := ObjectField(s, reply.value.1, [44], PayloadName(b.kind));
           field.Got? && field.value.0.1 == b.payload && Expect(s, field.value.1, [125]) == Got(end)
  {
    hide Expect, StringField, ObjectField, RestAt, Escape, ObjectIn, Plain, PayloadMembers;
    Names();
    if b.kind == Qry {
      StringFieldThen(s, c, [44], keys, RR, b.replyRoute, PayloadMembers(b), end);
      var reply := StringField(s, c, [44], RR);
      if reply.Got? {
        PayloadEnds(s, reply.value.1, keys + {Escape(RR)}, b, end);
      }
    } else {
      PayloadEnds(s, c, keys, b, end);
    }
  }

  lemma FieldsExact(s: bytes, c: Cursor, b: RoutedBody, end: Cursor)
    requires c.budget.Within() && |s| <= ISIZE_MAX && |b.payload| <= ISIZE_MAX
    ensures FieldsAt(s, c, b.kind) == Got((b, end)) <==> Shaped(b) && RestAt(s, c, [44], {V, T}) == Got((DigestMembers(b), end))
  {
    hide Expect, StringField, ObjectField, ReplyRouteAt, RestAt, Escape, ObjectIn, Plain, PayloadMembers, PayloadName;
    Names();
    NamesDiffer(b.kind);
    var rest := if b.kind == Qry then [Member(RR, Text(b.replyRoute))] + PayloadMembers(b) else PayloadMembers(b);
    StringFieldThen(s, c, [44], {V, T}, D, b.said, [Member(DT, Text(b.datetime))] + RouteMembers(b), end);
    var said := StringField(s, c, [44], D);
    if said.Got? {
      StringFieldThen(s, said.value.1, [44], {V, T} + {Escape(D)}, DT, b.datetime, RouteMembers(b), end);
      var datetime := StringField(s, said.value.1, [44], DT);
      if datetime.Got? {
        StringFieldThen(s, datetime.value.1, [44], {V, T} + {Escape(D)} + {Escape(DT)}, R, b.route, rest, end);
        var route := StringField(s, datetime.value.1, [44], R);
        if route.Got? {
          ReplyEnds(s, route.value.1, {V, T} + {Escape(D)} + {Escape(DT)} + {Escape(R)}, b, end);
        }
      }
    }
  }

  lemma NamesDiffer(kind: MessageType)
    ensures PayloadName(kind) !in {V, T, D, DT, R, RR}
  {
  }

  /** Main result: the grammar accepts exactly the canonical objects whose members are those of a
      routed body, whose version string declares their length, and which the budget covers. */
  lemma GrammarExact(s: bytes, b: Budget, body: RoutedBody)
    requires b.Within() && |s| <= ISIZE_MAX && |body.payload| <= ISIZE_MAX
    ensures GrammarOf(s, b) == Got(body) <==>
      && |s| >= VERSION_END && DeclaresSize(s[VERSION_AT..VERSION_END], |s|) && Shaped(body)
      && ValueAt(s, Cursor(0, b)).Got?
      && ValueAt(s, Cursor(0, b)).value.0 == BodyTree(s[VERSION_AT..VERSION_END], body)
      && ValueAt(s, Cursor(0, b)).value.1.pos == |s|
  {
    hide HeadAt, FieldsAt, ValueAt, RestAt, StringField, Expect, Escape, DeclaresSize, DigestMembers, Shaped;
    Names();
    HeadNeedsVersion(s, b);
    if |s| >= VERSION_END && DeclaresSize(s[VERSION_AT..VERSION_END], |s|) {
      var version := s[VERSION_AT..VERSION_END];
      if HeadAt(s, b).Got? {
        GrammarForward(s, b, version, body);
      }
      if && Shaped(body) && ValueAt(s, Cursor(0, b)).Got?
         && ValueAt(s, Cursor(0, b)).value.0 == BodyTree(version, body) && ValueAt(s, Cursor(0, b)).value.1.pos == |s| {
        GrammarBackward(s, b, version, body);
      }
    }
  }

  lemma HeadNeedsVersion(s: bytes, b: Budget)
    ensures HeadAt(s, b).Got? ==> |s| >= VERSION_END && DeclaresSize(s[VERSION_AT..VERSION_END], |s|)
  {
    hide Expect, StringAt, DeclaresSize;
  }

  /** The tree side of the grammar, from the first field on. */
  lemma BodyThen(s: bytes, b: Budget, version: bytes, body: RoutedBody, end: Cursor)
    requires DeclaresSize(version, |s|)
    ensures ValueAt(s, Cursor(0, b)) == Got((BodyTree(version, body), end)) <==>
      && Expect(s, Cursor(0, b), [123]).Got?
      && var first := StringField(s, Expect(s, Cursor(0, b), [123]).value, [], V);
         && first.Got? && first.value.0 == version
         && var tag := StringField(s, first.value.1, [44], T);
            tag.Got? && tag.value.0 == Code(body.kind) && RestAt(s, tag.value.1, [44], {V, T}) == Got((DigestMembers(body), end))
  {
    hide ValueAt, RestAt, StringField, Expect, Escape, DeclaresSize, DigestMembers, Plain;
    Names();
    VersionIsPlain(version, |s|);
    CodeIsPlain(body.kind);
    ObjectThen(s, Cursor(0, b), BodyMembers(version, body), end);
    if Expect(s, Cursor(0, b), [123]).Got? {
      var brace := Expect(s, Cursor(0, b), [123]).value;
      StringFieldThen(s, brace, [], {}, V, version, [Member(T, Text(Code(body.kind)))] + DigestMembers(body), end);
      var first := StringField(s, brace, [], V);
      if first.Got? {
        StringFieldThen(s, first.value.1, [44], {} + {Escape(V)}, T, Code(body.kind), DigestMembers(body), end);
        assert {} + {Escape(V)} + {Escape(T)} == {V, T};
      }
    }
  }

  lemma CodeIsPlain(kind: MessageType)
    ensures Plain(Code(kind)) && ValidUtf8(Code(kind)) && KindOf(Code(kind)) == Some(kind)
  {
    AsciiUtf8(Ready, Code(kind));
  }

  lemma GrammarForward(s: bytes, b: Budget, version: bytes, body: RoutedBody)
    requires b.Within() && |s| <= ISIZE_MAX && |body.payload| <= ISIZE_MAX
    requires |s| >= VERSION_END && version == s[VERSION_AT..VERSION_END] && DeclaresSize(version, |s|) && HeadAt(s, b).Got?
    ensures GrammarOf(s, b) == Got(body) ==>
      && Shaped(body) && ValueAt(s, Cursor(0, b)).Got?
      && ValueAt(s, Cursor(0, b)).value.0 == BodyTree(version, body) && ValueAt(s, Cursor(0, b)).value.1.pos == |s|
  {
    hide HeadAt, FieldsAt, ValueAt, RestAt, StringField, Expect, Escape, DeclaresSize, DigestMembers, Shaped;
    var (tag, next) := HeadAt(s, b).value;
    HeadExact(s, b, version, tag, next);
    if GrammarOf(s, b) == Got(body) {
      var end := FieldsAt(s, next, body.kind).value.1;
      FieldsExact(s, next, body, end);
      BodyThen(s, b, version, body, end);
    }
  }

  lemma GrammarBackward(s: bytes, b: Budget, version: bytes, body: RoutedBody)
    requires b.Within() && |s| <= ISIZE_MAX && |body.payload| <= ISIZE_MAX
    requires |s| >= VERSION_END && version == s[VERSION_AT..VERSION_END] && DeclaresSize(version, |s|) && ValueAt(s, Cursor(0, b)).Got?
    requires Shaped(body) && ValueAt(s, Cursor(0, b)).value.0 == BodyTree(version, body) && ValueAt(s, Cursor(0, b)).value.1.pos == |s|
    ensures GrammarOf(s, b) == Got(body)
  {
    hide HeadAt, FieldsAt, ValueAt, RestAt, StringField, Expect, Escape, DeclaresSize, DigestMembers, Shaped;
    var end := ValueAt(s, Cursor(0, b)).value.1;
    BodyThen(s, b, version, body, end);
    var first := StringField(s, Expect(s, Cursor(0, b), [123]).value, [], V);
    var (tag, next) := StringField(s, first.value.1, [44], T).value;
    HeadExact(s, b, version, tag, next);
    CodeIsPlain(body.kind);
    FieldsExact(s, next, body, end);
  }
}
