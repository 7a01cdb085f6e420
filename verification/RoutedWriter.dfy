/** Rendering a routed body with its digest, and reading it back. */
module RoutedWriters {
  import opened Prelude
  import opened JsonTexts
  import opened JsonValues
  import opened JsonReaders
  import opened JsonFields
  import opened SadScans
  import opened SadSlots
  import opened Saids
  import opened RoutedBodies
  import VersionHead

  // ── The rendering ──────────────────────────────────────────────────────

  const KERI10JSON: bytes := [75, 69, 82, 73, 49, 48, 74, 83, 79, 78]

  function VersionText(size: nat): (version: bytes)
    ensures |version| == VersionHead.V1_LEN
  {
    KERI10JSON + Hex6(size) + [95]
  }

  /** Text between quotes, as it is. */
  function Raw(text: bytes): bytes {
    [QUOTE] + text + [QUOTE]
  }

  function Suffix(b: RoutedBody): bytes {
    var payload := FieldLit([44], PayloadName(b.kind)) + b.payload + [125];
    if b.kind == Qry then FieldLit([44], RR) + Raw(b.replyRoute) + payload else payload
  }

  function Rest(b: RoutedBody): bytes {
    FieldLit([44], DT) + Raw(b.datetime) + (FieldLit([44], R) + Raw(b.route) + Suffix(b))
  }

  function BeforeVersion(): bytes {
    [123] + FieldLit([], V) + [QUOTE]
  }

  function BeforeSaid(kind: MessageType): bytes {
    [QUOTE] + FieldLit([44], T) + [QUOTE] + Code(kind) + [QUOTE] + FieldLit([44], D) + [QUOTE]
  }

  /** The body as it is formatted: nothing is escaped. */
  function Format(version: bytes, b: RoutedBody): bytes {
    BeforeVersion() + version + BeforeSaid(b.kind) + b.said + ([QUOTE] + Rest(b))
  }

  const SAID_AT: nat := 40

  lemma Regroup(name: bytes, version: bytes, nameT: bytes, code: bytes, nameD: bytes, said: bytes, rest: bytes)
    ensures ([123] + name + [QUOTE]) + version + ([QUOTE] + nameT + [QUOTE] + code + [QUOTE] + nameD + [QUOTE]) + said + ([QUOTE] + rest)
         == [123] + (name + Raw(version) + (nameT + Raw(code) + (nameD + Raw(said) + rest)))
  {
  }

  /** For plain fields and a canonical payload the rendering is the compact print of the body. */
  lemma FormatIsPrint(version: bytes, b: RoutedBody)
    requires Shaped(b) && Plain(version)
    ensures Format(version, b) == Print(BodyTree(version, b))
  {
    hide Quoted, FieldLit, ObjectIn, Plain, Escape, Print;
    RestIsPrint(b);
    Regroup(FieldLit([], V), version, FieldLit([44], T), Code(b.kind), FieldLit([44], D), b.said, Rest(b));
    CodeIsPlain(b.kind);
    TextPrints(version);
    TextPrints(Code(b.kind));
    TextPrints(b.said);
    PrintWith(Member(D, Text(b.said)), [Member(DT, Text(b.datetime))] + RouteMembers(b));
    PrintWith(Member(T, Text(Code(b.kind))), DigestMembers(b));
    PrintWith(Member(V, Text(version)), [Member(T, Text(Code(b.kind)))] + DigestMembers(b));
    ObjectPrints(BodyMembers(version, b));
  }

  lemma ObjectPrints(members: seq<Member>)
    ensures Print(Object(members)) == [123] + PrintMembers(members)
  {
  }

  lemma TextPrints(t: bytes)
    requires Plain(t)
    ensures Print(Text(t)) == Raw(t)
  {
    PlainIsUnescaped(t);
  }

  lemma RestIsPrint(b: RoutedBody)
    requires Shaped(b)
    ensures Rest(b) == MoreMembers([Member(DT, Text(b.datetime))] + RouteMembers(b))
  {
    hide Quoted, FieldLit, ObjectIn, Plain, Escape, Print;
    ObjectInExact(b.payload, ObjectIn(b.payload).value);
    PrintNothing();
    assert PayloadMembers(b) == PayloadMembers(b) + [];
    PrintWith(Member(PayloadName(b.kind), TreeIn(b.payload)), []);
    TextPrints(b.datetime);
    TextPrints(b.route);
    if b.kind == Qry {
      TextPrints(b.replyRoute);
      PrintWith(Member(RR, Text(b.replyRoute)), PayloadMembers(b));
    }
    var later := if b.kind == Qry then [Member(RR, Text(b.replyRoute))] + PayloadMembers(b) else PayloadMembers(b);
    PrintWith(Member(R, Text(b.route)), later);
    PrintWith(Member(DT, Text(b.datetime)), RouteMembers(b));
  }

  // ── Splicing into the rendering ────────────────────────────────────────

  lemma Widths(kind: MessageType)
    ensures |BeforeVersion()| == VERSION_AT && |BeforeSaid(kind)| == 17
  {
    hide Escape;
    Names();
  }

  lemma SpliceSaid(version: bytes, b: RoutedBody, said: bytes)
    requires |version| == VersionHead.V1_LEN && |said| == |b.said|
    ensures SAID_AT + |said| <= |Format(version, b)|
    ensures Splice(Format(version, b), SAID_AT, said) == Format(version, b.(said := said))
  {
    hide FieldLit, Splice;
    Widths(b.kind);
    SpliceMiddle(BeforeVersion() + version + BeforeSaid(b.kind), b.said, [QUOTE] + Rest(b), said);
  }

  lemma SpliceSize(size: nat, b: RoutedBody, size': nat)
    ensures VERSION_AT + SIZE_AT + SIZE_LEN <= |Format(VersionText(size), b)|
    ensures Splice(Format(VersionText(size), b), VERSION_AT + SIZE_AT, Hex6(size')) == Format(VersionText(size'), b)
  {
    hide FieldLit, Splice, Hex6, BeforeSaid;
    Widths(b.kind);
    var before := BeforeVersion() + KERI10JSON;
    var after := [95] + BeforeSaid(b.kind) + b.said + ([QUOTE] + Rest(b));
    assert Format(VersionText(size), b) == before + Hex6(size) + after;
    assert Format(VersionText(size'), b) == before + Hex6(size') + after;
    SpliceMiddle(before, Hex6(size), after, Hex6(size'));
  }

  lemma FormatKeepsLength(size: nat, size': nat, b: RoutedBody, said: bytes)
    requires |said| == |b.said|
    ensures |Format(VersionText(size), b)| == |Format(VersionText(size'), b.(said := said))|
  {
    hide FieldLit, Hex6, BeforeSaid;
  }

  lemma VersionDeclares(size: nat)
    requires size <= SIZE_MAX
    ensures DeclaresSize(VersionText(size), size)
  {
    hide Hex6, VersionHead.HexSize;
    HexOfSize(size);
    var version := VersionText(size);
    assert version[..4] == [75, 69, 82, 73] && version[6..10] == [74, 83, 79, 78] && version[10..16] == Hex6(size);
  }

  // ── What the scan of a rendering finds ─────────────────────────────────

  /** The strings a caller passes are UTF-8, and with a digest in place the body is shaped. */
  predicate Writable(b: RoutedBody) {
    && Shaped(b) && ValidUtf8(b.said) && ValidUtf8(b.datetime) && ValidUtf8(b.route) && ValidUtf8(b.replyRoute)
  }

  lemma NamesAreText(kind: MessageType)
    ensures ValidUtf8(V) && ValidUtf8(T) && ValidUtf8(D) && ValidUtf8(DT) && ValidUtf8(R) && ValidUtf8(RR) && ValidUtf8(PayloadName(kind))
  {
    hide Utf8Run;
    AsciiUtf8(Ready, V);
    AsciiUtf8(Ready, T);
    AsciiUtf8(Ready, D);
    AsciiUtf8(Ready, DT);
    AsciiUtf8(Ready, R);
    AsciiUtf8(Ready, RR);
    AsciiUtf8(Ready, PayloadName(kind));
  }

  lemma BodyIsCanonical(version: bytes, b: RoutedBody, size: nat)
    requires Writable(b) && DeclaresSize(version, size)
    ensures Canonical(BodyTree(version, b))
  {
    hide Utf8Run, Plain, ObjectIn, CanonicalMembers, DeclaresSize, DistinctKeys;
    NamesAreText(b.kind);
    CodeIsPlain(b.kind);
    VersionIsPlain(version, size);
    NoMembers();
    ObjectInExact(b.payload, ObjectIn(b.payload).value);
    assert PayloadMembers(b) == PayloadMembers(b) + [];
    CanonicalWith(Member(PayloadName(b.kind), TreeIn(b.payload)), []);
    var later := if b.kind == Qry then [Member(RR, Text(b.replyRoute))] + PayloadMembers(b) else PayloadMembers(b);
    if b.kind == Qry {
      CanonicalWith(Member(RR, Text(b.replyRoute)), PayloadMembers(b));
    }
    CanonicalWith(Member(R, Text(b.route)), later);
    CanonicalWith(Member(DT, Text(b.datetime)), RouteMembers(b));
    CanonicalWith(Member(D, Text(b.said)), [Member(DT, Text(b.datetime))] + RouteMembers(b));
    CanonicalWith(Member(T, Text(Code(b.kind))), DigestMembers(b));
    CanonicalWith(Member(V, Text(version)), [Member(T, Text(Code(b.kind)))] + DigestMembers(b));
    KeysDiffer(version, b);
  }

  lemma KeysDiffer(version: bytes, b: RoutedBody)
    ensures DistinctKeys(BodyMembers(version, b))
  {
    hide ObjectIn;
  }

  lemma ScannableWith(m: Member, rest: seq<Member>, codes: SadCodes)
    requires FieldFits(m, codes) && Scannable(rest, codes)
    ensures Scannable([m] + rest, codes)
  {
    hide FieldFits;
    ScannableParts([m] + rest, codes);
    assert ([m] + rest)[1..] == rest;
  }

  /** None of the fields after the digest is special. */
  predicate Unmarked(members: seq<Member>) {
    forall i | 0 <= i < |members| :: Escape(members[i].key) != V && Escape(members[i].key) != D
  }

  lemma {:induction false} UnmarkedScan(c: Cursor, members: seq<Member>, code: DigestCode, found: Sad)
    requires Unmarked(members)
    ensures SadOf(c, members, SaidCodes(code), found) == found && Scannable(members, SaidCodes(code))
    decreases |members|
  {
    hide Escape, NextOf, JsonVersion, Plain, IndexOf, SaidCodes;
    ScannableParts(members, SaidCodes(code));
    if members != [] {
      assert forall i | 0 <= i < |members[1..]| :: members[1..][i] == members[i + 1];
      UnmarkedScan(NextOf(c, members[0]), members[1..], code, found);
    }
  }

  lemma LaterFieldsUnmarked(b: RoutedBody)
    ensures Unmarked([Member(DT, Text(b.datetime))] + RouteMembers(b))
  {
    hide Escape, ObjectIn;
    Names();
    var members := [Member(DT, Text(b.datetime))] + RouteMembers(b);
    assert forall i | 0 <= i < |members| :: members[i].key in {DT, R, RR, PayloadName(Qry), PayloadName(Rpy)};
  }

  /** What the scan of a rendering finds, by fixed places. */
  function Found(b: RoutedBody, size: nat): Sad {
    Sad(map[0 := (SAID_AT, SAID_AT + |b.said|)], Some((VERSION_AT, size)))
  }

  /** Where the first three fields stand. */
  lemma FirstFields(version: bytes, kind: MessageType, said: bytes, later: seq<Member>, size: nat, code: DigestCode)
    requires Plain(said) && DeclaresSize(version, size) && Unmarked(later)
    ensures SadOf(INSIDE, [Member(V, Text(version))] + ([Member(T, Text(Code(kind)))] + ([Member(D, Text(said))] + later)), SaidCodes(code), NOTHING)
         == Sad(map[0 := (SAID_AT, SAID_AT + |said|)], Some((VERSION_AT, size)))
  {
    hide Escape, Plain, Utf8Run, VersionHead.ParseV1, Fields, SadOf, IndexOf, SaidCodes, Unmarked;
    Names();
    VersionIsPlain(version, size);
    CodeIsPlain(kind);
    PlainWidth(version);
    PlainWidth(Code(kind));
    PlainWidth(said);
    var (v, t, d) := (Member(V, Text(version)), Member(T, Text(Code(kind))), Member(D, Text(said)));
    var codes := SaidCodes(code);
    var (c1, c2) := (NextOf(INSIDE, v), NextOf(NextOf(INSIDE, v), t));
    var sized := Sad(map[], Some((VERSION_AT, size)));
    var found := Sad(map[0 := (SAID_AT, SAID_AT + |said|)], Some((VERSION_AT, size)));
    assert c1.pos == 25 && c2.pos == 35;
    SadStep(INSIDE, v, [t] + ([d] + later), codes, NOTHING);
    assert Noted(INSIDE, v, codes, NOTHING) == sized;
    SadStep(c1, t, [d] + later, codes, sized);
    assert Noted(c1, t, codes, sized) == sized;
    SadStep(c2, d, later, codes, sized);
    assert Noted(c2, d, codes, sized) == found;
    UnmarkedScan(NextOf(c2, d), later, code, found);
  }

  lemma SadStep(c: Cursor, m: Member, rest: seq<Member>, codes: SadCodes, found: Sad)
    ensures SadOf(c, [m] + rest, codes, found) == SadOf(NextOf(c, m), rest, codes, Noted(c, m, codes, found))
  {
    hide Noted, NextOf;
    assert ([m] + rest)[1..] == rest;
  }

  lemma BodyScannable(version: bytes, b: RoutedBody, size: nat, code: DigestCode)
    requires Plain(b.said) && DeclaresSize(version, size)
    ensures Scannable(BodyMembers(version, b), SaidCodes(code))
  {
    hide Escape, Plain, JsonVersion, Scannable, RouteMembers, Utf8Run, DeclaresSize, IndexOf, SaidCodes;
    Names();
    VersionIsPlain(version, size);
    DeclaredIsJson(version, size);
    LaterFieldsUnmarked(b);
    var later := [Member(DT, Text(b.datetime))] + RouteMembers(b);
    UnmarkedScan(INSIDE, later, code, NOTHING);
    ScannableWith(Member(D, Text(b.said)), later, SaidCodes(code));
    ScannableWith(Member(T, Text(Code(b.kind))), DigestMembers(b), SaidCodes(code));
    ScannableWith(Member(V, Text(version)), [Member(T, Text(Code(b.kind)))] + DigestMembers(b), SaidCodes(code));
  }

  lemma ThreeFirst(version: bytes, b: RoutedBody)
    ensures BodyMembers(version, b) ==
      [Member(V, Text(version))] + ([Member(T, Text(Code(b.kind)))] + ([Member(D, Text(b.said))] + ([Member(DT, Text(b.datetime))] + RouteMembers(b))))
  {
    hide ObjectIn;
  }

  lemma DeclaredIsJson(version: bytes, size: nat)
    requires DeclaresSize(version, size)
    ensures JsonVersion(version)
  {
  }

  /** The scan of a rendering finds its version string and its digest, by their fixed places. */
  lemma FormatScan(version: bytes, b: RoutedBody, size: nat, code: DigestCode)
    requires Writable(b) && DeclaresSize(version, size) && |Format(version, b)| <= ISIZE_MAX
    ensures ScanSad(Format(version, b), SaidCodes(code)) == Got(Found(b, size))
  {
    hide Shaped, Utf8Run, DeclaresSize, Canonical, Print, Format, BodyMembers, ScanSad, SadOf, Scannable, Plain;
    ShapedIsPlain(b);
    VersionIsPlain(version, size);
    FormatIsPrint(version, b);
    BodyIsCanonical(version, b, size);
    LaterFieldsUnmarked(b);
    ThreeFirst(version, b);
    FirstFields(version, b.kind, b.said, [Member(DT, Text(b.datetime))] + RouteMembers(b), size, code);
    BodyScannable(version, b, size, code);
    PrintedScan(Format(version, b), BodyMembers(version, b), SaidCodes(code));
  }

  /** With one slot, dummying and filling are one splice each. */
  lemma OneSlot(s: bytes, sad: Sad, part: bytes)
    requires InBounds(s, sad) && sad.spans.Keys == {0} && |part| == Width(s, sad, 0)
    ensures Blanked(s, sad, 1) == Splice(s, sad.spans[0].0, Dummies(Width(s, sad, 0)))
    ensures PartsFit(s, sad, [part]) && Filled(s, sad, [part], 1) == Splice(s, sad.spans[0].0, part)
  {
    hide Splice, Dummies;
    assert Blanked(s, sad, 0) == s;
    assert Filled(s, sad, [part], 0) == s;
  }

  lemma ShapedIsPlain(b: RoutedBody)
    requires Shaped(b)
    ensures Plain(b.said)
  {
  }

  // ── Writing ────────────────────────────────────────────────────────────

  /** What a caller gives to `write`: everything but the digest. */
  function Draft(b: RoutedBody): RoutedBody {
    b.(said := Dummies(SLOT_WIDTH))
  }

  /** `RoutedBody::write`: format with dummies, saidify, and read back as a check. */
  function Write(suite: Suite, b: RoutedBody, limits: Budget): Read<bytes>
    requires suite.Sound()
  {
    var raw :- Saidified(suite, Format(VersionText(0), Draft(b)), BLAKE3_CODES);
    var parsed :- Parse(suite, raw, limits);
    Got(raw)
  }

  /** What is digested: the rendering with its true size and a dummied digest. */
  function Digested(b: RoutedBody): bytes {
    Format(VersionText(|Format(VersionText(0), Draft(b))|), Draft(b))
  }

  /** The body that a write completes. */
  function Completed(suite: Suite, b: RoutedBody): RoutedBody {
    b.(said := suite.digest(BLAKE3_256, Digested(b)))
  }

  /** The finished bytes. */
  function Finished(suite: Suite, b: RoutedBody): bytes {
    Format(VersionText(|Format(VersionText(0), Draft(b))|), Completed(suite, b))
  }

  /** The strings and the payload, without the digest. */
  predicate Given(b: RoutedBody) {
    && Plain(b.datetime) && Plain(b.route)
    && (if b.kind == Qry then Plain(b.replyRoute) else b.replyRoute == [])
    && |b.payload| <= ISIZE_MAX && ObjectIn(b.payload).Some?
    && ValidUtf8(b.datetime) && ValidUtf8(b.route) && ValidUtf8(b.replyRoute)
  }

  lemma GivenIsWritable(suite: Suite, b: RoutedBody)
    requires Given(b) && suite.Sound()
    ensures Writable(Draft(b)) && Writable(Completed(suite, b)) && |Completed(suite, b).said| == SLOT_WIDTH
    ensures suite.infer(Completed(suite, b).said) == Some(BLAKE3_256)
  {
    hide Plain, Utf8Run, ObjectIn, Format, Dummies;
    DummiesArePlain(SLOT_WIDTH);
  }

  const BLAKE3_CODES: SadCodes := SaidCodes(BLAKE3_256)

  lemma DraftWidth(suite: Suite, s: bytes, b: RoutedBody, size: nat)
    requires suite.Sound() && |b.said| == SLOT_WIDTH && InBounds(s, Found(b, size))
    ensures Complete(BLAKE3_CODES, Found(b, size)) && CheckWidths(suite, s, BLAKE3_CODES, Found(b, size), 0) == Got(())
  {
  }

  /** Saidifying a rendering that is scanned by its fixed places completes it. */
  lemma SplicedIsFinished(suite: Suite, b: RoutedBody)
    requires suite.Sound() && |Format(VersionText(0), Draft(b))| <= SIZE_MAX
    requires ScanSad(Format(VersionText(0), Draft(b)), BLAKE3_CODES) == Got(Found(Draft(b), 0))
    ensures Saidified(suite, Format(VersionText(0), Draft(b)), BLAKE3_CODES) == Got(Finished(suite, b))
  {
    hide Format, Splice, ScanSad, VersionText, Hex6, Suite.Sound, Dummies, Blanked, Filled, IndexOf;
    var s := Format(VersionText(0), Draft(b));
    DigestWidth(suite, Digested(b));
    SadInBounds(s, BLAKE3_CODES);
    SpliceSize(0, Draft(b), |s|);
    var sized := Format(VersionText(|s|), Draft(b));
    SpliceSaid(VersionText(|s|), Draft(b), Dummies(SLOT_WIDTH));
    SpliceSaid(VersionText(|s|), Draft(b), Completed(suite, b).said);
    var sad := Found(Draft(b), 0);
    DraftWidth(suite, s, Draft(b), 0);
    OneSlot(sized, sad, Completed(suite, b).said);
    assert Digests(suite, BLAKE3_CODES, sized) == [Completed(suite, b).said];
  }

  lemma DigestWidth(suite: Suite, s: bytes)
    requires suite.Sound()
    ensures |suite.digest(BLAKE3_256, s)| == SLOT_WIDTH
  {
  }

  /** Saidifying a rendering completes it. */
  lemma SaidifiedIsFinished(suite: Suite, b: RoutedBody)
    requires Given(b) && suite.Sound() && |Format(VersionText(0), Draft(b))| <= SIZE_MAX
    ensures Saidified(suite, Format(VersionText(0), Draft(b)), BLAKE3_CODES) == Got(Finished(suite, b))
  {
    hide Format, ScanSad, Writable, Given, VersionText, DeclaresSize, Suite.Sound, Dummies, Saidified, IndexOf;
    GivenIsWritable(suite, b);
    VersionDeclares(0);
    FormatScan(VersionText(0), Draft(b), 0, BLAKE3_256);
    SplicedIsFinished(suite, b);
  }

  lemma VersionOfFormat(size: nat, b: RoutedBody)
    ensures |Format(VersionText(size), b)| >= VERSION_END
    ensures Format(VersionText(size), b)[VERSION_AT..VERSION_END] == VersionText(size)
  {
    hide FieldLit, BeforeSaid, VersionText;
    Widths(b.kind);
    var s := Format(VersionText(size), b);
    var after := BeforeSaid(b.kind) + b.said + ([QUOTE] + Rest(b));
    assert s == BeforeVersion() + VersionText(size) + after;
  }

  /** A finished rendering is no V2 body. */
  lemma FinishedIsNotV2(s: bytes)
    requires |s| >= VERSION_END && DeclaresSize(s[VERSION_AT..VERSION_END], |s|)
    ensures !VersionHead.ParsesAsV2(s[VERSION_AT..])
  {
    hide VersionHead.ParseV1, VersionHead.ParsesAsV2;
    var version := s[VERSION_AT..VERSION_END];
    assert s[VERSION_AT..][..VersionHead.V1_LEN] == version;
    VersionHead.ParseV1Stable(version, s[VERSION_AT..]);
    V1IsNotV2(s[VERSION_AT..]);
  }

  lemma V1IsNotV2(s: bytes)
    requires VersionHead.ParseV1(s).Ok?
    ensures !VersionHead.ParsesAsV2(s)
  {
    VersionHead.VersionsDisjoint(s);
  }

  /** The cost of a body: its fixed fields and its payload. */
  function BodyCost(b: RoutedBody): nat {
    (if b.kind == Qry then 7 else 6) + Fields(TreeIn(b.payload))
  }

  function BodyHeight(b: RoutedBody): nat {
    1 + Height(TreeIn(b.payload))
  }

  lemma CostOfBody(version: bytes, b: RoutedBody)
    ensures Fields(BodyTree(version, b)) == BodyCost(b) && Height(BodyTree(version, b)) == BodyHeight(b)
  {
    hide Fields, Height, ObjectIn;
    CostWith(Member(V, Text(version)), [Member(T, Text(Code(b.kind)))] + DigestMembers(b));
    CostWith(Member(T, Text(Code(b.kind))), DigestMembers(b));
    CostWith(Member(D, Text(b.said)), [Member(DT, Text(b.datetime))] + RouteMembers(b));
    CostWith(Member(DT, Text(b.datetime)), RouteMembers(b));
    CostWith(Member(R, Text(b.route)), if b.kind == Qry then [Member(RR, Text(b.replyRoute))] + PayloadMembers(b) else PayloadMembers(b));
    CostWith(Member(RR, Text(b.replyRoute)), PayloadMembers(b));
    assert PayloadMembers(b) == PayloadMembers(b) + [];
    CostWith(Member(PayloadName(b.kind), TreeIn(b.payload)), []);
    CostOfTexts(version, b);
    CostOfObject(BodyMembers(version, b));
  }

  lemma CostOfTexts(version: bytes, b: RoutedBody)
    ensures forall t :: Fields(Text(t)) == 0 && Height(Text(t)) == 0
  {
  }

  lemma CostOfObject(members: seq<Member>)
    ensures Fields(Object(members)) == FieldsOfMembers(members) && Height(Object(members)) == 1 + HeightOfMembers(members)
  {
  }

  /** The grammar recovers a rendering's parts, exactly when the budget covers the body. */
  lemma GrammarOfFormat(b: RoutedBody, limits: Budget)
    requires Writable(b) && limits.Within()
    requires var n := |Format(VersionText(0), b)|; n <= SIZE_MAX
    ensures var s := Format(VersionText(|Format(VersionText(0), b)|), b);
            if Covers(limits, BodyCost(b), BodyHeight(b)) then GrammarOf(s, limits) == Got(b) else GrammarOf(s, limits).Bad?
  {
    hide GrammarOf, ValueAt, Format, Canonical, Print, Utf8Run, DeclaresSize, BodyMembers, ObjectIn, Fields, Height, VersionText, Shaped;
    var n := |Format(VersionText(0), b)|;
    var s := Format(VersionText(n), b);
    FormatKeepsLength(0, n, b, b.said);
    VersionDeclares(n);
    VersionOfFormat(n, b);
    VersionIsPlain(VersionText(n), n);
    FormatIsPrint(VersionText(n), b);
    BodyIsCanonical(VersionText(n), b, n);
    CostOfBody(VersionText(n), b);
    ShapedIsShort(b);
    GrammarExact(s, limits, b);
    var end := Cursor(|s|, Spend(limits, BodyCost(b)));
    ObjectExact(s, Cursor(0, limits), BodyMembers(VersionText(n), b), end);
    assert s[0..] == s;
    if GrammarOf(s, limits).Got? {
      GrammarExact(s, limits, GrammarOf(s, limits).value);
      ValueIsPrinted(s, Cursor(0, limits));
      PrintIsInjective(ValueAt(s, Cursor(0, limits)).value.0, BodyTree(VersionText(n), b));
    }
  }

  lemma ShapedIsShort(b: RoutedBody)
    requires Shaped(b)
    ensures |b.payload| <= ISIZE_MAX
  {
  }

  /** The digest in a finished rendering verifies. */
  lemma FinishedVerifies(suite: Suite, b: RoutedBody)
    requires Given(b) && suite.Sound() && |Format(VersionText(0), Draft(b))| <= SIZE_MAX
    ensures Verified(suite, Finished(suite, b), BLAKE3_CODES) == Got(())
  {
    hide Saidified, Verified, Format, Given, VersionText, Suite.Sound;
    SaidifiedIsFinished(suite, b);
    SaidifyThenVerify(suite, Format(VersionText(0), Draft(b)), BLAKE3_CODES);
  }

  lemma SaidOfFormat(version: bytes, b: RoutedBody)
    requires |version| == VersionHead.V1_LEN
    ensures SAID_AT + |b.said| <= |Format(version, b)| && Format(version, b)[SAID_AT..SAID_AT + |b.said|] == b.said
  {
    hide FieldLit;
    Widths(b.kind);
    var before := BeforeVersion() + version + BeforeSaid(b.kind);
    assert Format(version, b) == before + b.said + ([QUOTE] + Rest(b));
  }

  lemma WriteInSize(suite: Suite, b: RoutedBody, limits: Budget)
    requires Given(b) && suite.Sound() && limits.Within() && |Format(VersionText(0), Draft(b))| <= SIZE_MAX
    ensures Write(suite, b, limits).Got? <==> Covers(limits, BodyCost(b), BodyHeight(b))
    ensures Write(suite, b, limits).Got? ==>
      && Write(suite, b, limits).value == Finished(suite, b)
      && Parse(suite, Finished(suite, b), limits) == Got(Completed(suite, b))
  {
    hide Saidified, Format, GrammarOf, Verified, Given, Writable, VersionText, DeclaresSize, Suite.Sound, Dummies, Fields, Height, ObjectIn;
    var n := |Format(VersionText(0), Draft(b))|;
    var s := Finished(suite, b);
    SaidifiedIsFinished(suite, b);
    GivenIsWritable(suite, b);
    FormatKeepsLength(0, 0, Draft(b), Completed(suite, b).said);
    FormatKeepsLength(0, n, Draft(b), Completed(suite, b).said);
    VersionDeclares(n);
    VersionOfFormat(n, Completed(suite, b));
    FinishedIsNotV2(s);
    GrammarOfFormat(Completed(suite, b), limits);
    FinishedVerifies(suite, b);
  }

  /** A rendering beyond what six hex digits can declare is refused. */
  lemma OversizeRefused(suite: Suite, b: RoutedBody)
    requires Given(b) && suite.Sound() && SIZE_MAX < |Format(VersionText(0), Draft(b))| <= ISIZE_MAX
    ensures Saidified(suite, Format(VersionText(0), Draft(b)), BLAKE3_CODES) == Bad(SizeOverflow(|Format(VersionText(0), Draft(b))|))
  {
    hide Format, Splice, ScanSad, Writable, Given, VersionText, Hex6, DeclaresSize, Suite.Sound;
    GivenIsWritable(suite, b);
    VersionDeclares(0);
    FormatScan(VersionText(0), Draft(b), 0, BLAKE3_256);
    SadInBounds(Format(VersionText(0), Draft(b)), BLAKE3_CODES);
    DraftWidth(suite, Format(VersionText(0), Draft(b)), Draft(b), 0);
  }

  /** Main result: over plain UTF-8 strings and a canonical object payload, writing succeeds exactly
      when the body fits the size field and the budget covers it, and then parsing gives back the
      type, the time, the routes and the payload, with the digest of the rendering whose digest
      field is dummied. */
  lemma WriteThenParse(suite: Suite, b: RoutedBody, limits: Budget)
    requires Given(b) && suite.Sound() && limits.Within() && |Format(VersionText(0), Draft(b))| <= ISIZE_MAX
    ensures Write(suite, b, limits).Got? <==>
      |Format(VersionText(0), Draft(b))| <= SIZE_MAX && Covers(limits, BodyCost(b), BodyHeight(b))
    ensures Write(suite, b, limits).Got? ==>
      && Write(suite, b, limits).value == Finished(suite, b)
      && Parse(suite, Finished(suite, b), limits) == Got(Completed(suite, b))
  {
    hide Saidified, Format, Parse, Given, VersionText, Suite.Sound, Dummies, Fields, Height, ObjectIn;
    if |Format(VersionText(0), Draft(b))| <= SIZE_MAX {
      WriteInSize(suite, b, limits);
    } else {
      OversizeRefused(suite, b);
    }
  }

  lemma TextsAreUtf8(version: bytes, b: RoutedBody)
    requires Canonical(BodyTree(version, b)) && Shaped(b)
    ensures Writable(b)
  {
    hide Utf8Run, Plain, ObjectIn, CanonicalMembers, DistinctKeys;
    CanonicalSplit(Member(V, Text(version)), [Member(T, Text(Code(b.kind)))] + DigestMembers(b));
    CanonicalSplit(Member(T, Text(Code(b.kind))), DigestMembers(b));
    CanonicalSplit(Member(D, Text(b.said)), [Member(DT, Text(b.datetime))] + RouteMembers(b));
    CanonicalSplit(Member(DT, Text(b.datetime)), RouteMembers(b));
    if b.kind == Qry {
      CanonicalSplit(Member(R, Text(b.route)), [Member(RR, Text(b.replyRoute))] + PayloadMembers(b));
      CanonicalSplit(Member(RR, Text(b.replyRoute)), PayloadMembers(b));
    } else {
      CanonicalSplit(Member(R, Text(b.route)), PayloadMembers(b));
      assert ValidUtf8([]) by { NothingIsUtf8(); }
    }
  }

  lemma NothingIsUtf8()
    ensures ValidUtf8([])
  {
  }

  lemma CanonicalSplit(m: Member, rest: seq<Member>)
    requires CanonicalMembers([m] + rest)
    ensures Canonical(m.value) && CanonicalMembers(rest)
  {
    assert ([m] + rest)[1..] == rest;
  }

  // ── Every caller ───────────────────────────────────────────────────────

  /** Reading a written body gives back everything its caller passed. */
  predicate ReadsBack(suite: Suite, b: RoutedBody, limits: Budget)
    requires suite.Sound()
  {
    var raw := Write(suite, b, limits);
    raw.Got? && Parse(suite, raw.value, limits).Got? && Parse(suite, raw.value, limits).value.(said := b.said) == b
  }

  lemma SaidifiedKeepsLength(suite: Suite, s: bytes)
    requires suite.Sound()
    ensures Saidified(suite, s, BLAKE3_CODES).Got? ==> |Saidified(suite, s, BLAKE3_CODES).value| == |s|
  {
    hide ScanSad, Hex6, Dummies, Suite.Sound;
  }

  lemma ParsedIsGiven(suite: Suite, s: bytes, limits: Budget)
    requires limits.Within() && |s| <= ISIZE_MAX && Parse(suite, s, limits).Got?
    ensures Given(Parse(suite, s, limits).value)
  {
    hide GrammarOf, Verified, Canonical, BodyTree, ValueAt, DeclaresSize, Utf8Run, Plain, ObjectIn;
    var b := Parse(suite, s, limits).value;
    GrammarExact(s, limits, b);
    ValueIsPrinted(s, Cursor(0, limits));
    TextsAreUtf8(s[VERSION_AT..VERSION_END], b);
  }

  /** Main result: for every call whatsoever, writing succeeds and parsing gives back the arguments
      if and only if the strings are plain UTF-8, the payload is a canonical object, the body fits
      the size field and the budget covers it. */
  lemma ReadsBackExactly(suite: Suite, b: RoutedBody, limits: Budget)
    requires suite.Sound() && limits.Within() && |Format(VersionText(0), Draft(b))| <= ISIZE_MAX
    ensures ReadsBack(suite, b, limits) <==>
      && Given(b)
      && |Format(VersionText(0), Draft(b))| <= SIZE_MAX
      && Covers(limits, BodyCost(b), BodyHeight(b))
  {
    hide Saidified, Format, Parse, Plain, ObjectIn, Utf8Run, VersionText, Suite.Sound, Dummies, Fields, Height;
    if ReadsBack(suite, b, limits) {
      SaidifiedKeepsLength(suite, Format(VersionText(0), Draft(b)));
      ParsedIsGiven(suite, Write(suite, b, limits).value, limits);
    }
    if Given(b) {
      WriteThenParse(suite, b, limits);
    }
  }

  // ── A write that reads back as something else ──────────────────────────

  /** Route `R` with the payload `{"x":"","a":{}}`. */
  const INTENDED := RoutedBody(Rpy, [], [], [82], [], [123, 34, 120, 34, 58, 34, 34, 44, 34, 97, 34, 58, 123, 125, 125])

  /** Route `R","a":{"x":"` with the payload `{}}`: no caller means this, but it is spelled alike. */
  const MISREAD := RoutedBody(Rpy, [], [], [82, 34, 44, 34, 97, 34, 58, 123, 34, 120, 34, 58, 34], [], [123, 125, 125])

  const INTENDED_MEMBERS := [Member([120], Text([])), Member([97], Object([]))]

  lemma IntendedIsGiven()
    ensures Given(INTENDED) && !Given(MISREAD)
    ensures BodyCost(INTENDED) == 8 && BodyHeight(INTENDED) == 3
  {
    hide ObjectIn, Utf8Run;
    var (x, a) := (INTENDED_MEMBERS[0], INTENDED_MEMBERS[1]);
    assert INTENDED_MEMBERS == [x] + ([a] + []);
    NothingIsUtf8();
    AsciiUtf8(Ready, [120]);
    AsciiUtf8(Ready, [97]);
    AsciiUtf8(Ready, [82]);
    NoMembers();
    CanonicalWith(a, []);
    CanonicalWith(x, [a] + []);
    CostWith(a, []);
    CostWith(x, [a] + []);
    IntendedPrints();
    ObjectInExact(INTENDED.payload, INTENDED_MEMBERS);
    assert MISREAD.route[1] == QUOTE;
  }

  lemma IntendedPrints()
    ensures Print(Object(INTENDED_MEMBERS)) == INTENDED.payload
  {
    hide Escape, FieldLit, MoreMembers;
    var (x, a) := (INTENDED_MEMBERS[0], INTENDED_MEMBERS[1]);
    assert INTENDED_MEMBERS == [x] + ([a] + []);
    IntendedParts();
    PrintNothing();
    PrintWith(a, []);
    PrintWith(x, [a] + []);
  }

  lemma IntendedParts()
    ensures FieldLit([], [120]) == [34, 120, 34, 58] && FieldLit([44], [97]) == [44, 34, 97, 34, 58]
    ensures Print(Text([])) == [34, 34] && Print(Object([])) == [123, 125]
  {
    EscapeNothing();
    EscapeOne(120);
    EscapeOne(97);
    PrintNothing();
  }

  lemma SpelledAlike()
    ensures Format(VersionText(0), Draft(MISREAD)) == Format(VersionText(0), Draft(INTENDED))
  {
    hide Format, Raw, VersionText, Dummies;
    EscapeOne(97);
    assert FieldLit([44], PayloadName(Rpy)) == [44, 34, 97, 34, 58];
    RestAlike();
    FormatByRest(VersionText(0), Draft(MISREAD), Draft(INTENDED));
  }

  lemma RestAlike()
    ensures Rest(MISREAD) == Rest(INTENDED)
  {
    hide FieldLit, Raw;
    var name := FieldLit([44], PayloadName(Rpy));
    SharedParts(name);
    var r := FieldLit([44], R);
    Alike(INTENDED.route, name, SHARED, MISREAD.payload);
    assert Raw(MISREAD.route) + Suffix(MISREAD) == Raw(INTENDED.route) + Suffix(INTENDED);
    assert r + Raw(MISREAD.route) + Suffix(MISREAD) == r + (Raw(MISREAD.route) + Suffix(MISREAD));
    assert r + Raw(INTENDED.route) + Suffix(INTENDED) == r + (Raw(INTENDED.route) + Suffix(INTENDED));
  }

  /** The bytes that are the end of one route and the start of the other payload: `{"x":"`. */
  const SHARED: bytes := [123, 34, 120, 34, 58, 34]

  lemma SharedParts(name: bytes)
    requires name == FieldLit([44], PayloadName(Rpy))
    ensures MISREAD.route == INTENDED.route + [QUOTE] + name + SHARED
    ensures INTENDED.payload == SHARED + [QUOTE] + name + MISREAD.payload
  {
    hide FieldLit;
    IntendedParts();
    assert PayloadName(Rpy) == [97];
  }

  lemma Alike(route: bytes, name: bytes, shared: bytes, end: bytes)
    ensures Raw(route + [QUOTE] + name + shared) + (name + end + [125]) == Raw(route) + (name + (shared + [QUOTE] + name + end) + [125])
  {
  }

  lemma FormatByRest(version: bytes, b: RoutedBody, b': RoutedBody)
    requires b.kind == b'.kind && b.said == b'.said && Rest(b) == Rest(b')
    ensures Format(version, b) == Format(version, b')
  {
  }

  lemma IntendedIsShort()
    ensures |Format(VersionText(0), Draft(INTENDED))| == 122
  {
    hide Escape, Dummies;
    Names();
    Widths(Rpy);
    PlainWidth(DT);
    PlainWidth(R);
    PlainWidth(PayloadName(Rpy));
  }

  /** Outside that condition a write can succeed and read back as a different body: the writer does
      not escape, so this route and payload are written, digest and all, as another route and
      another payload. */
  lemma MisreadIsWritten(suite: Suite, limits: Budget)
    requires suite.Sound() && limits.Within() && Covers(limits, 8, 3)
    ensures Write(suite, MISREAD, limits) == Got(Finished(suite, INTENDED))
    ensures Parse(suite, Finished(suite, INTENDED), limits) == Got(Completed(suite, INTENDED))
    ensures Completed(suite, INTENDED).route != MISREAD.route && Completed(suite, INTENDED).payload != MISREAD.payload
  {
    hide Saidified, Format, Parse, Given, VersionText, Suite.Sound, Dummies, BodyCost, BodyHeight;
    SpelledAlike();
    IntendedIsGiven();
    IntendedIsShort();
    WriteThenParse(suite, INTENDED, limits);
  }

  /** Main result: whatever bytes are accepted, they are the rendering of the parsed body under a
      version string that declares their length, and their digest field holds the digest, under the
      code it announces, of that rendering with the field dummied. */
  lemma ParsedIsVerified(suite: Suite, s: bytes, limits: Budget)
    requires limits.Within() && |s| <= ISIZE_MAX && Parse(suite, s, limits).Got?
    ensures var b := Parse(suite, s, limits).value;
            && |s| >= VERSION_END && DeclaresSize(s[VERSION_AT..VERSION_END], |s|)
            && s == Format(s[VERSION_AT..VERSION_END], b)
            && suite.infer(b.said).Some?
            && b.said == suite.digest(suite.infer(b.said).value, Format(s[VERSION_AT..VERSION_END], b.(said := Dummies(|b.said|))))
  {
    hide GrammarOf, ScanSad, Format, Print, Canonical, BodyTree, ValueAt, Shaped, DeclaresSize, Utf8Run, Plain, Splice, Dummies, Blanked, IndexOf;
    var b := Parse(suite, s, limits).value;
    GrammarExact(s, limits, b);
    var version := s[VERSION_AT..VERSION_END];
    ValueIsPrinted(s, Cursor(0, limits));
    assert s[0..|s|] == s;
    TextsAreUtf8(version, b);
    VersionIsPlain(version, |s|);
    FormatIsPrint(version, b);
    FormatScan(version, b, |s|, suite.infer(b.said).value);
    SpliceSaid(version, b, Dummies(|b.said|));
    SaidOfFormat(version, b);
    var codes := SaidCodes(suite.infer(b.said).value);
    SadInBounds(s, codes);
    OneSlot(s, Found(b, |s|), b.said);
    assert Digests(suite, codes, Blanked(s, Found(b, |s|), 1))[0] == b.said;
  }

  /** `RoutedBody::write`, over a buffer that is saidified in place and then read back. */
  method WriteBody(suite: Suite, b: RoutedBody, limits: Budget) returns (r: Read<bytes>)
    requires suite.Sound() && limits.Within() && |Format(VersionText(0), Draft(b))| <= ISIZE_MAX
    ensures r == Write(suite, b, limits)
  {
    hide Saidified, Format, Parse, VersionText, Suite.Sound, Dummies;
    var draft := Format(VersionText(0), Draft(b));
    var raw := new byte[|draft|](i requires 0 <= i < |draft| => draft[i]);
    assert raw[..] == draft;
    var saidified := Saidify(suite, raw, BLAKE3_CODES);
    if saidified.Bad? {
      return Bad(saidified.error);
    }
    var parsed := ParseBody(suite, raw[..], limits);
    return if parsed.Bad? then Bad(parsed.error) else Got(raw[..]);
  }
}
