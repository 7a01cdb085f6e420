/** Routed bodies on the wire: the literal text of what is written and of what is accepted. */
module RoutedWire {
  import opened Prelude
  import opened JsonTexts
  import opened JsonValues
  import opened JsonReaders
  import opened JsonFields
  import opened SadScans
  import opened SadSlots
  import opened Saids
  import opened RoutedBodies
  import opened RoutedWriters
  import opened HeadGrammar
  import VersionHead

  // ── The text of a body ─────────────────────────────────────────────────

  function QueryText(size: bytes, said: bytes, datetime: bytes, route: bytes, replyRoute: bytes, payload: bytes): bytes {
    Ascii("{\"v\":\"KERI10JSON") + size + Ascii("_\",\"t\":\"qry\",\"d\":\"") + said
    + Ascii("\",\"dt\":\"") + datetime + Ascii("\",\"r\":\"") + route
    + Ascii("\",\"rr\":\"") + replyRoute + Ascii("\",\"q\":") + payload + Ascii("}")
  }

  function ReplyText(size: bytes, said: bytes, datetime: bytes, route: bytes, payload: bytes): bytes {
    Ascii("{\"v\":\"KERI10JSON") + size + Ascii("_\",\"t\":\"rpy\",\"d\":\"") + said
    + Ascii("\",\"dt\":\"") + datetime + Ascii("\",\"r\":\"") + route
    + Ascii("\",\"a\":") + payload + Ascii("}")
  }

  /** A body with this size field and this digest. */
  function BodyText(b: RoutedBody, size: bytes, said: bytes): bytes {
    if b.kind == Qry then QueryText(size, said, b.datetime, b.route, b.replyRoute, b.payload)
    else ReplyText(size, said, b.datetime, b.route, b.payload)
  }

  lemma HeadLiterals()
    ensures BeforeVersion() + KERI10JSON == Ascii("{\"v\":\"KERI10JSON")
    ensures [95] + BeforeSaid(Qry) == Ascii("_\",\"t\":\"qry\",\"d\":\"")
    ensures [95] + BeforeSaid(Rpy) == Ascii("_\",\"t\":\"rpy\",\"d\":\"")
  {
    hide FieldLit;
    FieldLiterals();
    assert BeforeSaid(Qry) == [34, 44, 34, 116, 34, 58, 34] + Code(Qry) + [34, 44, 34, 100, 34, 58, 34];
    assert BeforeSaid(Rpy) == [34, 44, 34, 116, 34, 58, 34] + Code(Rpy) + [34, 44, 34, 100, 34, 58, 34];
  }

  lemma TailLiterals()
    ensures [QUOTE] + FieldLit([44], DT) + [QUOTE] == Ascii("\",\"dt\":\"") && [QUOTE] + FieldLit([44], R) + [QUOTE] == Ascii("\",\"r\":\"")
    ensures [QUOTE] + FieldLit([44], RR) + [QUOTE] == Ascii("\",\"rr\":\"")
    ensures [QUOTE] + FieldLit([44], PayloadName(Qry)) == Ascii("\",\"q\":") && [QUOTE] + FieldLit([44], PayloadName(Rpy)) == Ascii("\",\"a\":")
    ensures [125] == Ascii("}")
  {
    hide FieldLit;
    FieldLiterals();
  }

  lemma FieldLiterals()
    ensures FieldLit([], V) == [34, 118, 34, 58]
    ensures FieldLit([44], T) == [44, 34, 116, 34, 58] && FieldLit([44], D) == [44, 34, 100, 34, 58]
    ensures FieldLit([44], DT) == [44, 34, 100, 116, 34, 58]
    ensures FieldLit([44], R) == [44, 34, 114, 34, 58] && FieldLit([44], RR) == [44, 34, 114, 114, 34, 58]
    ensures FieldLit([44], PayloadName(Qry)) == [44, 34, 113, 34, 58] && FieldLit([44], PayloadName(Rpy)) == [44, 34, 97, 34, 58]
  {
    hide Escape;
    Names();
  }

  lemma Regrouped(v: bytes, k: bytes, size: bytes, t: bytes, said: bytes, dt: bytes, datetime: bytes, r: bytes, route: bytes, suffix: bytes)
    ensures v + (k + size + [95]) + t + said + ([QUOTE] + (dt + ([QUOTE] + datetime + [QUOTE]) + (r + ([QUOTE] + route + [QUOTE]) + suffix)))
         == (v + k) + size + ([95] + t) + said + ([QUOTE] + dt + [QUOTE]) + datetime + ([QUOTE] + r + [QUOTE]) + route + ([QUOTE] + suffix)
  {
  }

  lemma SuffixText(b: RoutedBody)
    ensures [QUOTE] + Suffix(b) ==
      if b.kind == Qry then Ascii("\",\"rr\":\"") + b.replyRoute + Ascii("\",\"q\":") + b.payload + Ascii("}")
      else Ascii("\",\"a\":") + b.payload + Ascii("}")
  {
    hide FieldLit;
    TailLiterals();
  }

  /** The formatted body is its text. */
  lemma FormatIsText(b: RoutedBody, size: bytes)
    ensures Format(KERI10JSON + size + [95], b) == BodyText(b, size, b.said)
  {
    hide FieldLit, BeforeVersion, BeforeSaid, Suffix;
    HeadLiterals();
    TailLiterals();
    SuffixText(b);
    Regrouped(BeforeVersion(), KERI10JSON, size, BeforeSaid(b.kind), b.said, FieldLit([44], DT), b.datetime, FieldLit([44], R), b.route, Suffix(b));
  }

  // ── Every successful write ─────────────────────────────────────────────

  /** Members that are printed with this text first begin with it. */
  lemma FirstText(members: seq<Member>, key: bytes, text: bytes, rest: bytes)
    requires CanonicalMembers(members) && PrintMembers(members) == FieldLit([], key) + Quoted(text) + rest
    ensures members != [] && members[0] == Member(key, Text(text)) && MoreMembers(members[1..]) == rest
  {
    hide Quoted, Print, Canonical, FieldLit, MoreMembers;
    LitIsKey(key, Quoted(text) + rest);
    assert FieldLit([], key) + Quoted(text) + rest == FieldLit([], key) + (Quoted(text) + rest);
    QuotedStarts(key);
    assert PrintMembers(members)[0] == QUOTE;
    var m := members[0];
    PrintWith(m, members[1..]);
    assert [m] + members[1..] == members;
    var printed := Print(m.value) + MoreMembers(members[1..]);
    LitIsKey(m.key, printed);
    assert PrintMembers(members) == FieldLit([], m.key) + printed;
    QuotedDelimitsItself(key, m.key, [58] + (Quoted(text) + rest), [58] + printed);
    AfterColon(Quoted(text) + rest, printed);
    ValueIsText(m.value, text, rest, MoreMembers(members[1..]));
  }

  lemma LitIsKey(key: bytes, rest: bytes)
    ensures FieldLit([], key) + rest == Quoted(key) + ([58] + rest)
  {
    hide Quoted;
  }

  lemma AfterColon(a: bytes, b: bytes)
    requires [58] + a == [58] + b
    ensures a == b
  {
    assert ([58] + a)[1..] == a && ([58] + b)[1..] == b;
  }

  lemma ValueIsText(value: Json, text: bytes, rest: bytes, more: bytes)
    requires Canonical(value) && Print(value) + more == Quoted(text) + rest
    ensures value == Text(text) && more == rest
  {
    hide Escape, IsNumber;
    if value.Num? {
      NumberStart(value.lexeme);
    }
    assert (Print(value) + more)[0] == QUOTE;
    if value.Text? {
      QuotedDelimitsItself(value.text, text, more, rest);
    }
  }

  /** More members that are printed with this text first begin with it. */
  lemma NextText(members: seq<Member>, key: bytes, text: bytes, rest: bytes)
    requires CanonicalMembers(members) && MoreMembers(members) == FieldLit([44], key) + Quoted(text) + rest
    ensures members != [] && members[0] == Member(key, Text(text)) && MoreMembers(members[1..]) == rest
  {
    hide Quoted, Canonical, PrintMembers, FieldLit;
    assert FieldLit([44], key) + Quoted(text) + rest == [44] + (FieldLit([], key) + Quoted(text) + rest) by { CommaLit(key); }
    PrintNothing();
    assert MoreMembers(members)[0] == 44;
    CommaFirst(members);
    AfterComma(PrintMembers(members), FieldLit([], key) + Quoted(text) + rest);
    FirstText(members, key, text, rest);
  }

  lemma CommaLit(key: bytes)
    ensures FieldLit([44], key) == [44] + FieldLit([], key)
  {
    hide Quoted;
  }

  lemma AfterComma(a: bytes, b: bytes)
    requires [44] + a == [44] + b
    ensures a == b
  {
    assert ([44] + a)[1..] == a && ([44] + b)[1..] == b;
  }

  /** Whatever the strings of a caller contain, if a formatted draft is a canonical object at all, its
      first three members are the version string, the type and the dummied digest. */
  lemma DraftMembers(version: bytes, b: RoutedBody, members: seq<Member>) returns (later: seq<Member>)
    requires Canonical(Object(members)) && Format(version, Draft(b)) == Print(Object(members)) && Plain(version)
    ensures members == [Member(V, Text(version))] + ([Member(T, Text(Code(b.kind)))] + ([Member(D, Text(Dummies(SLOT_WIDTH)))] + later))
    ensures Unmarked(later)
  {
    hide Quoted, FieldLit, Print, Rest, Plain, Dummies, Code, DistinctKeys;
    CanonicalRests(members);
    var (nameT, nameD) := (FieldLit([44], T), FieldLit([44], D));
    var afterD := Rest(b);
    CodeIsPlain(b.kind);
    DummiesArePlain(SLOT_WIDTH);
    DraftText(version, b);
    var afterT := nameD + Quoted(Dummies(SLOT_WIDTH)) + afterD;
    var afterV := nameT + Quoted(Code(b.kind)) + afterT;
    ObjectPrints(members);
    AfterBrace(PrintMembers(members), FieldLit([], V) + Quoted(version) + afterV);
    FirstText(members, V, version, afterV);
    NextText(members[1..], T, Code(b.kind), afterT);
    NextText(members[1..][1..], D, Dummies(SLOT_WIDTH), afterD);
    later := members[1..][1..][1..];
    LaterUnmarked(members, later);
  }

  lemma CanonicalRests(members: seq<Member>)
    requires CanonicalMembers(members)
    ensures members != [] ==> CanonicalMembers(members[1..])
    ensures |members| > 1 ==> CanonicalMembers(members[1..][1..])
  {
    hide Canonical;
  }

  lemma AfterBrace(a: bytes, b: bytes)
    requires [123] + a == [123] + b
    ensures a == b
  {
    assert ([123] + a)[1..] == a && ([123] + b)[1..] == b;
  }

  lemma DraftText(version: bytes, b: RoutedBody)
    requires Plain(version)
    ensures Format(version, Draft(b)) ==
      [123] + (FieldLit([], V) + Quoted(version)
               + (FieldLit([44], T) + Quoted(Code(b.kind)) + (FieldLit([44], D) + Quoted(Dummies(SLOT_WIDTH)) + Rest(b))))
  {
    hide FieldLit, Rest, Plain, Escape, Dummies;
    CodeIsPlain(b.kind);
    DummiesArePlain(SLOT_WIDTH);
    PlainIsUnescaped(version);
    PlainIsUnescaped(Code(b.kind));
    PlainIsUnescaped(Dummies(SLOT_WIDTH));
    RestOfDraft(b);
    Regroup(FieldLit([], V), version, FieldLit([44], T), Code(b.kind), FieldLit([44], D), Dummies(SLOT_WIDTH), Rest(b));
  }

  lemma RestOfDraft(b: RoutedBody)
    ensures Rest(Draft(b)) == Rest(b)
  {
  }

  lemma LaterUnmarked(members: seq<Member>, later: seq<Member>)
    requires DistinctKeys(members) && |members| >= 3 && later == members[1..][1..][1..]
    requires members[0].key == V && members[2].key == D
    ensures Unmarked(later)
  {
    hide Escape;
    Names();
    forall i | 0 <= i < |later|
      ensures Escape(later[i].key) != V && Escape(later[i].key) != D
    {
      assert later[i] == members[i + 3];
      if Escape(later[i].key) == V {
        EscapeIsInjective(later[i].key, V);
      }
      if Escape(later[i].key) == D {
        EscapeIsInjective(later[i].key, D);
      }
    }
  }

  /** So the scan finds the version string and the digest of every draft at their fixed places. */
  lemma DraftScan(version: bytes, size: nat, b: RoutedBody)
    requires DeclaresSize(version, size) && |Format(version, Draft(b))| <= ISIZE_MAX
    requires ScanSad(Format(version, Draft(b)), BLAKE3_CODES).Got?
    ensures ScanSad(Format(version, Draft(b)), BLAKE3_CODES) == Got(Found(Draft(b), size))
  {
    hide Format, ScanSad, SadOf, ObjectIn, Print, Canonical, Scannable, DeclaresSize, Plain, Utf8Run, Dummies, IndexOf, Unmarked;
    var s := Format(version, Draft(b));
    ScanSadExact(s, BLAKE3_CODES);
    var members := ObjectIn(s).value;
    ObjectInExact(s, members);
    VersionIsPlain(version, size);
    DummiesArePlain(SLOT_WIDTH);
    var later := DraftMembers(version, b, members);
    FirstFields(version, b.kind, Dummies(SLOT_WIDTH), later, size, BLAKE3_256);
  }

  /** Every write that succeeds produces the finished rendering of its arguments. */
  lemma WrittenIsFinished(suite: Suite, b: RoutedBody, limits: Budget)
    requires suite.Sound() && |Format(VersionText(0), Draft(b))| <= ISIZE_MAX && Write(suite, b, limits).Got?
    ensures Write(suite, b, limits).value == Finished(suite, b) && |Finished(suite, b)| <= SIZE_MAX
    ensures |Finished(suite, b)| == |Format(VersionText(0), Draft(b))|
  {
    hide Format, Parse, ScanSad, VersionText, DeclaresSize, Suite.Sound, Dummies, CheckWidths, Complete, Blanked, Filled, IndexOf, Splice;
    var s := Format(VersionText(0), Draft(b));
    VersionDeclares(0);
    DraftScan(VersionText(0), 0, b);
    SplicedIsFinished(suite, b);
    DigestWidth(suite, Digested(b));
    FormatKeepsLength(0, |s|, Draft(b), Completed(suite, b).said);
  }

  /** Main result: whatever its arguments contain, what a successful write produces is the text of a
      query or of a reply around them, with its own length in six hex digits and the digest of that
      text with 44 `#` in place of the digest. */
  lemma WrittenText(suite: Suite, b: RoutedBody, limits: Budget)
    requires suite.Sound() && |Format(VersionText(0), Draft(b))| <= ISIZE_MAX && Write(suite, b, limits).Got?
    ensures var raw := Write(suite, b, limits).value;
            exists size: bytes ::
              && SpellsSize(size, |raw|) && |size| == 6
              && raw == BodyText(b, size, suite.digest(BLAKE3_256, BodyText(b, size, Dummies(44))))
  {
    hide Format, Write, Parse, ScanSad, Suite.Sound, BodyText, SpellsSize, Hex6;
    WrittenIsFinished(suite, b, limits);
    var n := |Format(VersionText(0), Draft(b))|;
    HexOfSize(n);
    SizeIsSpelled(Hex6(n), n);
    FormatIsText(Draft(b), Hex6(n));
    FormatIsText(Completed(suite, b), Hex6(n));
    SameText(Draft(b), b, Hex6(n), Dummies(SLOT_WIDTH));
    SameText(Completed(suite, b), b, Hex6(n), Completed(suite, b).said);
  }

  lemma SameText(b: RoutedBody, b': RoutedBody, size: bytes, said: bytes)
    requires b == b'.(said := b.said)
    ensures BodyText(b, size, said) == BodyText(b', size, said)
  {
  }

  // ── Every accepted body ────────────────────────────────────────────────

  /** Main result: only such a text is accepted, as the kind it names, with its parts and its own
      length, and its digest is that of the text with `#` all over the digest. */
  lemma AcceptedText(suite: Suite, s: bytes, limits: Budget)
    requires limits.Within() && |s| <= ISIZE_MAX && Parse(suite, s, limits).Got?
    ensures var b := Parse(suite, s, limits).value;
            && |s| >= 22 && SpellsSize(s[16..22], |s|)
            && s == BodyText(b, s[16..22], b.said)
            && suite.infer(b.said).Some?
            && b.said == suite.digest(suite.infer(b.said).value, BodyText(b, s[16..22], Dummies(|b.said|)))
  {
    hide Format, Parse, BodyText, SpellsSize, DeclaresSize;
    var b := Parse(suite, s, limits).value;
    ParsedIsVerified(suite, s, limits);
    var version := s[VERSION_AT..VERSION_END];
    assert version[10..16] == s[16..22];
    DeclaredSpelling(version, |s|);
    FormatIsText(b, s[16..22]);
    FormatIsText(b.(said := Dummies(|b.said|)), s[16..22]);
    SameText(b.(said := Dummies(|b.said|)), b, s[16..22], Dummies(|b.said|));
  }

  lemma DeclaredSpelling(version: bytes, size: nat)
    requires DeclaresSize(version, size)
    ensures |version| == 17 && version == KERI10JSON + version[10..16] + [95] && SpellsSize(version[10..16], size)
  {
    hide VersionHead.HexSize, SpellsSize;
    SizeIsSpelled(version[10..16], size);
    assert version[4] == 49 && version[5] == 48;
    assert version[..10] == version[..4] + [version[4], version[5]] + version[6..10];
    assert version == version[..10] + version[10..16] + [version[16]];
  }
}
