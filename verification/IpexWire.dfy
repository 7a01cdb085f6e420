/** IPEX payloads on the wire: the literal text of what is built and of what is accepted. */
module IpexWire {
  import opened Prelude
  import opened JsonTexts
  import opened JsonValues
  import opened JsonReaders
  import opened JsonFields
  import opened IpexPayloads

  function PayloadText(p: Payload): bytes {
    match p
    case Application(message, schema, filter, recipient) =>
      Ascii("{\"m\":") + Quoted(message) + Ascii(",\"s\":\"") + schema + Ascii("\",\"a\":") + filter
      + Ascii(",\"i\":\"") + recipient + Ascii("\"}")
    case Transfer(message, recipient) =>
      Ascii("{\"m\":") + Quoted(message) + Ascii(",\"i\":\"") + recipient + Ascii("\"}")
    case Note(message) =>
      Ascii("{\"m\":") + Quoted(message) + Ascii("}")
  }

  lemma Literals()
    ensures [123] + FieldLit([], M) == Ascii("{\"m\":")
    ensures FieldLit([44], S) + [QUOTE] == Ascii(",\"s\":\"") && [QUOTE] + FieldLit([44], A) == Ascii("\",\"a\":")
    ensures FieldLit([44], I) + [QUOTE] == Ascii(",\"i\":\"") && [QUOTE] + [125] == Ascii("\"}") && [125] == Ascii("}")
  {
    hide Escape;
    NamesAreDistinct();
  }

  lemma PlainQuoted(t: bytes)
    requires Plain(t)
    ensures Quoted(t) == [QUOTE] + t + [QUOTE]
  {
    PlainIsUnescaped(t);
  }

  lemma ApplicationParts(m: bytes, message: bytes, s: bytes, schema: bytes, a: bytes, filter: bytes, i: bytes, recipient: bytes)
    ensures [123] + (m + message + (s + ([QUOTE] + schema + [QUOTE]) + (a + filter + (i + ([QUOTE] + recipient + [QUOTE]) + [125]))))
         == ([123] + m) + message + (s + [QUOTE]) + schema + ([QUOTE] + a) + filter + (i + [QUOTE]) + recipient + ([QUOTE] + [125])
  {
  }

  lemma TransferParts(m: bytes, message: bytes, i: bytes, recipient: bytes)
    ensures [123] + (m + message + (i + ([QUOTE] + recipient + [QUOTE]) + [125]))
         == ([123] + m) + message + (i + [QUOTE]) + recipient + ([QUOTE] + [125])
  {
  }

  lemma SpellIsText(lift: Lift, p: Payload)
    requires Fixed(lift, p)
    ensures Spell(p) == PayloadText(p)
  {
    hide Quoted, FieldLit, Plain, ObjectIn;
    Literals();
    match p {
      case Application(message, schema, filter, recipient) =>
        PlainQuoted(schema);
        PlainQuoted(recipient);
        ApplicationParts(FieldLit([], M), Quoted(message), FieldLit([44], S), schema, FieldLit([44], A), filter, FieldLit([44], I), recipient);
      case Transfer(message, recipient) =>
        PlainQuoted(recipient);
        TransferParts(FieldLit([], M), Quoted(message), FieldLit([44], I), recipient);
      case Note(message) =>
        assert [123] + (FieldLit([], M) + Quoted(message) + [125]) == ([123] + FieldLit([], M)) + Quoted(message) + [125];
    }
  }

  /** Main result: what a builder renders is the literal text of its payload. */
  lemma BuiltText(lift: Lift, p: Payload)
    requires Sendable(lift, p)
    ensures Print(TreeOf(p)) == PayloadText(p)
  {
    hide PayloadText, Spell, ObjectIn, Fixed, Canonical, Print, TreeOf;
    SendableIsCanonical(lift, p);
    SpellIsText(lift, p);
    FilterIsShort(lift, p);
    FilterIsObject(lift, p);
    SpellIsPrint(p);
  }

  lemma FilterIsObject(lift: Lift, p: Payload)
    requires Fixed(lift, p)
    ensures p.Application? ==> ObjectIn(p.filter).Some?
  {
  }

  /** Main result: a strict reader accepts nothing but the literal text of the payload it returns. */
  lemma AcceptedText(lift: Lift, route: IpexRoute, s: bytes, b: Budget)
    requires b.Within() && |s| <= ISIZE_MAX && PayloadAt(lift, route, s, Cursor(0, b)).Got?
    ensures var (p, end) := PayloadAt(lift, route, s, Cursor(0, b)).value;
            && (route == Apply <==> p.Application?) && (route == Grant <==> p.Transfer?)
            && Decodes(lift, p) && end.pos <= |s| && s[..end.pos] == PayloadText(p)
  {
    hide PayloadAt, PayloadText, Spell, ObjectIn, Print, ValueAt, Canonical;
    var (p, end) := PayloadAt(lift, route, s, Cursor(0, b)).value;
    PayloadExact(lift, route, s, Cursor(0, b), p, end);
    ValueIsPrinted(s, Cursor(0, b));
    SpellIsText(lift, p);
    SpellIsPrint(p);
  }
}
