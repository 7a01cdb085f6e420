/** The compact JSON text that values print as, in literal form (RFC 8259). */
module JsonWire {
  import opened Prelude
  import opened JsonTexts
  import opened JsonValues

  // ── Texts ──────────────────────────────────────────────────────────────

  /** The one spelling of each byte: the short escapes of quote, backslash and five controls, `\u00`
      and two lower-case hex digits for the other controls, and every other byte as it is. */
  lemma SpellingOnWire(b: byte)
    ensures Spelling(b) ==
      if b == '"' as int then Ascii("\\\"")
      else if b == '\\' as int then Ascii("\\\\")
      else if b == 8 then Ascii("\\b")
      else if b == 9 then Ascii("\\t")
      else if b == 10 then Ascii("\\n")
      else if b == 12 then Ascii("\\f")
      else if b == 13 then Ascii("\\r")
      else if b < 0x20 then Ascii("\\u00") + [HexChar(b / 16), HexChar(b % 16)]
      else [b]
    ensures b < 0x20 ==> HexChar(b / 16) == "01"[b / 16] as int && HexChar(b % 16) == "0123456789abcdef"[b % 16] as int
  {
  }

  // ── Values ─────────────────────────────────────────────────────────────

  /** The parts with a comma between any two. */
  function Commas(parts: seq<bytes>): bytes {
    if parts == [] then []
    else if |parts| == 1 then parts[0]
    else parts[0] + Ascii(",") + Commas(parts[1..])
  }

  /** Each part is the print of its item, or of its member: the quoted key, a colon and the value. */
  predicate ItemParts(items: seq<Json>, parts: seq<bytes>) {
    |parts| == |items| && forall i | 0 <= i < |items| :: parts[i] == Print(items[i])
  }

  predicate MemberParts(members: seq<Member>, parts: seq<bytes>) {
    |parts| == |members| && forall i | 0 <= i < |members| :: parts[i] == Quoted(members[i].key) + Ascii(":") + Print(members[i].value)
  }

  lemma {:induction false} ItemsJoined(items: seq<Json>, parts: seq<bytes>)
    requires ItemParts(items, parts)
    ensures PrintItems(items) == Commas(parts) + [93]
    ensures items != [] ==> MoreItems(items) == [44] + Commas(parts) + [93]
    decreases |items|
  {
    hide Print;
    if items == [] {
    } else if |items| == 1 {
      assert items[1..] == [] && MoreItems(items[1..]) == [93];
    } else {
      ItemsJoined(items[1..], parts[1..]);
      assert Ascii(",") == [44];
    }
  }

  lemma {:induction false} MembersJoined(members: seq<Member>, parts: seq<bytes>)
    requires MemberParts(members, parts)
    ensures PrintMembers(members) == Commas(parts) + [125]
    ensures members != [] ==> MoreMembers(members) == [44] + Commas(parts) + [125]
    decreases |members|
  {
    hide Print, Quoted;
    assert Ascii(":") == [58] && Ascii(",") == [44];
    if members == [] {
    } else if |members| == 1 {
      assert members[1..] == [] && MoreMembers(members[1..]) == [125];
    } else {
      MembersJoined(members[1..], parts[1..]);
    }
  }

  /** What every kind of value prints as. */
  lemma PrintOnWire(j: Json)
    ensures j.Null? ==> Print(j) == Ascii("null")
    ensures j.True? ==> Print(j) == Ascii("true")
    ensures j.False? ==> Print(j) == Ascii("false")
    ensures j.Num? ==> Print(j) == j.lexeme
    ensures j.Text? ==> Print(j) == Ascii("\"") + Escape(j.text) + Ascii("\"")
    ensures j.Array? ==> forall parts :: ItemParts(j.items, parts) ==> Print(j) == Ascii("[") + Commas(parts) + Ascii("]")
    ensures j.Object? ==> forall parts :: MemberParts(j.members, parts) ==> Print(j) == Ascii("{") + Commas(parts) + Ascii("}")
  {
    hide Escape, Commas;
    Brackets();
    match j {
      case Array(items) =>
        forall parts | ItemParts(items, parts)
          ensures Print(j) == Ascii("[") + Commas(parts) + Ascii("]")
        {
          ItemsJoined(items, parts);
        }
      case Object(members) =>
        forall parts | MemberParts(members, parts)
          ensures Print(j) == Ascii("{") + Commas(parts) + Ascii("}")
        {
          MembersJoined(members, parts);
        }
      case _ =>
    }
  }

  lemma Brackets()
    ensures Ascii("[") == [91] && Ascii("]") == [93] && Ascii("{") == [123] && Ascii("}") == [125] && Ascii("\"") == [34]
    ensures Ascii("null") == NULL && Ascii("true") == TRUE && Ascii("false") == FALSE
  {
  }
}
