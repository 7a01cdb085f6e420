/** The strict reader of canonical JSON values, by recursion on the value, under a budget of fields
    and depth. */
module JsonReaders {
  import opened Prelude
  import opened JsonTexts
  import opened JsonValues

  // ── Budgets and literals ───────────────────────────────────────────────

  /** Cumulative work: fields read so far, and containers open now. */
  datatype Budget = Budget(maxFields: nat, maxDepth: nat, fields: nat, depth: nat) {
    predicate Within() {
      fields <= maxFields && depth <= maxDepth
    }
  }

  const UNLIMITED := Budget(USIZE_MAX, USIZE_MAX, 0, 0)

  datatype Cursor = Cursor(pos: nat, budget: Budget)

  predicate Opens(b: byte) {
    b == 123 || b == 91
  }

  predicate Closes(b: byte) {
    b == 125 || b == 93
  }

  /** Whether the byte at `i` closes the key of a field. */
  predicate EndsKey(lit: bytes, i: nat)
    requires i < |lit|
  {
    lit[i] == QUOTE && i + 1 < |lit| && lit[i + 1] == 58
  }

  /** `charge_literal` from byte `i` of a literal at `pos`. */
  function Charge(lit: bytes, i: nat, pos: nat, b: Budget): (r: Read<Budget>)
    ensures r.Got? ==> r.value.maxFields == b.maxFields && r.value.maxDepth == b.maxDepth && (b.Within() ==> r.value.Within())
    decreases |lit| - i
  {
    if i >= |lit| then Got(b)
    else if Opens(lit[i]) then
      if b.depth >= b.maxDepth then Bad(DepthLimit(pos + i, b.maxDepth)) else Charge(lit, i + 1, pos, b.(depth := b.depth + 1))
    else if Closes(lit[i]) then
      if b.depth == 0 then Bad(NonCanonical(pos + i)) else Charge(lit, i + 1, pos, b.(depth := b.depth - 1))
    else if EndsKey(lit, i) then
      if b.fields >= b.maxFields then Bad(FieldLimit(pos + i, b.maxFields)) else Charge(lit, i + 1, pos, b.(fields := b.fields + 1))
    else Charge(lit, i + 1, pos, b)
  }

  /** `expect`: step over a literal and charge what it opens, closes and names. */
  function Expect(s: bytes, c: Cursor, lit: bytes): (r: Read<Cursor>)
    ensures r.Got? ==> At(s, c.pos, lit) && r.value.pos == c.pos + |lit| <= |s| && (c.budget.Within() ==> r.value.budget.Within())
  {
    if !At(s, c.pos, lit) then Bad(NonCanonical(c.pos)) else
      var charged :- Charge(lit, 0, c.pos, c.budget);
      Got(Cursor(c.pos + |lit|, charged))
  }

  // ── Values ─────────────────────────────────────────────────────────────

  predicate StartsNumber(b: byte) {
    b == 45 || IsDigit(b)
  }

  function ScalarAt(s: bytes, pos: nat): (r: Read<(Json, nat)>)
    ensures r.Got? ==> pos < r.value.1 <= |s|
  {
    if ByteAt(s, pos, QUOTE) then
      var text :- JsonTextAt(s, pos);
      Got((Text(text.0), text.1))
    else if pos < |s| && StartsNumber(s[pos]) then
      var end :- NumberEnd(s, pos);
      Got((Num(s[pos..end]), end))
    else if At(s, pos, TRUE) then Got((True, pos + 4))
    else if At(s, pos, FALSE) then Got((False, pos + 5))
    else if At(s, pos, NULL) then Got((Null, pos + 4))
    else Bad(NonCanonical(pos))
  }

  /** A key that was not seen before in its object, and the colon. Keys are compared as spelled. */
  function KeyAt(s: bytes, c: Cursor, keys: set<bytes>): (r: Read<(bytes, Cursor)>)
    ensures r.Got? ==> c.pos < r.value.1.pos <= |s|
  {
    if !ByteAt(s, c.pos, QUOTE) then Bad(NonCanonical(c.pos))
    else if c.budget.fields >= c.budget.maxFields then Bad(FieldLimit(c.pos, c.budget.maxFields))
    else
      var key :- JsonTextAt(s, c.pos);
      if Spelled(s, c.pos, key.1) in keys then Bad(NonCanonical(c.pos + 1)) else
        var colon :- Expect(s, Cursor(key.1, c.budget.(fields := c.budget.fields + 1)), [58]);
        Got((key.0, colon))
  }

  /** What stands between the quotes of the string from `pos` to `end`. */
  function Spelled(s: bytes, pos: nat, end: nat): bytes
    requires pos + 2 <= end <= |s|
  {
    s[pos + 1..end - 1]
  }

  function ValueAt(s: bytes, c: Cursor): (r: Read<(Json, Cursor)>)
    ensures r.Got? ==> c.pos < r.value.1.pos <= |s|
    decreases |s| - c.pos, 3
  {
    if ByteAt(s, c.pos, 123) then
      var start :- Expect(s, c, [123]);
      var members :- MembersAt(s, start);
      Got((Object(members.0), members.1))
    else if ByteAt(s, c.pos, 91) then
      var start :- Expect(s, c, [91]);
      var items :- ItemsAt(s, start);
      Got((Array(items.0), items.1))
    else
      var scalar :- ScalarAt(s, c.pos);
      Got((scalar.0, Cursor(scalar.1, c.budget)))
  }

  /** The members after an opening brace. */
  function MembersAt(s: bytes, c: Cursor): (r: Read<(seq<Member>, Cursor)>)
    ensures r.Got? ==> c.pos < r.value.1.pos <= |s|
    decreases |s| - c.pos, 2
  {
    if ByteAt(s, c.pos, 125) then
      var end :- Expect(s, c, [125]);
      Got(([], end))
    else MemberAt(s, c, {})
  }

  /** At least one more member, and the rest of the object. */
  function MemberAt(s: bytes, c: Cursor, keys: set<bytes>): (r: Read<(seq<Member>, Cursor)>)
    ensures r.Got? ==> c.pos < r.value.1.pos <= |s|
    decreases |s| - c.pos, 1
  {
    var key :- KeyAt(s, c, keys);
    var value :- ValueAt(s, key.1);
    var more :- AfterMember(s, value.1, keys + {Escape(key.0)});
    Got(([Member(key.0, value.0)] + more.0, more.1))
  }

  function AfterMember(s: bytes, c: Cursor, keys: set<bytes>): (r: Read<(seq<Member>, Cursor)>)
    ensures r.Got? ==> c.pos < r.value.1.pos <= |s|
    decreases |s| - c.pos, 0
  {
    if ByteAt(s, c.pos, 44) then
      var next :- Expect(s, c, [44]);
      MemberAt(s, next, keys)
    else if ByteAt(s, c.pos, 125) then
      var end :- Expect(s, c, [125]);
      Got(([], end))
    else Bad(NonCanonical(c.pos))
  }

  /** The items after an opening bracket. */
  function ItemsAt(s: bytes, c: Cursor): (r: Read<(seq<Json>, Cursor)>)
    ensures r.Got? ==> c.pos < r.value.1.pos <= |s|
    decreases |s| - c.pos, 5
  {
    if ByteAt(s, c.pos, 93) then
      var end :- Expect(s, c, [93]);
      Got(([], end))
    else ItemAt(s, c)
  }

  function ItemAt(s: bytes, c: Cursor): (r: Read<(seq<Json>, Cursor)>)
    ensures r.Got? ==> c.pos < r.value.1.pos <= |s|
    decreases |s| - c.pos, 4
  {
    var value :- ValueAt(s, c);
    var more :- AfterItem(s, value.1);
    Got(([value.0] + more.0, more.1))
  }

  function AfterItem(s: bytes, c: Cursor): (r: Read<(seq<Json>, Cursor)>)
    ensures r.Got? ==> c.pos < r.value.1.pos <= |s|
    decreases |s| - c.pos, 0
  {
    if ByteAt(s, c.pos, 44) then
      var next :- Expect(s, c, [44]);
      ItemAt(s, next)
    else if ByteAt(s, c.pos, 93) then
      var end :- Expect(s, c, [93]);
      Got(([], end))
    else Bad(NonCanonical(c.pos))
  }

  // ── What a value costs ─────────────────────────────────────────────────

  function Fields(j: Json): nat {
    match j
    case Array(items) => FieldsOfItems(items)
    case Object(members) => FieldsOfMembers(members)
    case _ => 0
  }

  function FieldsOfItems(items: seq<Json>): nat {
    if items == [] then 0 else Fields(items[0]) + FieldsOfItems(items[1..])
  }

  function FieldsOfMembers(members: seq<Member>): nat {
    if members == [] then 0 else 1 + Fields(members[0].value) + FieldsOfMembers(members[1..])
  }

  function Height(j: Json): nat {
    match j
    case Array(items) => 1 + HeightOfItems(items)
    case Object(members) => 1 + HeightOfMembers(members)
    case _ => 0
  }

  function HeightOfItems(items: seq<Json>): nat {
    if items == [] then 0 else Max(Height(items[0]), HeightOfItems(items[1..]))
  }

  function HeightOfMembers(members: seq<Member>): nat {
    if members == [] then 0 else Max(Height(members[0].value), HeightOfMembers(members[1..]))
  }

  /** A budget covers this many more fields and this much more depth. */
  predicate Covers(b: Budget, fields: nat, height: nat) {
    b.fields + fields <= b.maxFields && b.depth + height <= b.maxDepth
  }

  function Spend(b: Budget, fields: nat): Budget {
    b.(fields := b.fields + fields)
  }

  // ── Canonical trees ────────────────────────────────────────────────────

  predicate DistinctKeys(members: seq<Member>) {
    forall i, k | 0 <= i < k < |members| :: members[i].key != members[k].key
  }

  /** Texts are UTF-8, numbers follow the JSON grammar, and no object repeats a key. */
  ghost predicate Canonical(j: Json) {
    match j
    case Text(text) => ValidUtf8(text)
    case Num(lexeme) => IsNumber(lexeme)
    case Array(items) => CanonicalItems(items)
    case Object(members) => CanonicalMembers(members) && DistinctKeys(members)
    case _ => true
  }

  ghost predicate CanonicalItems(items: seq<Json>) {
    items != [] ==> Canonical(items[0]) && CanonicalItems(items[1..])
  }

  ghost predicate CanonicalMembers(members: seq<Member>) {
    members != [] ==> ValidUtf8(members[0].key) && Canonical(members[0].value) && CanonicalMembers(members[1..])
  }

  /** None of the members has a key that is already spelled in the object. */
  predicate FreshKeys(members: seq<Member>, keys: set<bytes>) {
    forall i | 0 <= i < |members| :: Escape(members[i].key) !in keys
  }

  lemma EscapeIsInjective(a: bytes, b: bytes)
    requires Escape(a) == Escape(b)
    ensures a == b
  {
    QuotedDelimitsItself(a, b, [], []);
  }

  lemma KeysStayFresh(members: seq<Member>, keys: set<bytes>)
    requires members != []
    ensures FreshKeys(members, keys) && DistinctKeys(members) <==>
      && Escape(members[0].key) !in keys
      && FreshKeys(members[1..], keys + {Escape(members[0].key)})
      && DistinctKeys(members[1..])
  {
    hide Escape;
    var first, rest := members[0].key, members[1..];
    assert forall i | 0 <= i < |rest| :: rest[i] == members[i + 1];
    assert forall i | 0 < i < |members| :: members[i] == rest[i - 1];
    forall i | 0 <= i < |rest|
      ensures Escape(rest[i].key) == Escape(first) <==> rest[i].key == first
    {
      if Escape(rest[i].key) == Escape(first) {
        EscapeIsInjective(rest[i].key, first);
      }
    }
  }

  // ── One step ───────────────────────────────────────────────────────────

  lemma ByteIsAt(s: bytes, pos: nat, b: byte)
    ensures At(s, pos, [b]) <==> ByteAt(s, pos, b)
  {
    if At(s, pos, [b]) {
      assert s[pos..][0] == b;
    }
    if ByteAt(s, pos, b) {
      assert s[pos..][..1] == [b];
    }
  }

  lemma ChargeDone(lit: bytes, pos: nat, b: Budget)
    ensures Charge(lit, |lit|, pos, b) == Got(b)
  {
  }

  lemma ExpectByte(s: bytes, c: Cursor, b: byte)
    ensures var r := Expect(s, c, [b]);
            if !ByteAt(s, c.pos, b) then r == Bad(NonCanonical(c.pos))
            else if Opens(b) then
              r == if c.budget.depth >= c.budget.maxDepth then Bad(DepthLimit(c.pos, c.budget.maxDepth))
                   else Got(Cursor(c.pos + 1, c.budget.(depth := c.budget.depth + 1)))
            else if Closes(b) then
              r == if c.budget.depth == 0 then Bad(NonCanonical(c.pos))
                   else Got(Cursor(c.pos + 1, c.budget.(depth := c.budget.depth - 1)))
            else r == Got(Cursor(c.pos + 1, c.budget))
  {
    if At(s, c.pos, [b]) {
      assert s[c.pos..][0] == b;
    }
    if ByteAt(s, c.pos, b) {
      assert s[c.pos..][..1] == [b];
      assert At(s, c.pos, [b]);
      ChargeDone([b], c.pos, c.budget);
      ChargeDone([b], c.pos, c.budget.(depth := c.budget.depth + 1));
      if c.budget.depth > 0 {
        ChargeDone([b], c.pos, c.budget.(depth := c.budget.depth - 1));
      }
    }
  }

  /** A scalar is read as what it prints, and nothing else. */
  lemma ScalarIsPrinted(s: bytes, pos: nat)
    requires ScalarAt(s, pos).Got?
    ensures var (j, end) := ScalarAt(s, pos).value;
            Canonical(j) && s[pos..end] == Print(j) && !j.Array? && !j.Object?
  {
    hide JsonTextAt, NumberEnd, IsNumber, Quoted, Utf8Run;
    var (j, end) := ScalarAt(s, pos).value;
    if j.Text? {
      JsonTextExact(s, pos, j.text, end);
    } else if j.Num? {
      NumberIsLexeme(s, pos);
    }
  }

  lemma NumberStart(lexeme: bytes)
    requires IsNumber(lexeme)
    ensures lexeme != [] && StartsNumber(lexeme[0])
  {
  }

  lemma PrintedIsScalar(s: bytes, pos: nat, j: Json)
    requires Canonical(j) && !j.Array? && !j.Object? && At(s, pos, Print(j))
    requires j.Num? ==> NumberStops(s, pos + |Print(j)|)
    ensures ScalarAt(s, pos) == Got((j, pos + |Print(j)|))
    ensures !ByteAt(s, pos, 123) && !ByteAt(s, pos, 91)
  {
    hide JsonTextAt, NumberEnd, IsNumber, Utf8Run;
    FirstAt(s, pos, Print(j));
    if At(s, pos, TRUE) {
      FirstAt(s, pos, TRUE);
    }
    if At(s, pos, FALSE) {
      FirstAt(s, pos, FALSE);
    }
    if j.Text? {
      assert Print(j)[0] == QUOTE;
      JsonTextExact(s, pos, j.text, pos + |Print(j)|);
      assert ScalarAt(s, pos) == Got((j, pos + |Print(j)|));
    } else if j.Num? {
      NumberStart(j.lexeme);
      LexemeIsNumber(s, pos, j.lexeme);
      assert s[pos..pos + |j.lexeme|] == s[pos..][..|j.lexeme|] == j.lexeme;
      assert ScalarAt(s, pos) == Got((j, pos + |Print(j)|));
    } else {
      assert !StartsNumber(s[pos]) && s[pos] != QUOTE;
    }
  }

  // ── What is read is what prints ────────────────────────────────────────

  lemma Adjacent3(s: bytes, a: nat, b: nat, c: nat, d: nat)
    requires a <= b <= c <= d <= |s|
    ensures s[a..d] == s[a..b] + s[b..c] + s[c..d]
  {
  }

  lemma KeyIsPrinted(s: bytes, c: Cursor, keys: set<bytes>)
    requires KeyAt(s, c, keys).Got?
    ensures var (key, next) := KeyAt(s, c, keys).value;
            && ValidUtf8(key) && Escape(key) !in keys
            && s[c.pos..next.pos] == Quoted(key) + [58]
            && next.budget == Spend(c.budget, 1) && c.budget.fields < c.budget.maxFields
  {
    hide JsonTextAt, Expect, Quoted, Utf8Run;
    var (key, end) := JsonTextAt(s, c.pos).value;
    JsonTextExact(s, c.pos, key, end);
    SpelledIsEscape(s, c.pos, key, end);
    ExpectByte(s, Cursor(end, c.budget.(fields := c.budget.fields + 1)), 58);
    assert s[c.pos..end] == s[c.pos..][..|Quoted(key)|] == Quoted(key);
    assert s[c.pos..end + 1] == s[c.pos..end] + [58];
  }

  lemma SpelledIsEscape(s: bytes, pos: nat, t: bytes, end: nat)
    requires At(s, pos, Quoted(t)) && end == pos + |Quoted(t)|
    ensures end <= |s| && Spelled(s, pos, end) == Escape(t)
  {
    assert s[pos..end] == s[pos..][..|Quoted(t)|] == Quoted(t);
    assert s[pos + 1..end - 1] == s[pos..end][1..|Quoted(t)| - 1];
  }

  /** Main result, one direction: an accepted value is the compact print of a canonical tree, and
      the budget paid for exactly its fields and its height. */
  lemma {:induction false} ValueIsPrinted(s: bytes, c: Cursor)
    requires ValueAt(s, c).Got? && c.budget.Within()
    ensures var (j, end) := ValueAt(s, c).value;
            && Canonical(j) && s[c.pos..end.pos] == Print(j)
            && Covers(c.budget, Fields(j), Height(j)) && end.budget == Spend(c.budget, Fields(j))
    decreases |s| - c.pos, 3
  {
    hide Expect, ScalarAt, MembersAt, ItemsAt;
    var (j, end) := ValueAt(s, c).value;
    if ByteAt(s, c.pos, 123) {
      ExpectByte(s, c, 123);
      var start := Expect(s, c, [123]).value;
      MembersArePrinted(s, start);
      assert s[c.pos..end.pos] == [123] + s[start.pos..end.pos];
    } else if ByteAt(s, c.pos, 91) {
      ExpectByte(s, c, 91);
      var start := Expect(s, c, [91]).value;
      ItemsArePrinted(s, start);
      assert s[c.pos..end.pos] == [91] + s[start.pos..end.pos];
    } else {
      ScalarIsPrinted(s, c.pos);
    }
  }

  /** What the rest of a container costs inside it. */
  predicate Pays(before: Budget, fields: nat, height: nat, after: Budget) {
    && before.depth > 0
    && Covers(before, fields, height)
    && after == Spend(before, fields).(depth := before.depth - 1)
  }

  lemma {:induction false} MembersArePrinted(s: bytes, c: Cursor)
    requires MembersAt(s, c).Got? && c.budget.Within() && c.budget.depth > 0
    ensures var (members, end) := MembersAt(s, c).value;
            && CanonicalMembers(members) && DistinctKeys(members)
            && s[c.pos..end.pos] == PrintMembers(members)
            && Pays(c.budget, FieldsOfMembers(members), HeightOfMembers(members), end.budget)
    decreases |s| - c.pos, 2
  {
    hide Expect, MemberAt;
    if ByteAt(s, c.pos, 125) {
      ExpectByte(s, c, 125);
    } else {
      MemberIsPrinted(s, c, {});
    }
  }

  lemma {:induction false} MemberIsPrinted(s: bytes, c: Cursor, keys: set<bytes>)
    requires MemberAt(s, c, keys).Got? && c.budget.Within() && c.budget.depth > 0
    ensures var (members, end) := MemberAt(s, c, keys).value;
            && members != [] && CanonicalMembers(members) && DistinctKeys(members) && FreshKeys(members, keys)
            && s[c.pos..end.pos] == PrintMembers(members)
            && Pays(c.budget, FieldsOfMembers(members), HeightOfMembers(members), end.budget)
    decreases |s| - c.pos, 1
  {
    hide KeyAt, ValueAt, AfterMember, Canonical, Quoted, DistinctKeys, FreshKeys, Print;
    var (key, colon) := KeyAt(s, c, keys).value;
    KeyIsPrinted(s, c, keys);
    var (value, after) := ValueAt(s, colon).value;
    ValueIsPrinted(s, colon);
    AfterMemberIsPrinted(s, after, keys + {Escape(key)});
    var (more, end) := AfterMember(s, after, keys + {Escape(key)}).value;
    var members := [Member(key, value)] + more;
    assert members[1..] == more;
    KeysStayFresh(members, keys);
    Adjacent3(s, c.pos, colon.pos, after.pos, end.pos);
  }

  lemma {:induction false} AfterMemberIsPrinted(s: bytes, c: Cursor, keys: set<bytes>)
    requires AfterMember(s, c, keys).Got? && c.budget.Within() && c.budget.depth > 0
    ensures var (members, end) := AfterMember(s, c, keys).value;
            && CanonicalMembers(members) && DistinctKeys(members) && FreshKeys(members, keys)
            && s[c.pos..end.pos] == MoreMembers(members)
            && Pays(c.budget, FieldsOfMembers(members), HeightOfMembers(members), end.budget)
    decreases |s| - c.pos, 0
  {
    hide Expect, MemberAt, PrintMember, CanonicalMembers;
    if ByteAt(s, c.pos, 44) {
      ExpectByte(s, c, 44);
      var next := Expect(s, c, [44]).value;
      MemberIsPrinted(s, next, keys);
      var (members, end) := MemberAt(s, next, keys).value;
      assert s[c.pos..end.pos] == [44] + s[next.pos..end.pos];
      assert [44] + PrintMembers(members) == MoreMembers(members);
    } else {
      ExpectByte(s, c, 125);
      NoMembers();
    }
  }

  lemma NoMembers()
    ensures CanonicalMembers([])
  {
  }

  lemma {:induction false} ItemsArePrinted(s: bytes, c: Cursor)
    requires ItemsAt(s, c).Got? && c.budget.Within() && c.budget.depth > 0
    ensures var (items, end) := ItemsAt(s, c).value;
            && CanonicalItems(items)
            && s[c.pos..end.pos] == PrintItems(items)
            && Pays(c.budget, FieldsOfItems(items), HeightOfItems(items), end.budget)
    decreases |s| - c.pos, 5
  {
    hide Expect, ItemAt;
    if ByteAt(s, c.pos, 93) {
      ExpectByte(s, c, 93);
    } else {
      ItemIsPrinted(s, c);
    }
  }

  lemma {:induction false} ItemIsPrinted(s: bytes, c: Cursor)
    requires ItemAt(s, c).Got? && c.budget.Within() && c.budget.depth > 0
    ensures var (items, end) := ItemAt(s, c).value;
            && items != [] && CanonicalItems(items)
            && s[c.pos..end.pos] == PrintItems(items)
            && Pays(c.budget, FieldsOfItems(items), HeightOfItems(items), end.budget)
    decreases |s| - c.pos, 4
  {
    hide ValueAt, AfterItem, Canonical, Print;
    var (value, after) := ValueAt(s, c).value;
    ValueIsPrinted(s, c);
    AfterItemIsPrinted(s, after);
    var (more, end) := AfterItem(s, after).value;
    assert ([value] + more)[1..] == more;
    Adjacent(s, c.pos, after.pos, end.pos);
  }

  lemma {:induction false} AfterItemIsPrinted(s: bytes, c: Cursor)
    requires AfterItem(s, c).Got? && c.budget.Within() && c.budget.depth > 0
    ensures var (items, end) := AfterItem(s, c).value;
            && CanonicalItems(items)
            && s[c.pos..end.pos] == MoreItems(items)
            && Pays(c.budget, FieldsOfItems(items), HeightOfItems(items), end.budget)
    decreases |s| - c.pos, 0
  {
    hide Expect, ItemAt, Print, CanonicalItems;
    if ByteAt(s, c.pos, 44) {
      ExpectByte(s, c, 44);
      var next := Expect(s, c, [44]).value;
      ItemIsPrinted(s, next);
      var (items, end) := ItemAt(s, next).value;
      assert s[c.pos..end.pos] == [44] + s[next.pos..end.pos];
      assert [44] + PrintItems(items) == MoreItems(items);
    } else {
      ExpectByte(s, c, 93);
      NoItems();
    }
  }

  lemma NoItems()
    ensures CanonicalItems([])
  {
  }

  // ── What prints is read ────────────────────────────────────────────────

  lemma KeyIsRead(s: bytes, c: Cursor, keys: set<bytes>, key: bytes)
    requires ValidUtf8(key) && Escape(key) !in keys && At(s, c.pos, Quoted(key) + [58])
    requires c.budget.fields < c.budget.maxFields
    ensures KeyAt(s, c, keys) == Got((key, Cursor(c.pos + |Quoted(key)| + 1, Spend(c.budget, 1))))
  {
    hide JsonTextAt, Expect, Utf8Run;
    var end := c.pos + |Quoted(key)|;
    Split(s, c.pos, Quoted(key), [58]);
    FirstAt(s, c.pos, Quoted(key));
    FirstAt(s, end, [58]);
    JsonTextExact(s, c.pos, key, end);
    SpelledIsEscape(s, c.pos, key, end);
    ExpectByte(s, Cursor(end, Spend(c.budget, 1)), 58);
  }

  /** Main result, the other direction: a canonical tree in compact form is read back, for any
      budget that covers it, wherever its text ends. */
  lemma {:induction false} PrintedIsValue(s: bytes, c: Cursor, j: Json)
    requires Canonical(j) && At(s, c.pos, Print(j)) && Covers(c.budget, Fields(j), Height(j))
    requires j.Num? ==> NumberStops(s, c.pos + |Print(j)|)
    ensures ValueAt(s, c) == Got((j, Cursor(c.pos + |Print(j)|, Spend(c.budget, Fields(j)))))
    decreases j, 1
  {
    hide Expect, ScalarAt, MembersAt, ItemsAt, IsNumber, Quoted;
    FirstAt(s, c.pos, Print(j));
    match j {
      case Object(members) =>
        Split(s, c.pos, [123], PrintMembers(members));
        ExpectByte(s, c, 123);
        var start := Cursor(c.pos + 1, c.budget.(depth := c.budget.depth + 1));
        PrintedAreMembers(s, start, members);
      case Array(items) =>
        Split(s, c.pos, [91], PrintItems(items));
        ExpectByte(s, c, 91);
        var start := Cursor(c.pos + 1, c.budget.(depth := c.budget.depth + 1));
        PrintedAreItems(s, start, items);
      case _ =>
        PrintedIsScalar(s, c.pos, j);
    }
  }

  /** The cursor behind a container's remaining text. */
  function Past(c: Cursor, text: bytes, fields: nat): Cursor
    requires c.budget.depth > 0
  {
    Cursor(c.pos + |text|, Spend(c.budget, fields).(depth := c.budget.depth - 1))
  }

  lemma {:induction false} PrintedAreMembers(s: bytes, c: Cursor, members: seq<Member>)
    requires CanonicalMembers(members) && DistinctKeys(members) && At(s, c.pos, PrintMembers(members))
    requires c.budget.depth > 0 && Covers(c.budget, FieldsOfMembers(members), HeightOfMembers(members))
    ensures MembersAt(s, c) == Got((members, Past(c, PrintMembers(members), FieldsOfMembers(members))))
    decreases members, 1
  {
    hide Expect, MemberAt, Quoted;
    FirstAt(s, c.pos, PrintMembers(members));
    if members == [] {
      ExpectByte(s, c, 125);
    } else {
      QuotedStarts(members[0].key);
      PrintedAreMember(s, c, members, {});
    }
  }

  lemma QuotedStarts(t: bytes)
    ensures |Quoted(t)| > 0 && Quoted(t)[0] == QUOTE
  {
  }

  lemma {:induction false} PrintedAreMember(s: bytes, c: Cursor, members: seq<Member>, keys: set<bytes>)
    requires members != [] && CanonicalMembers(members) && DistinctKeys(members) && FreshKeys(members, keys)
    requires At(s, c.pos, PrintMembers(members))
    requires c.budget.depth > 0 && Covers(c.budget, FieldsOfMembers(members), HeightOfMembers(members))
    ensures MemberAt(s, c, keys) == Got((members, Past(c, PrintMembers(members), FieldsOfMembers(members))))
    decreases members, 0
  {
    hide KeyAt, ValueAt, AfterMember, Canonical, Quoted, DistinctKeys, FreshKeys, Print;
    var key, value, rest := members[0].key, members[0].value, members[1..];
    var first := Quoted(key) + [58];
    assert PrintMembers(members) == first + (Print(value) + MoreMembers(rest));
    Split(s, c.pos, first, Print(value) + MoreMembers(rest));
    KeysStayFresh(members, keys);
    KeyIsRead(s, c, keys, key);
    var colon := Cursor(c.pos + |first|, Spend(c.budget, 1));
    Split(s, colon.pos, Print(value), MoreMembers(rest));
    var after := Cursor(colon.pos + |Print(value)|, Spend(colon.budget, Fields(value)));
    SeparatorStopsNumber(s, after.pos, MoreMembers(rest));
    assert value < members[0];
    PrintedIsValue(s, colon, value);
    PrintedAreMoreMembers(s, after, rest, keys + {Escape(key)});
    assert [Member(key, value)] + rest == members;
  }

  lemma SeparatorStopsNumber(s: bytes, pos: nat, text: bytes)
    requires At(s, pos, text) && text != [] && text[0] in {44, 93, 125}
    ensures NumberStops(s, pos)
  {
    FirstAt(s, pos, text);
  }

  lemma {:induction false} PrintedAreMoreMembers(s: bytes, c: Cursor, members: seq<Member>, keys: set<bytes>)
    requires CanonicalMembers(members) && DistinctKeys(members) && FreshKeys(members, keys)
    requires At(s, c.pos, MoreMembers(members))
    requires c.budget.depth > 0 && Covers(c.budget, FieldsOfMembers(members), HeightOfMembers(members))
    ensures AfterMember(s, c, keys) == Got((members, Past(c, MoreMembers(members), FieldsOfMembers(members))))
    decreases members, 1
  {
    hide Expect, MemberAt, PrintMember, DistinctKeys, FreshKeys;
    FirstAt(s, c.pos, MoreMembers(members));
    if members == [] {
      ExpectByte(s, c, 125);
    } else {
      assert MoreMembers(members) == [44] + PrintMembers(members);
      Split(s, c.pos, [44], PrintMembers(members));
      ExpectByte(s, c, 44);
      PrintedAreMember(s, Cursor(c.pos + 1, c.budget), members, keys);
    }
  }

  lemma {:induction false} PrintedAreItems(s: bytes, c: Cursor, items: seq<Json>)
    requires CanonicalItems(items) && At(s, c.pos, PrintItems(items))
    requires c.budget.depth > 0 && Covers(c.budget, FieldsOfItems(items), HeightOfItems(items))
    ensures ItemsAt(s, c) == Got((items, Past(c, PrintItems(items), FieldsOfItems(items))))
    decreases items, 1
  {
    hide Expect, ItemAt, Print, Canonical;
    FirstAt(s, c.pos, PrintItems(items));
    if items == [] {
      ExpectByte(s, c, 93);
    } else {
      PrintStarts(items[0]);
      PrintedAreItem(s, c, items);
    }
  }

  lemma PrintStarts(j: Json)
    requires Canonical(j)
    ensures |Print(j)| > 0 && Print(j)[0] != 93
  {
    hide IsNumber;
    if j.Num? {
      NumberStart(j.lexeme);
    }
  }

  lemma {:induction false} PrintedAreItem(s: bytes, c: Cursor, items: seq<Json>)
    requires items != [] && CanonicalItems(items) && At(s, c.pos, PrintItems(items))
    requires c.budget.depth > 0 && Covers(c.budget, FieldsOfItems(items), HeightOfItems(items))
    ensures ItemAt(s, c) == Got((items, Past(c, PrintItems(items), FieldsOfItems(items))))
    decreases items, 0
  {
    hide ValueAt, AfterItem, Canonical, Print;
    var value, rest := items[0], items[1..];
    Split(s, c.pos, Print(value), MoreItems(rest));
    var after := Cursor(c.pos + |Print(value)|, Spend(c.budget, Fields(value)));
    SeparatorStopsNumber(s, after.pos, MoreItems(rest));
    PrintedIsValue(s, c, value);
    PrintedAreMoreItems(s, after, rest);
    assert [value] + rest == items;
  }

  lemma {:induction false} PrintedAreMoreItems(s: bytes, c: Cursor, items: seq<Json>)
    requires CanonicalItems(items) && At(s, c.pos, MoreItems(items))
    requires c.budget.depth > 0 && Covers(c.budget, FieldsOfItems(items), HeightOfItems(items))
    ensures AfterItem(s, c) == Got((items, Past(c, MoreItems(items), FieldsOfItems(items))))
    decreases items, 1
  {
    hide Expect, ItemAt, Print, Canonical;
    FirstAt(s, c.pos, MoreItems(items));
    if items == [] {
      ExpectByte(s, c, 93);
    } else {
      assert MoreItems(items) == [44] + PrintItems(items);
      Split(s, c.pos, [44], PrintItems(items));
      ExpectByte(s, c, 44);
      PrintedAreItem(s, Cursor(c.pos + 1, c.budget), items);
    }
  }

  /** An object, or a refusal at its first byte. */
  function ObjectAt(s: bytes, c: Cursor): (r: Read<(Json, Cursor)>)
    ensures r.Got? ==> c.pos < r.value.1.pos <= |s|
  {
    if !ByteAt(s, c.pos, 123) then Bad(NonCanonical(c.pos)) else ValueAt(s, c)
  }

  // ── Consequences ───────────────────────────────────────────────────────

  /** Main result: at any position, the reader accepts an object exactly when a canonical object in
      compact form stands there and the budget covers it, and then it stops right behind the
      closing brace, whatever its strings contain. */
  lemma ObjectExact(s: bytes, c: Cursor, members: seq<Member>, end: Cursor)
    requires c.budget.Within()
    ensures ValueAt(s, c) == Got((Object(members), end)) <==>
      && Canonical(Object(members)) && At(s, c.pos, Print(Object(members)))
      && Covers(c.budget, Fields(Object(members)), Height(Object(members)))
      && end == Cursor(c.pos + |Print(Object(members))|, Spend(c.budget, Fields(Object(members))))
  {
    hide ValueAt, Canonical, Print;
    if ValueAt(s, c) == Got((Object(members), end)) {
      ValueIsPrinted(s, c);
      assert s[c.pos..][..end.pos - c.pos] == s[c.pos..end.pos];
    } else if && Canonical(Object(members)) && At(s, c.pos, Print(Object(members)))
              && Covers(c.budget, Fields(Object(members)), Height(Object(members))) {
      PrintedIsValue(s, c, Object(members));
    }
  }

  /** An accepted value is UTF-8 as a whole. */
  lemma {:induction false} PrintIsUtf8(j: Json)
    requires Canonical(j)
    ensures ValidUtf8(Print(j))
    decreases j, 1
  {
    hide IsNumber, Utf8Run;
    match j {
      case Text(text) => QuotedUtf8(text);
      case Num(lexeme) => NumberUtf8(lexeme);
      case Array(items) =>
        ItemsUtf8(items);
        AsciiUtf8(Ready, [91]);
        Utf8Concat(Ready, [91], PrintItems(items));
      case Object(members) =>
        MembersUtf8(members);
        AsciiUtf8(Ready, [123]);
        Utf8Concat(Ready, [123], PrintMembers(members));
      case _ => AsciiUtf8(Ready, Print(j));
    }
  }

  lemma QuotedUtf8(t: bytes)
    requires ValidUtf8(t)
    ensures ValidUtf8(Quoted(t))
  {
    hide Utf8Run;
    EscapeKeepsUtf8(Ready, t);
    AsciiUtf8(Ready, [QUOTE]);
    Utf8Concat(Ready, [QUOTE], Escape(t));
    Utf8Concat(Ready, [QUOTE] + Escape(t), [QUOTE]);
  }

  lemma NumberUtf8(lexeme: bytes)
    requires IsNumber(lexeme)
    ensures ValidUtf8(lexeme)
  {
    hide Utf8Run;
    var n: NumberParts :| n.Proper() && n.Lexeme() == lexeme;
    PartsAreAscii(n);
    AsciiUtf8(Ready, lexeme);
  }

  lemma PartsAreAscii(n: NumberParts)
    requires n.Proper()
    ensures n.Lexeme() != [] && forall i | 0 <= i < |n.Lexeme()| :: n.Lexeme()[i] < 0x80
  {
    assert forall i | 0 <= i < |n.whole| :: n.whole[i] < 0x80;
    assert n.fraction != [] ==> forall i | 0 < i < |n.fraction| :: n.fraction[i] == n.fraction[1..][i - 1];
    assert n.exponent != [] ==> forall i | 0 < i < |n.exponent| :: n.exponent[i] == n.exponent[1..][i - 1];
    assert |n.exponent| > 1 ==> forall i | 1 < i < |n.exponent| :: n.exponent[i] == n.exponent[1..][1..][i - 2];
  }

  lemma {:induction false} ItemsUtf8(items: seq<Json>)
    requires CanonicalItems(items)
    ensures ValidUtf8(PrintItems(items)) && ValidUtf8(MoreItems(items))
    decreases items, 0
  {
    hide Utf8Run, Canonical, Print;
    AsciiUtf8(Ready, [93]);
    AsciiUtf8(Ready, [44]);
    if items != [] {
      PrintIsUtf8(items[0]);
      ItemsUtf8(items[1..]);
      Utf8Concat(Ready, Print(items[0]), MoreItems(items[1..]));
      Utf8Concat(Ready, [44], Print(items[0]));
      Utf8Concat(Ready, [44] + Print(items[0]), MoreItems(items[1..]));
    }
  }

  lemma {:induction false} MembersUtf8(members: seq<Member>)
    requires CanonicalMembers(members)
    ensures ValidUtf8(PrintMembers(members)) && ValidUtf8(MoreMembers(members))
    decreases members, 0
  {
    hide Utf8Run, Canonical, Print, Quoted;
    AsciiUtf8(Ready, [125]);
    AsciiUtf8(Ready, [44]);
    AsciiUtf8(Ready, [58]);
    if members != [] {
      var m, rest := members[0], members[1..];
      QuotedUtf8(m.key);
      assert m.value < m;
      PrintIsUtf8(m.value);
      MembersUtf8(rest);
      Utf8Concat(Ready, Quoted(m.key), [58]);
      Utf8Concat(Ready, Quoted(m.key) + [58], Print(m.value));
      Utf8Concat(Ready, PrintMember(m), MoreMembers(rest));
      Utf8Concat(Ready, [44], PrintMember(m));
      Utf8Concat(Ready, [44] + PrintMember(m), MoreMembers(rest));
    }
  }

  /** A value costs less than its text is long, so a budget as large as an input never runs out. */
  lemma {:induction false} CostWithinText(j: Json)
    requires Canonical(j)
    ensures Fields(j) + Height(j) < |Print(j)|
    decreases j, 1
  {
    hide IsNumber;
    match j {
      case Num(lexeme) => NumberStart(lexeme);
      case Array(items) => ItemsCostWithinText(items);
      case Object(members) => MembersCostWithinText(members);
      case _ =>
    }
  }

  lemma {:induction false} ItemsCostWithinText(items: seq<Json>)
    requires CanonicalItems(items)
    ensures FieldsOfItems(items) + HeightOfItems(items) < |PrintItems(items)| && |PrintItems(items)| <= |MoreItems(items)|
    decreases items, 0
  {
    hide Canonical, Print, Fields, Height;
    if items != [] {
      CostWithinText(items[0]);
      ItemsCostWithinText(items[1..]);
    }
  }

  lemma {:induction false} MembersCostWithinText(members: seq<Member>)
    requires CanonicalMembers(members)
    ensures FieldsOfMembers(members) + HeightOfMembers(members) < |PrintMembers(members)| && |PrintMembers(members)| <= |MoreMembers(members)|
    decreases members, 0
  {
    hide Canonical, Print, Fields, Height;
    if members != [] {
      assert members[0].value < members[0];
      CostWithinText(members[0].value);
      MembersCostWithinText(members[1..]);
    }
  }

  // ── Arrays of plain strings ────────────────────────────────────────────

  function Texts(ts: seq<bytes>): seq<Json> {
    if ts == [] then [] else [Text(ts[0])] + Texts(ts[1..])
  }

  predicate AllPlain(ts: seq<bytes>) {
    ts != [] ==> Plain(ts[0]) && AllPlain(ts[1..])
  }

  /** What is still to be written of an array, from item `i` on. */
  function ArrayTail(ts: seq<bytes>, i: nat): bytes
    requires i <= |ts|
  {
    if i == 0 then PrintItems(Texts(ts)) else MoreItems(Texts(ts[i..]))
  }

  lemma NextItem(ts: seq<bytes>, i: nat)
    requires i < |ts|
    ensures ArrayTail(ts, i) == (if i > 0 then [44] else []) + Quoted(ts[i]) + ArrayTail(ts, i + 1)
  {
    hide Quoted;
    var here, rest := Texts(ts[i..]), Texts(ts[i + 1..]);
    assert ts[i..][1..] == ts[i + 1..] && (i == 0 ==> ts == ts[i..]);
    assert here == [Text(ts[i])] + rest;
    assert here[0] == Text(ts[i]) && here[1..] == rest;
    if i == 0 {
      assert PrintItems(here) == Quoted(ts[i]) + MoreItems(rest);
      assert [] + Quoted(ts[i]) == Quoted(ts[i]);
    } else {
      assert MoreItems(here) == [44] + Quoted(ts[i]) + MoreItems(rest);
    }
  }

  lemma NoItemsLeft(ts: seq<bytes>)
    ensures ArrayTail(ts, |ts|) == [93]
  {
    var none := ts[|ts|..];
    assert none == [] && Texts(none) == [];
    assert MoreItems(Texts(none)) == [93] && PrintItems(Texts(none)) == [93];
  }

  lemma Appended(before: bytes, lead: bytes, item: bytes, rest: bytes)
    ensures before + lead + item + rest == before + (lead + item + rest)
  {
  }

  /** The array encoders: a bracket, the items with commas between them, a bracket. */
  method EncodeStrings(buf: Buffer, ts: seq<bytes>)
    modifies buf
    ensures buf.data == old(buf.data) + Print(Array(Texts(ts)))
  {
    hide Quoted, ArrayTail;
    ghost var goal := buf.data + Print(Array(Texts(ts)));
    ArrayBegins(ts);
    buf.Extend([91]);
    var i := 0;
    while i < |ts|
      invariant i <= |ts| && buf.data + ArrayTail(ts, i) == goal
    {
      NextItem(ts, i);
      ghost var lead := if i > 0 then [44] else [];
      Appended(buf.data, lead, Quoted(ts[i]), ArrayTail(ts, i + 1));
      if i > 0 {
        buf.Extend([44]);
      }
      WriteStr(buf, ts[i]);
      i := i + 1;
    }
    NoItemsLeft(ts);
    buf.Extend([93]);
  }

  lemma ArrayBegins(ts: seq<bytes>)
    ensures Print(Array(Texts(ts))) == [91] + ArrayTail(ts, 0)
  {
  }

  /** `tail_list` over fixed strings: at least one item up to the closing bracket. */
  function StringItemsAt(s: bytes, c: Cursor): (r: Read<(seq<bytes>, Cursor)>)
    ensures r.Got? ==> c.pos < r.value.1.pos <= |s|
    decreases |s| - c.pos
  {
    var first :- StringAt(s, c.pos);
    var after := Cursor(first.1, c.budget);
    if ByteAt(s, after.pos, 93) then
      var end :- Expect(s, after, [93]);
      Got(([first.0], end))
    else
      var next :- Expect(s, after, [44]);
      var more :- StringItemsAt(s, next);
      Got(([first.0] + more.0, more.1))
  }

  /** `string_array`. */
  function StringArrayAt(s: bytes, c: Cursor): (r: Read<(seq<bytes>, Cursor)>)
    ensures r.Got? ==> c.pos < r.value.1.pos <= |s|
  {
    var start :- Expect(s, c, [91]);
    if ByteAt(s, start.pos, 93) then
      var end :- Expect(s, start, [93]);
      Got(([], end))
    else StringItemsAt(s, start)
  }

  lemma StringIsText(s: bytes, c: Cursor, t: bytes, after: Cursor)
    ensures StringAt(s, c.pos) == Got((t, after.pos)) && after.budget == c.budget <==>
      Plain(t) && ValueAt(s, c) == Got((Text(t), after))
  {
    hide JsonTextAt, MembersAt, ItemsAt, NumberEnd;
    StringExact(s, c.pos, t, after.pos);
  }

  lemma {:induction false} StringItemsAreItems(s: bytes, c: Cursor)
    requires StringItemsAt(s, c).Got?
    ensures var (ts, end) := StringItemsAt(s, c).value;
            ts != [] && AllPlain(ts) && ItemAt(s, c) == Got((Texts(ts), end))
    decreases |s| - c.pos
  {
    hide StringAt, ValueAt, Expect;
    var first := StringAt(s, c.pos).value;
    var after := Cursor(first.1, c.budget);
    var (ts, end) := StringItemsAt(s, c).value;
    StringIsText(s, c, first.0, after);
    if ByteAt(s, after.pos, 93) {
      assert ts[1..] == [];
      assert AfterItem(s, after) == Got(([], end));
    } else {
      ExpectByte(s, after, 44);
      var next := Expect(s, after, [44]).value;
      StringItemsAreItems(s, next);
      assert ts[1..] == StringItemsAt(s, next).value.0;
      assert AfterItem(s, after) == ItemAt(s, next);
    }
  }

  lemma {:induction false} ItemsAreStringItems(s: bytes, c: Cursor, ts: seq<bytes>, end: Cursor)
    requires ts != [] && AllPlain(ts) && ItemAt(s, c) == Got((Texts(ts), end))
    ensures StringItemsAt(s, c) == Got((ts, end))
    decreases |ts|
  {
    hide StringAt, ValueAt, Expect;
    var rest := ts[1..];
    var (value, after) := ValueAt(s, c).value;
    var more := AfterItem(s, after).value.0;
    assert value == ([value] + more)[0] == Text(ts[0]);
    assert more == ([value] + more)[1..] == Texts(ts)[1..] == Texts(rest);
    StringIsText(s, c, ts[0], after);
    ExpectByte(s, after, 93);
    if ByteAt(s, after.pos, 44) {
      var next := Expect(s, after, [44]).value;
      ItemsAreSome(s, next);
      ItemsAreStringItems(s, next, rest, end);
      assert [ts[0]] + rest == ts;
    } else {
      assert rest == [];
      assert ts == [ts[0]];
    }
  }

  /** The array reader accepts exactly the arrays that consist of plain strings. */
  lemma StringArrayExact(s: bytes, c: Cursor, ts: seq<bytes>, end: Cursor)
    ensures StringArrayAt(s, c) == Got((ts, end)) <==> AllPlain(ts) && ValueAt(s, c) == Got((Array(Texts(ts)), end))
  {
    hide StringItemsAt, ItemAt, Expect, ScalarAt, MembersAt, AllPlain, Texts;
    TextsOfNone(ts);
    ExpectByte(s, c, 91);
    if ByteAt(s, c.pos, 91) && Expect(s, c, [91]).Got? {
      var start := Expect(s, c, [91]).value;
      if !ByteAt(s, start.pos, 93) {
        if StringItemsAt(s, start).Got? {
          StringItemsAreItems(s, start);
        }
        if AllPlain(ts) && ts != [] && ItemAt(s, start) == Got((Texts(ts), end)) {
          ItemsAreStringItems(s, start, ts, end);
        }
        ItemsAreSome(s, start);
      }
    } else if ScalarAt(s, c.pos).Got? {
      ScalarIsPrinted(s, c.pos);
    }
  }

  lemma ItemsAreSome(s: bytes, c: Cursor)
    ensures ItemAt(s, c).Got? ==> ItemAt(s, c).value.0 != []
  {
    hide ValueAt, AfterItem;
  }

  lemma TextsOfNone(ts: seq<bytes>)
    ensures Texts(ts) == [] <==> ts == []
    ensures AllPlain([])
  {
  }
}
