/** Canonical JSON values: the tree and its compact printer, and the strict reader under a budget
    of fields and depth. */
module JsonValues {
  import opened Prelude
  import opened JsonTexts

  // ── Trees and their compact form ───────────────────────────────────────

  datatype Json =
    | Text(text: bytes)
    | Num(lexeme: bytes)
    | True
    | False
    | Null
    | Array(items: seq<Json>)
    | Object(members: seq<Member>)

  datatype Member = Member(key: bytes, value: Json)

  function Print(j: Json): bytes {
    match j
    case Text(text) => Quoted(text)
    case Num(lexeme) => lexeme
    case True => TRUE
    case False => FALSE
    case Null => NULL
    case Array(items) => [91] + PrintItems(items)
    case Object(members) => [123] + PrintMembers(members)
  }

  /** Items up to and including the closing bracket. */
  function PrintItems(items: seq<Json>): bytes {
    if items == [] then [93] else Print(items[0]) + MoreItems(items[1..])
  }

  function MoreItems(items: seq<Json>): bytes {
    if items == [] then [93] else [44] + Print(items[0]) + MoreItems(items[1..])
  }

  function PrintMember(m: Member): bytes {
    Quoted(m.key) + [58] + Print(m.value)
  }

  /** Members up to and including the closing brace. */
  function PrintMembers(members: seq<Member>): bytes {
    if members == [] then [125] else PrintMember(members[0]) + MoreMembers(members[1..])
  }

  function MoreMembers(members: seq<Member>): bytes {
    if members == [] then [125] else [44] + PrintMember(members[0]) + MoreMembers(members[1..])
  }

  const TRUE: bytes := [116, 114, 117, 101]
  const FALSE: bytes := [102, 97, 108, 115, 101]
  const NULL: bytes := [110, 117, 108, 108]

  // ── Numbers (RFC 8259 section 6) ───────────────────────────────────────

  predicate IsDigit(b: byte) {
    48 <= b <= 57
  }

  predicate Digits(s: bytes) {
    s != [] && forall i | 0 <= i < |s| :: IsDigit(s[i])
  }

  predicate ProperMinus(s: bytes) {
    s == [] || s == [45]
  }

  predicate ProperWhole(s: bytes) {
    Digits(s) && (s[0] == 48 ==> |s| == 1)
  }

  predicate ProperFraction(s: bytes) {
    s == [] || (s[0] == 46 && Digits(s[1..]))
  }

  predicate ProperExponent(s: bytes) {
    s == [] || ((s[0] == 101 || s[0] == 69) && (Digits(s[1..]) || Signed(s[1..])))
  }

  predicate Signed(s: bytes) {
    s != [] && (s[0] == 43 || s[0] == 45) && Digits(s[1..])
  }

  datatype NumberParts = NumberParts(minus: bytes, whole: bytes, fraction: bytes, exponent: bytes) {
    predicate Proper() {
      ProperMinus(minus) && ProperWhole(whole) && ProperFraction(fraction) && ProperExponent(exponent)
    }

    function Lexeme(): bytes {
      minus + (whole + (fraction + exponent))
    }
  }

  ghost predicate IsNumber(lexeme: bytes) {
    exists n: NumberParts :: n.Proper() && n.Lexeme() == lexeme
  }

  predicate DigitAt(s: bytes, pos: nat) {
    pos < |s| && IsDigit(s[pos])
  }

  predicate ByteAt(s: bytes, pos: nat, b: byte) {
    pos < |s| && s[pos] == b
  }

  /** The end of the run of digits at `pos`. */
  function DigitsEnd(s: bytes, pos: nat): (end: nat)
    requires pos <= |s|
    ensures pos <= end <= |s| && !DigitAt(s, end)
    ensures forall i | pos <= i < end :: IsDigit(s[i])
    decreases |s| - pos
  {
    if DigitAt(s, pos) then DigitsEnd(s, pos + 1) else pos
  }

  function WholeEnd(s: bytes, pos: nat): (r: Read<nat>)
    ensures r.Got? ==> pos < r.value <= |s|
  {
    if !DigitAt(s, pos) then Bad(NonCanonical(pos))
    else if s[pos] != 48 then Got(DigitsEnd(s, pos + 1))
    else if DigitAt(s, pos + 1) then Bad(NonCanonical(pos + 1))
    else Got(pos + 1)
  }

  function FractionEnd(s: bytes, pos: nat): (r: Read<nat>)
    requires pos <= |s|
    ensures r.Got? ==> pos <= r.value <= |s|
  {
    if !ByteAt(s, pos, 46) then Got(pos)
    else if !DigitAt(s, pos + 1) then Bad(NonCanonical(pos + 1))
    else Got(DigitsEnd(s, pos + 1))
  }

  function ExponentEnd(s: bytes, pos: nat): (r: Read<nat>)
    requires pos <= |s|
    ensures r.Got? ==> pos <= r.value <= |s|
  {
    if !ByteAt(s, pos, 101) && !ByteAt(s, pos, 69) then Got(pos)
    else
      var digits := if ByteAt(s, pos + 1, 43) || ByteAt(s, pos + 1, 45) then pos + 2 else pos + 1;
      if !DigitAt(s, digits) then Bad(NonCanonical(digits)) else Got(DigitsEnd(s, digits))
  }

  /** `json_number`. */
  function NumberEnd(s: bytes, pos: nat): (r: Read<nat>)
    ensures r.Got? ==> pos < r.value <= |s|
  {
    var whole :- WholeEnd(s, if ByteAt(s, pos, 45) then pos + 1 else pos);
    var fraction :- FractionEnd(s, whole);
    ExponentEnd(s, fraction)
  }

  /** Nothing after `end` could belong to a number. */
  predicate NumberStops(s: bytes, end: nat) {
    end < |s| ==> !IsDigit(s[end]) && s[end] != 46 && s[end] != 101 && s[end] != 69
  }

  lemma WholeLexeme(s: bytes, pos: nat)
    requires WholeEnd(s, pos).Got?
    ensures ProperWhole(s[pos..WholeEnd(s, pos).value])
  {
  }

  lemma FractionLexeme(s: bytes, pos: nat)
    requires pos <= |s| && FractionEnd(s, pos).Got?
    ensures ProperFraction(s[pos..FractionEnd(s, pos).value])
  {
    var end := FractionEnd(s, pos).value;
    if end > pos {
      assert s[pos..end][1..] == s[pos + 1..end];
    }
  }

  lemma ExponentLexeme(s: bytes, pos: nat)
    requires pos <= |s| && ExponentEnd(s, pos).Got?
    ensures ProperExponent(s[pos..ExponentEnd(s, pos).value])
  {
    var end := ExponentEnd(s, pos).value;
    if end > pos {
      assert s[pos..end][1..] == s[pos + 1..end];
      if ByteAt(s, pos + 1, 43) || ByteAt(s, pos + 1, 45) {
        assert s[pos + 1..end][1..] == s[pos + 2..end];
      }
    }
  }

  /** What the number reader consumes is a number. */
  lemma NumberIsLexeme(s: bytes, pos: nat)
    requires NumberEnd(s, pos).Got?
    ensures IsNumber(s[pos..NumberEnd(s, pos).value])
  {
    hide WholeEnd, FractionEnd, ExponentEnd, ProperWhole, ProperFraction, ProperExponent, IsNumber;
    var start := if ByteAt(s, pos, 45) then pos + 1 else pos;
    var whole := WholeEnd(s, start).value;
    var fraction := FractionEnd(s, whole).value;
    var end := ExponentEnd(s, fraction).value;
    WholeLexeme(s, start);
    FractionLexeme(s, whole);
    ExponentLexeme(s, fraction);
    var n := NumberParts(s[pos..start], s[start..whole], s[whole..fraction], s[fraction..end]);
    Adjacent(s, whole, fraction, end);
    Adjacent(s, start, whole, end);
    Adjacent(s, pos, start, end);
    PartsAreNumber(n);
  }

  lemma Adjacent(s: bytes, from: nat, mid: nat, to: nat)
    requires from <= mid <= to <= |s|
    ensures s[from..mid] + s[mid..to] == s[from..to]
  {
  }

  lemma PartsAreNumber(n: NumberParts)
    requires n.Proper()
    ensures IsNumber(n.Lexeme())
  {
  }

  lemma {:induction false} DigitsEndOf(s: bytes, pos: nat, end: nat)
    requires pos <= end <= |s| && !DigitAt(s, end) && forall i | pos <= i < end :: IsDigit(s[i])
    ensures DigitsEnd(s, pos) == end
    decreases end - pos
  {
    if pos < end {
      DigitsEndOf(s, pos + 1, end);
    }
  }

  /** `part` stands in `s` at `pos`. */
  predicate At(s: bytes, pos: nat, part: bytes) {
    pos <= |s| && part <= s[pos..]
  }

  lemma AtIndex(s: bytes, pos: nat, part: bytes)
    requires At(s, pos, part)
    ensures pos + |part| <= |s| && forall i | pos <= i < pos + |part| :: s[i] == part[i - pos]
  {
    assert forall i | 0 <= i < |part| :: s[pos..][i] == part[i];
  }

  lemma WholeOf(s: bytes, pos: nat, part: bytes)
    requires At(s, pos, part) && ProperWhole(part) && !DigitAt(s, pos + |part|)
    ensures WholeEnd(s, pos) == Got(pos + |part|)
  {
    AtIndex(s, pos, part);
    DigitsEndOf(s, pos + 1, pos + |part|);
  }

  lemma FractionOf(s: bytes, pos: nat, part: bytes)
    requires At(s, pos, part) && ProperFraction(part) && !DigitAt(s, pos + |part|)
    requires part == [] ==> !ByteAt(s, pos, 46)
    ensures FractionEnd(s, pos) == Got(pos + |part|)
  {
    AtIndex(s, pos, part);
    if part != [] {
      assert s[pos + 1] == part[1..][0];
      assert forall i | pos + 1 <= i < pos + |part| :: s[i] == part[1..][i - pos - 1];
      DigitsEndOf(s, pos + 1, pos + |part|);
    }
  }

  lemma ExponentOf(s: bytes, pos: nat, part: bytes)
    requires At(s, pos, part) && ProperExponent(part) && !DigitAt(s, pos + |part|)
    requires part == [] ==> !ByteAt(s, pos, 101) && !ByteAt(s, pos, 69)
    ensures ExponentEnd(s, pos) == Got(pos + |part|)
  {
    AtIndex(s, pos, part);
    if part != [] {
      assert s[pos + 1] == part[1..][0];
      assert forall i | pos + 1 <= i < pos + |part| :: s[i] == part[1..][i - pos - 1];
      if Digits(part[1..]) {
        DigitsEndOf(s, pos + 1, pos + |part|);
      } else {
        assert forall i | pos + 2 <= i < pos + |part| :: s[i] == part[1..][1..][i - pos - 2];
        DigitsEndOf(s, pos + 2, pos + |part|);
      }
    }
  }

  lemma FirstAt(s: bytes, pos: nat, part: bytes)
    requires At(s, pos, part)
    ensures pos + |part| <= |s| && (part != [] ==> s[pos] == part[0])
  {
    if part != [] {
      assert s[pos..][0] == part[0];
    }
  }

  lemma ExponentStart(part: bytes)
    requires ProperExponent(part) && part != []
    ensures part[0] == 101 || part[0] == 69
  {
  }

  lemma FractionStart(part: bytes)
    requires ProperFraction(part) && part != []
    ensures part[0] == 46
  {
  }

  lemma WholeStart(part: bytes)
    requires ProperWhole(part)
    ensures part != [] && IsDigit(part[0])
  {
  }

  /** The number reader takes a whole number wherever one ends. */
  lemma LexemeIsNumber(s: bytes, pos: nat, lexeme: bytes)
    requires IsNumber(lexeme) && At(s, pos, lexeme) && NumberStops(s, pos + |lexeme|)
    ensures NumberEnd(s, pos) == Got(pos + |lexeme|)
  {
    var n: NumberParts :| n.Proper() && n.Lexeme() == lexeme;
    PartsAreRead(s, pos, n);
  }

  /** Fraction and exponent, and that no digit comes before them. */
  lemma TailIsRead(s: bytes, pos: nat, n: NumberParts)
    requires n.Proper() && At(s, pos, n.fraction + n.exponent) && NumberStops(s, pos + |n.fraction| + |n.exponent|)
    ensures !DigitAt(s, pos) && FractionEnd(s, pos) == Got(pos + |n.fraction|)
    ensures ExponentEnd(s, pos + |n.fraction|) == Got(pos + |n.fraction| + |n.exponent|)
  {
    hide WholeEnd, FractionEnd, ExponentEnd, ProperWhole, ProperFraction, ProperExponent;
    var exponent := pos + |n.fraction|;
    Split(s, pos, n.fraction, n.exponent);
    FirstAt(s, pos, n.fraction);
    FirstAt(s, exponent, n.exponent);
    if n.fraction != [] {
      FractionStart(n.fraction);
    }
    if n.exponent != [] {
      ExponentStart(n.exponent);
    }
    FractionOf(s, pos, n.fraction);
    ExponentOf(s, exponent, n.exponent);
  }

  lemma PartsAreRead(s: bytes, pos: nat, n: NumberParts)
    requires n.Proper() && At(s, pos, n.Lexeme()) && NumberStops(s, pos + |n.Lexeme()|)
    ensures NumberEnd(s, pos) == Got(pos + |n.Lexeme()|)
  {
    hide WholeEnd, FractionEnd, ExponentEnd, ProperWhole, ProperFraction, ProperExponent;
    var whole := pos + |n.minus|;
    Split(s, pos, n.minus, n.whole + (n.fraction + n.exponent));
    Split(s, whole, n.whole, n.fraction + n.exponent);
    FirstAt(s, pos, n.minus);
    FirstAt(s, whole, n.whole);
    WholeStart(n.whole);
    TailIsRead(s, whole + |n.whole|, n);
    WholeOf(s, whole, n.whole);
  }
}
