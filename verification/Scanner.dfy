/** The byte cursor over one canonical JSON body. */
module Scanners {
  import opened Prelude
  import opened JsonTexts
  import opened JsonValues
  import opened JsonReaders

  // ── Residual readers ───────────────────────────────────────────────────

  /** A read without its tree. */
  function Skip<T>(r: Read<(T, Cursor)>): Read<Cursor> {
    if r.Bad? then Bad(r.error) else Got(r.value.1)
  }

  /** Where the text from `pos` ends. */
  function TextEnd(s: bytes, pos: nat): (r: Read<nat>)
    ensures r.Got? ==> pos <= r.value < |s|
  {
    var text :- TextAt(s, pos);
    Got(text.1)
  }

  lemma UnfoldTextEnd(s: bytes, pos: nat)
    ensures TextEnd(s, pos) ==
      if pos >= |s| then Bad(NonCanonical(pos))
      else if s[pos] == QUOTE then Got(pos)
      else if UnitAt(s, pos).Bad? then Bad(UnitAt(s, pos).error)
      else TextEnd(s, UnitAt(s, pos).value.1)
  {
    hide UnitAt;
  }

  // ── Escapes in decoded text ────────────────────────────────────────────

  function Position(s: bytes, b: byte): (r: Option<nat>)
    ensures r.Some? ==> r.value < |s| && s[r.value] == b && forall i | 0 <= i < r.value :: s[i] != b
    ensures r.None? ==> forall i | 0 <= i < |s| :: s[i] != b
  {
    if s == [] then None
    else if s[0] == b then Some(0)
    else
      match Position(s[1..], b)
      case None => None
      case Some(at) =>
        assert forall i | 0 < i < |s| :: s[i] == s[1..][i - 1];
        Some(at + 1)
  }

  lemma EscapeLead(b: byte)
    ensures Spelling(b)[0] == BACKSLASH <==> |Spelling(b)| >= 2
    ensures |Spelling(b)| == 1 ==> Spelling(b) == [b]
  {
  }

  /** The spelling of a text before its first backslash is the text itself. */
  lemma {:induction false} EscapeUpTo(t: bytes, at: nat)
    requires at <= |Escape(t)| && forall i | 0 <= i < at :: Escape(t)[i] != BACKSLASH
    ensures at <= |t| && t[..at] == Escape(t)[..at] && Escape(t)[at..] == Escape(t[at..])
    decreases at
  {
    hide Spelling;
    if at > 0 {
      EscapeLead(t[0]);
      assert Escape(t)[0] == Spelling(t[0])[0];
      assert Escape(t) == [t[0]] + Escape(t[1..]);
      assert forall i | 0 <= i < at - 1 :: Escape(t[1..])[i] == Escape(t)[i + 1];
      EscapeUpTo(t[1..], at - 1);
      assert t[..at] == [t[0]] + t[1..][..at - 1];
      assert t[1..][at - 1..] == t[at..];
    }
  }

  // ── The walk over a value, with its open containers ────────────────────

  /** Where the cursor sits inside the value being walked. */
  datatype ScanState = FirstMember | NextMember | StartValue | FirstItem | AfterValue

  /** The rest of an open container after one of its values. */
  function RestOf(s: bytes, c: Cursor, isObject: bool, keys: set<bytes>): (r: Read<Cursor>)
    ensures r.Got? ==> c.pos < r.value.pos <= |s|
  {
    if isObject then Skip(AfterMember(s, c, keys)) else Skip(AfterItem(s, c))
  }

  /** The open containers, outermost first: objects are `true`. Each has the keys it has seen. */
  datatype Stack = Stack(containers: seq<bool>, keys: seq<set<bytes>>) {
    predicate Paired() {
      |containers| == |keys|
    }

    predicate Inside(isObject: bool) {
      Paired() && containers != [] && containers[|containers| - 1] == isObject
    }

    function TopKeys(): set<bytes>
      requires Paired() && containers != []
    {
      keys[|keys| - 1]
    }

    function Push(isObject: bool): Stack {
      Stack(containers + [isObject], keys + [{}])
    }

    function Pop(): Stack
      requires Paired() && containers != []
    {
      Stack(containers[..|containers| - 1], keys[..|keys| - 1])
    }

    function Insert(key: bytes): Stack
      requires Paired() && containers != []
    {
      Stack(containers, keys[|keys| - 1 := TopKeys() + {key}])
    }
  }

  /** The end of the outermost value, once a value inside the open containers is complete. */
  function Unwind(s: bytes, c: Cursor, open: Stack): (r: Read<Cursor>)
    requires open.Paired()
    decreases |open.containers|
  {
    if open.containers == [] then Got(c) else
      var end :- RestOf(s, c, open.Inside(true), open.TopKeys());
      Unwind(s, end, open.Pop())
  }

  /** What is left to do for a container that closes with `r`. */
  function Then(s: bytes, r: Read<Cursor>, open: Stack): Read<Cursor>
    requires open.Paired()
  {
    if r.Bad? then r else Unwind(s, r.value, open)
  }

  predicate Fitting(state: ScanState, open: Stack) {
    && open.Paired()
    && (state == FirstMember ==> open.Inside(true) && open.TopKeys() == {})
    && (state == NextMember ==> open.Inside(true))
    && (state == FirstItem ==> open.Inside(false))
  }

  /** What the walk from any of its states amounts to. */
  function WalkFrom(s: bytes, c: Cursor, state: ScanState, open: Stack): Read<Cursor>
    requires Fitting(state, open)
  {
    match state
    case StartValue => Then(s, Skip(ValueAt(s, c)), open)
    case FirstMember => Then(s, Skip(MembersAt(s, c)), open.Pop())
    case NextMember => Then(s, Skip(MemberAt(s, c, open.TopKeys())), open.Pop())
    case FirstItem => Then(s, Skip(ItemsAt(s, c)), open.Pop())
    case AfterValue => Unwind(s, c, open)
  }

  lemma PushPop(open: Stack, isObject: bool)
    requires open.Paired()
    ensures open.Push(isObject).Inside(isObject) && open.Push(isObject).TopKeys() == {}
    ensures open.Push(isObject).Pop() == open
  {
  }

  lemma InsertPop(open: Stack, key: bytes)
    requires open.Paired() && open.containers != []
    ensures open.Insert(key).Paired() && open.Insert(key).containers == open.containers
    ensures open.Insert(key).TopKeys() == open.TopKeys() + {key} && open.Insert(key).Pop() == open.Pop()
  {
    assert open.Insert(key).keys[..|open.keys| - 1] == open.keys[..|open.keys| - 1];
  }

  /** An opening bracket pushes its container. */
  lemma OpenStep(s: bytes, c: Cursor, isObject: bool, open: Stack)
    requires open.Paired() && ByteAt(s, c.pos, if isObject then 123 else 91)
    ensures var start := Expect(s, c, [if isObject then 123 else 91]);
            var inner := if isObject then FirstMember else FirstItem;
            && Fitting(inner, open.Push(isObject))
            && WalkFrom(s, c, StartValue, open) ==
                 if start.Bad? then Bad(start.error) else WalkFrom(s, start.value, inner, open.Push(isObject))
  {
    hide Expect, MembersAt, ItemsAt, Unwind;
    PushPop(open, isObject);
  }

  lemma ScalarStep(s: bytes, c: Cursor, open: Stack)
    requires open.Paired() && !ByteAt(s, c.pos, 123) && !ByteAt(s, c.pos, 91)
    ensures WalkFrom(s, c, StartValue, open) ==
      if ScalarAt(s, c.pos).Bad? then Bad(ScalarAt(s, c.pos).error)
      else WalkFrom(s, Cursor(ScalarAt(s, c.pos).value.1, c.budget), AfterValue, open)
  {
    hide ScalarAt, Unwind;
  }

  /** A key and its colon lead to its value. */
  lemma KeyStep(s: bytes, c: Cursor, open: Stack)
    requires open.Inside(true)
    ensures var key := KeyAt(s, c, open.TopKeys());
            WalkFrom(s, c, NextMember, open) ==
              if key.Bad? then Bad(key.error)
              else WalkFrom(s, key.value.1, StartValue, open.Insert(Escape(key.value.0)))
  {
    hide KeyAt, ValueAt, AfterMember, Escape;
    var key := KeyAt(s, c, open.TopKeys());
    if key.Got? {
      InsertPop(open, Escape(key.value.0));
    }
  }

  lemma FirstKeyStep(s: bytes, c: Cursor, open: Stack)
    requires Fitting(FirstMember, open) && !ByteAt(s, c.pos, 125)
    ensures WalkFrom(s, c, FirstMember, open) == WalkFrom(s, c, NextMember, open)
  {
    hide MemberAt, Unwind;
  }

  /** Reading the items that are left begins with reading a value inside the array. */
  lemma ItemStep(s: bytes, c: Cursor, open: Stack)
    requires open.Inside(false)
    ensures Then(s, Skip(ItemAt(s, c)), open.Pop()) == WalkFrom(s, c, StartValue, open)
  {
    hide ValueAt, AfterItem;
    var value := ValueAt(s, c);
    if value.Got? {
      assert Unwind(s, value.value.1, open) == Then(s, Skip(AfterItem(s, value.value.1)), open.Pop());
    }
  }

  /** The first item of an array that is not empty is a value. */
  lemma FirstItemStep(s: bytes, c: Cursor, open: Stack)
    requires open.Inside(false) && !ByteAt(s, c.pos, 93)
    ensures WalkFrom(s, c, FirstItem, open) == WalkFrom(s, c, StartValue, open)
  {
    hide ItemAt, ValueAt, Unwind;
    ItemStep(s, c, open);
  }

  /** A closing bracket pops its container, wherever it is allowed. */
  lemma CloseStep(s: bytes, c: Cursor, state: ScanState, open: Stack)
    requires Fitting(state, open) && open.containers != [] && state != StartValue && state != NextMember
    requires ByteAt(s, c.pos, if open.Inside(true) then 125 else 93)
    ensures var end := Expect(s, c, [if open.Inside(true) then 125 else 93]);
            WalkFrom(s, c, state, open) ==
              if end.Bad? then Bad(end.error) else WalkFrom(s, end.value, AfterValue, open.Pop())
  {
    hide Expect, MemberAt, ItemAt;
  }

  lemma CommaStep(s: bytes, c: Cursor, open: Stack)
    requires open.Paired() && open.containers != [] && ByteAt(s, c.pos, 44)
    ensures var next := Expect(s, c, [44]);
            var state := if open.Inside(true) then NextMember else StartValue;
            WalkFrom(s, c, AfterValue, open) ==
              if next.Bad? then Bad(next.error) else WalkFrom(s, next.value, state, open)
  {
    hide Expect, MemberAt, ItemAt, ValueAt;
    var next := Expect(s, c, [44]);
    if next.Got? && open.Inside(false) {
      ItemStep(s, next.value, open);
    }
  }

  lemma StrayStep(s: bytes, c: Cursor, open: Stack)
    requires open.Paired() && open.containers != [] && !ByteAt(s, c.pos, 44)
    requires !ByteAt(s, c.pos, if open.Inside(true) then 125 else 93)
    ensures WalkFrom(s, c, AfterValue, open) == Bad(NonCanonical(c.pos))
  {
  }

  /** Literals without brackets or quotes cost nothing. */
  lemma {:induction false} ChargeWord(lit: bytes, i: nat, pos: nat, b: Budget)
    requires i <= |lit| && forall k | 0 <= k < |lit| :: !Opens(lit[k]) && !Closes(lit[k]) && lit[k] != QUOTE
    ensures Charge(lit, i, pos, b) == Got(b)
    decreases |lit| - i
  {
    if i < |lit| {
      ChargeWord(lit, i + 1, pos, b);
    }
  }

  // ── The cursor ─────────────────────────────────────────────────────────

  class Scanner {
    const input: bytes
    var pos: nat
    var budget: Budget

    ghost predicate Valid()
      reads this
    {
      pos <= |input| <= ISIZE_MAX && budget.Within()
    }

    function Here(): Cursor
      reads this
    {
      Cursor(pos, budget)
    }

    constructor (input: bytes, budget: Budget)
      requires |input| <= ISIZE_MAX && budget.Within()
      ensures Valid() && this.input == input && Here() == Cursor(0, budget)
    {
      this.input, this.pos, this.budget := input, 0, budget;
    }

    /** Charge a literal token by token. */
    method ChargeLiteral(lit: bytes) returns (r: Read<()>)
      requires Valid()
      modifies this`budget
      ensures Valid()
      ensures match Charge(lit, 0, pos, old(budget))
        case Got(b) => r == Got(()) && budget == b
        case Bad(e) => r == Bad(e)
    {
      var index := 0;
      while index < |lit|
        invariant index <= |lit| && Valid()
        invariant Charge(lit, 0, pos, old(budget)) == Charge(lit, index, pos, budget)
      {
        if Opens(lit[index]) {
          if budget.depth >= budget.maxDepth {
            return Bad(DepthLimit(pos + index, budget.maxDepth));
          }
          budget := budget.(depth := budget.depth + 1);
        } else if Closes(lit[index]) {
          if budget.depth == 0 {
            return Bad(NonCanonical(pos + index));
          }
          budget := budget.(depth := budget.depth - 1);
        } else if EndsKey(lit, index) {
          if budget.fields >= budget.maxFields {
            return Bad(FieldLimit(pos + index, budget.maxFields));
          }
          budget := budget.(fields := budget.fields + 1);
        }
        index := index + 1;
      }
      r := Got(());
    }

    method TakeLit(lit: bytes) returns (r: Read<bool>)
      requires Valid()
      modifies this
      ensures Valid()
      ensures !At(input, old(pos), lit) ==> r == Got(false) && Here() == old(Here())
      ensures At(input, old(pos), lit) ==>
        match Expect(input, old(Here()), lit)
        case Got(c) => r == Got(true) && Here() == c
        case Bad(e) => r == Bad(e)
    {
      hide Charge;
      if !(pos + |lit| <= |input| && input[pos..pos + |lit|] == lit) {
        return Got(false);
      }
      var charged := ChargeLiteral(lit);
      if charged.Bad? {
        return Bad(charged.error);
      }
      pos := pos + |lit|;
      r := Got(true);
    }

    method Take(lit: bytes) returns (r: Read<()>)
      requires Valid()
      modifies this
      ensures Valid()
      ensures match Expect(input, old(Here()), lit)
        case Got(c) => r == Got(()) && Here() == c
        case Bad(e) => r == Bad(e)
    {
      hide Charge;
      var taken := TakeLit(lit);
      if taken.Bad? {
        return Bad(taken.error);
      }
      if !taken.value {
        return Bad(NonCanonical(pos));
      }
      r := Got(());
    }

    method Finish() returns (r: Read<()>)
      requires Valid()
      ensures r == if pos == |input| then Got(()) else Bad(NonCanonical(pos))
    {
      if pos == |input| {
        return Got(());
      }
      r := Bad(NonCanonical(pos));
    }

    // ── Strings ──────────────────────────────────────────────────────────

    method HexDigit() returns (r: Read<nat>)
      requires Valid()
      modifies this`pos
      ensures Valid()
      ensures if old(pos) < |input| && LowerHex(input[old(pos)]).Some?
        then r == Got(LowerHex(input[old(pos)]).value) && pos == old(pos) + 1
        else r == Bad(NonCanonical(old(pos)))
    {
      if pos >= |input| || LowerHex(input[pos]).None? {
        return Bad(NonCanonical(pos));
      }
      r := Got(LowerHex(input[pos]).value);
      pos := pos + 1;
    }

    /** What may follow a backslash. */
    method EscapeSequence() returns (r: Read<()>)
      requires Valid()
      modifies this
      ensures Valid() && (r.Got? ==> budget == old(budget))
      ensures match EscapeAt(input, old(pos))
        case Got((_, end)) => r == Got(()) && pos == end
        case Bad(e) => r == Bad(e)
    {
      if pos >= |input| {
        return Bad(NonCanonical(pos));
      }
      if input[pos] in {34, 92, 98, 102, 110, 114, 116} {
        pos := pos + 1;
        return Got(());
      }
      if input[pos] == 117 {
        pos := pos + 1;
        r := ControlEscape();
        return;
      }
      r := Bad(NonCanonical(pos));
    }

    /** The rest of a `\u` escape. */
    method ControlEscape() returns (r: Read<()>)
      requires Valid()
      modifies this
      ensures Valid() && (r.Got? ==> budget == old(budget))
      ensures match ControlAt(input, old(pos))
        case Got((_, end)) => r == Got(()) && pos == end
        case Bad(e) => r == Bad(e)
    {
      ZerosCharge(input, Here());
      var start := pos;
      var zeros := Take([48, 48]);
      if zeros.Bad? {
        return Bad(zeros.error);
      }
      var high := HexDigit();
      if high.Bad? {
        return Bad(high.error);
      }
      var low := HexDigit();
      if low.Bad? {
        return Bad(low.error);
      }
      var control := high.value * 16 + low.value;
      if control >= 0x20 || control in {0x08, 0x09, 0x0A, 0x0C, 0x0D} {
        return Bad(NonCanonical(SaturatingSub(pos, 4)));
      }
      r := Got(());
    }

    /** Step over the closing quote found at `pos`, once the text before it is UTF-8. */
    method CloseString(start: nat) returns (r: Read<bytes>)
      requires Valid() && start <= pos < |input| && input[pos] == QUOTE
      modifies this
      ensures Valid() && (r.Got? ==> budget == old(budget) && pos == old(pos) + 1)
      ensures r == Utf8Checked(input, start, old(pos))
    {
      hide Utf8Run, ValidUpTo, Expect;
      var span := input[start..pos];
      if !ValidUtf8(span) {
        return Bad(NonCanonical(start + ValidUpTo(Ready, span, 0, 0)));
      }
      ExpectByte(input, Here(), QUOTE);
      var closed := Take([QUOTE]);
      if closed.Bad? {
        assert false;
      }
      r := Got(span);
    }

    /** A fixed field: no escapes, no control characters, UTF-8. */
    method String() returns (r: Read<bytes>)
      requires Valid()
      modifies this
      ensures Valid()
      ensures match StringAt(input, old(pos))
        case Got((text, end)) => r == Got(text) && Here() == Cursor(end, old(budget))
        case Bad(e) => r == Bad(e)
    {
      hide Utf8Checked, Expect;
      ExpectByte(input, Here(), QUOTE);
      var quote := Take([QUOTE]);
      if quote.Bad? {
        return Bad(quote.error);
      }
      var start := pos;
      while pos < |input| && input[pos] != QUOTE
        invariant Valid() && start <= pos && budget == old(budget)
        invariant PlainEnd(input, start) == PlainEnd(input, pos)
        decreases |input| - pos
      {
        if input[pos] == BACKSLASH || input[pos] < 0x20 {
          return Bad(NonCanonical(pos));
        }
        pos := pos + 1;
      }
      if pos >= |input| {
        return Bad(NonCanonical(pos));
      }
      r := CloseString(start);
    }

    /** A generic string in the writer's form: its bytes between the quotes. */
    method JsonString() returns (r: Read<bytes>)
      requires Valid()
      modifies this
      ensures Valid()
      ensures match JsonTextAt(input, old(pos))
        case Got((_, end)) => r == Got(Spelled(input, old(pos), end)) && Here() == Cursor(end, old(budget))
        case Bad(e) => r == Bad(e)
    {
      hide Utf8Checked, Expect, TextAt, TextEnd, EscapeAt;
      ExpectByte(input, Here(), QUOTE);
      var quote := Take([QUOTE]);
      if quote.Bad? {
        return Bad(quote.error);
      }
      var start := pos;
      while pos < |input| && input[pos] != QUOTE
        invariant Valid() && start <= pos && budget == old(budget)
        invariant TextEnd(input, start) == TextEnd(input, pos)
        decreases |input| - pos
      {
        UnfoldTextEnd(input, pos);
        if input[pos] == BACKSLASH {
          pos := pos + 1;
          var escape := EscapeSequence();
          if escape.Bad? {
            TextEndIsText(input, start);
            return Bad(escape.error);
          }
        } else if input[pos] < 0x20 {
          TextEndIsText(input, start);
          return Bad(NonCanonical(pos));
        } else {
          pos := pos + 1;
        }
      }
      UnfoldTextEnd(input, pos);
      TextEndIsText(input, start);
      if pos >= |input| {
        return Bad(NonCanonical(pos));
      }
      r := CloseString(start);
    }

    /** A human text: the spelling is checked first and decoded after that. */
    method JsonText() returns (r: Read<bytes>)
      requires Valid()
      modifies this
      ensures Valid()
      ensures match JsonTextAt(input, old(pos))
        case Got((text, end)) => r == Got(text) && Here() == Cursor(end, old(budget))
        case Bad(e) => r == Bad(e)
    {
      hide JsonTextAt, Escape;
      ghost var read := JsonTextAt(input, pos);
      ghost var text := if read.Got? then read.value.0 else [];
      ghost var start := pos;
      var encoded := JsonString();
      if encoded.Bad? {
        return Bad(encoded.error);
      }
      JsonTextExact(input, start, text, pos);
      SpelledIsEscape(input, start, text, pos);
      var decoded := Decode(encoded.value, text);
      r := Got(decoded);
    }

    // ── Numbers ──────────────────────────────────────────────────────────

    method SkipDigits()
      requires Valid()
      modifies this`pos
      ensures Valid() && pos == DigitsEnd(input, old(pos))
    {
      while pos < |input| && IsDigit(input[pos])
        invariant Valid() && old(pos) <= pos && DigitsEnd(input, old(pos)) == DigitsEnd(input, pos)
        decreases |input| - pos
      {
        pos := pos + 1;
      }
    }

    method TakeByte(b: byte) returns (taken: bool)
      requires Valid() && !Opens(b) && !Closes(b)
      modifies this
      ensures Valid() && budget == old(budget)
      ensures taken == ByteAt(input, old(pos), b)
      ensures pos == if taken then old(pos) + 1 else old(pos)
    {
      hide Expect;
      ExpectByte(input, Here(), b);
      ByteIsAt(input, pos, b);
      var lit := TakeLit([b]);
      if lit.Bad? {
        assert false;
      }
      taken := lit.value;
    }

    method JsonNumber() returns (r: Read<bytes>)
      requires Valid()
      modifies this
      ensures Valid() && (r.Got? ==> budget == old(budget))
      ensures match NumberEnd(input, old(pos))
        case Got(end) => r == Got(input[old(pos)..end]) && pos == end
        case Bad(e) => r == Bad(e)
    {
      hide WholeEnd, FractionEnd, ExponentEnd;
      var start := pos;
      var minus := TakeByte(45);
      var whole := Whole();
      if whole.Bad? {
        return Bad(whole.error);
      }
      var fraction := Fraction();
      if fraction.Bad? {
        return Bad(fraction.error);
      }
      r := Exponent(start);
    }

    /** The digits before the point: a zero, or no leading zero. */
    method Whole() returns (r: Read<()>)
      requires Valid()
      modifies this
      ensures Valid() && (r.Got? ==> budget == old(budget))
      ensures match WholeEnd(input, old(pos))
        case Got(end) => r == Got(()) && pos == end
        case Bad(e) => r == Bad(e)
    {
      hide DigitsEnd;
      if pos >= |input| || !IsDigit(input[pos]) {
        return Bad(NonCanonical(pos));
      }
      if input[pos] == 48 {
        pos := pos + 1;
        if pos < |input| && IsDigit(input[pos]) {
          return Bad(NonCanonical(pos));
        }
      } else {
        pos := pos + 1;
        SkipDigits();
      }
      r := Got(());
    }

    /** The optional fraction. */
    method Fraction() returns (r: Read<()>)
      requires Valid()
      modifies this
      ensures Valid() && (r.Got? ==> budget == old(budget))
      ensures match FractionEnd(input, old(pos))
        case Got(end) => r == Got(()) && pos == end
        case Bad(e) => r == Bad(e)
    {
      hide DigitsEnd;
      var point := TakeByte(46);
      if point {
        if pos >= |input| || !IsDigit(input[pos]) {
          return Bad(NonCanonical(pos));
        }
        SkipDigits();
      }
      r := Got(());
    }

    /** The optional exponent of the number that began at `start`. */
    method Exponent(start: nat) returns (r: Read<bytes>)
      requires Valid() && start <= pos
      modifies this
      ensures Valid() && (r.Got? ==> budget == old(budget))
      ensures match ExponentEnd(input, old(pos))
        case Got(end) => r == Got(input[start..end]) && pos == end
        case Bad(e) => r == Bad(e)
    {
      hide DigitsEnd;
      var marked := TakeByte(101);
      if !marked {
        marked := TakeByte(69);
      }
      if marked {
        var plus := TakeByte(43);
        if !plus {
          var minus := TakeByte(45);
        }
        if pos >= |input| || !IsDigit(input[pos]) {
          return Bad(NonCanonical(pos));
        }
        SkipDigits();
      }
      r := Got(input[start..pos]);
    }

    // ── Values ───────────────────────────────────────────────────────────

    method TakeWord(word: bytes) returns (taken: bool)
      requires Valid() && forall k | 0 <= k < |word| :: !Opens(word[k]) && !Closes(word[k]) && word[k] != QUOTE
      modifies this
      ensures Valid() && taken == At(input, old(pos), word)
      ensures Here() == if taken then Cursor(old(pos) + |word|, old(budget)) else old(Here())
    {
      ChargeWord(word, 0, pos, budget);
      var lit := TakeLit(word);
      if lit.Bad? {
        assert false;
      }
      taken := lit.value;
    }

    /** The scalar arms of `canonical_value_start`. */
    method Scalar() returns (r: Read<()>)
      requires Valid()
      modifies this
      ensures Valid()
      ensures match ScalarAt(input, old(pos))
        case Got((_, end)) => r == Got(()) && Here() == Cursor(end, old(budget))
        case Bad(e) => r == Bad(e)
    {
      hide JsonTextAt, NumberEnd;
      if pos < |input| && input[pos] == QUOTE {
        var text := JsonString();
        return if text.Bad? then Bad(text.error) else Got(());
      }
      if pos < |input| && StartsNumber(input[pos]) {
        var number := JsonNumber();
        return if number.Bad? then Bad(number.error) else Got(());
      }
      var word := TakeWord(TRUE);
      if !word {
        word := TakeWord(FALSE);
      }
      if !word {
        word := TakeWord(NULL);
      }
      return if word then Got(()) else Bad(NonCanonical(pos));
    }

    /** `json_key` and the colon. */
    method Key(keys: set<bytes>) returns (r: Read<bytes>)
      requires Valid()
      modifies this
      ensures Valid()
      ensures match KeyAt(input, old(Here()), keys)
        case Got((key, colon)) => r == Got(Escape(key)) && Here() == colon
        case Bad(e) => r == Bad(e)
    {
      hide JsonTextAt, Expect, Escape;
      if pos >= |input| || input[pos] != QUOTE {
        return Bad(NonCanonical(pos));
      }
      var start := pos;
      if budget.fields >= budget.maxFields {
        return Bad(FieldLimit(pos, budget.maxFields));
      }
      budget := budget.(fields := budget.fields + 1);
      ghost var read := JsonTextAt(input, start);
      var key := JsonString();
      if key.Bad? {
        return Bad(key.error);
      }
      JsonTextExact(input, start, read.value.0, pos);
      SpelledIsEscape(input, start, read.value.0, pos);
      if key.value in keys {
        return Bad(NonCanonical(start + 1));
      }
      var colon := Take([58]);
      return if colon.Bad? then Bad(colon.error) else key;
    }

    /** `canonical_value`: one complete value, without recursion. */
    method CanonicalValue() returns (r: Read<()>)
      requires Valid()
      modifies this
      ensures Valid()
      ensures match ValueAt(input, old(Here()))
        case Got((_, end)) => r == Got(()) && Here() == end
        case Bad(e) => r == Bad(e)
    {
      hide Expect, KeyAt, ScalarAt, ValueAt, WalkFrom, Escape;
      ghost var goal := WalkFrom(input, Here(), StartValue, Stack([], []));
      WalkOfValue(input, Here());
      var open, state := Stack([], []), StartValue;
      while true
        invariant Valid() && Fitting(state, open) && WalkFrom(input, Here(), state, open) == goal
        decreases |input| - pos, if state == FirstItem then 1 else 0
      {
        match state {
          case StartValue =>
            if ByteAt(input, pos, 123) || ByteAt(input, pos, 91) {
              var isObject := input[pos] == 123;
              OpenStep(input, Here(), isObject, open);
              var opened' := Take([input[pos]]);
              if opened'.Bad? {
                return Bad(opened'.error);
              }
              open, state := open.Push(isObject), if isObject then FirstMember else FirstItem;
            } else {
              ScalarStep(input, Here(), open);
              var scalar := Scalar();
              if scalar.Bad? {
                return scalar;
              }
              state := AfterValue;
            }
          case FirstMember =>
            if ByteAt(input, pos, 125) {
              CloseStep(input, Here(), state, open);
              var closed := Take([125]);
              if closed.Bad? {
                return closed;
              }
              open, state := open.Pop(), AfterValue;
            } else {
              FirstKeyStep(input, Here(), open);
              KeyStep(input, Here(), open);
              var key := Key(open.TopKeys());
              if key.Bad? {
                return Bad(key.error);
              }
              open, state := open.Insert(key.value), StartValue;
            }
          case NextMember =>
            KeyStep(input, Here(), open);
            var key := Key(open.TopKeys());
            if key.Bad? {
              return Bad(key.error);
            }
            open, state := open.Insert(key.value), StartValue;
          case FirstItem =>
            if ByteAt(input, pos, 93) {
              CloseStep(input, Here(), state, open);
              var closed := Take([93]);
              if closed.Bad? {
                return closed;
              }
              open, state := open.Pop(), AfterValue;
            } else {
              FirstItemStep(input, Here(), open);
              state := StartValue;
            }
          case AfterValue =>
            if open.containers == [] {
              return Got(());
            }
            if ByteAt(input, pos, 44) {
              CommaStep(input, Here(), open);
              var comma := Take([44]);
              if comma.Bad? {
                return comma;
              }
              state := if open.Inside(true) then NextMember else StartValue;
            } else if ByteAt(input, pos, if open.Inside(true) then 125 else 93) {
              CloseStep(input, Here(), state, open);
              var closed := Take([input[pos]]);
              if closed.Bad? {
                return closed;
              }
              open := open.Pop();
            } else {
              StrayStep(input, Here(), open);
              return Bad(NonCanonical(pos));
            }
        }
      }
    }

    /** `value_span`: any value, by the bytes it spans. */
    method ValueSpan() returns (r: Read<bytes>)
      requires Valid()
      modifies this
      ensures Valid()
      ensures match ValueAt(input, old(Here()))
        case Got((_, end)) => r == Got(input[old(pos)..end.pos]) && Here() == end
        case Bad(e) => r == Bad(e)
    {
      hide ValueAt;
      var start := pos;
      var walked := CanonicalValue();
      if walked.Bad? {
        return Bad(walked.error);
      }
      r := Got(input[start..pos]);
    }

    /** `object_value_span`: as `value_span`, but only for an object. */
    method ObjectValueSpan() returns (r: Read<bytes>)
      requires Valid()
      modifies this
      ensures Valid()
      ensures match ObjectAt(input, old(Here()))
        case Got((_, end)) => r == Got(input[old(pos)..end.pos]) && Here() == end
        case Bad(e) => r == Bad(e)
    {
      hide ValueAt;
      if pos >= |input| || input[pos] != 123 {
        return Bad(NonCanonical(pos));
      }
      r := ValueSpan();
    }

    // ── Arrays of plain strings ──────────────────────────────────────────

    method StringArray() returns (r: Read<seq<bytes>>)
      requires Valid()
      modifies this
      ensures Valid()
      ensures match StringArrayAt(input, old(Here()))
        case Got((ts, end)) => r == Got(ts) && Here() == end
        case Bad(e) => r == Bad(e)
    {
      hide Expect, StringItemsAt;
      var opened' := Take([91]);
      if opened'.Bad? {
        return Bad(opened'.error);
      }
      ByteIsAt(input, pos, 93);
      var closed := TakeLit([93]);
      if closed.Bad? {
        return Bad(closed.error);
      }
      if closed.value {
        return Got([]);
      }
      r := TailList();
    }

    /** The items of an array that is not empty. */
    method TailList() returns (r: Read<seq<bytes>>)
      requires Valid()
      modifies this
      ensures Valid()
      ensures match StringItemsAt(input, old(Here()))
        case Got((ts, end)) => r == Got(ts) && Here() == end
        case Bad(e) => r == Bad(e)
    {
      hide Expect, StringAt, StringItemsAt;
      ghost var start := Here();
      var items: seq<bytes> := [];
      PrefixedByNothing(StringItemsAt(input, start));
      while true
        invariant Valid() && StringItemsAt(input, start) == Prefixed(items, StringItemsAt(input, Here()))
        decreases |input| - pos
      {
        UnfoldStringItems(input, Here());
        var item := String();
        if item.Bad? {
          return Bad(item.error);
        }
        items := items + [item.value];
        ByteIsAt(input, pos, 93);
        var closed := TakeLit([93]);
        if closed.Bad? {
          return Bad(closed.error);
        }
        if closed.value {
          return Got(items);
        }
        var comma := Take([44]);
        if comma.Bad? {
          return Bad(comma.error);
        }
      }
    }
  }

  function Prefixed(items: seq<bytes>, r: Read<(seq<bytes>, Cursor)>): Read<(seq<bytes>, Cursor)> {
    if r.Bad? then r else Got((items + r.value.0, r.value.1))
  }

  lemma PrefixedByNothing(r: Read<(seq<bytes>, Cursor)>)
    ensures Prefixed([], r) == r
  {
    if r.Got? {
      assert [] + r.value.0 == r.value.0;
    }
  }

  lemma UnfoldStringItems(s: bytes, c: Cursor)
    ensures forall items :: StringAt(s, c.pos).Bad? ==> Prefixed(items, StringItemsAt(s, c)) == Bad(StringAt(s, c.pos).error)
    ensures forall items :: StringAt(s, c.pos).Got? ==>
      var after := Cursor(StringAt(s, c.pos).value.1, c.budget);
      var items' := items + [StringAt(s, c.pos).value.0];
      Prefixed(items, StringItemsAt(s, c)) ==
        if ByteAt(s, after.pos, 93)
        then if Expect(s, after, [93]).Bad? then Bad(Expect(s, after, [93]).error) else Got((items', Expect(s, after, [93]).value))
        else if Expect(s, after, [44]).Bad? then Bad(Expect(s, after, [44]).error)
        else Prefixed(items', StringItemsAt(s, Expect(s, after, [44]).value))
  {
    hide Expect, StringAt;
    if StringAt(s, c.pos).Got? {
      var first := StringAt(s, c.pos).value.0;
      forall items, more: seq<bytes>
        ensures items + ([first] + more) == (items + [first]) + more
      {
      }
    }
  }

  /** A walk that starts with nothing open is a read of one value. */
  lemma WalkOfValue(s: bytes, c: Cursor)
    ensures WalkFrom(s, c, StartValue, Stack([], [])) == Skip(ValueAt(s, c))
    ensures forall end: Cursor :: WalkFrom(s, end, AfterValue, Stack([], [])) == Got(end)
  {
    hide ValueAt;
  }

  lemma TextEndIsText(s: bytes, pos: nat)
    ensures TextAt(s, pos).Bad? <==> TextEnd(s, pos).Bad?
    ensures TextAt(s, pos).Bad? ==> TextAt(s, pos).error == TextEnd(s, pos).error
    ensures TextAt(s, pos).Got? ==> TextAt(s, pos).value.1 == TextEnd(s, pos).value
  {
    hide TextAt;
  }

  /** Decode one escape at the head of `tail`: the byte and how many bytes it took. */
  method DecodeEscape(tail: bytes, ghost b: byte) returns (value: byte, width: nat)
    requires |Spelling(b)| >= 2 && Spelling(b) <= tail
    ensures value == b && width == |Spelling(b)|
  {
    ghost var r := Spelling(b);
    assert forall i | 0 <= i < |r| :: tail[i] == r[i];
    match tail[1] {
      case 34 => return 34, 2;
      case 92 => return 92, 2;
      case 98 => return 8, 2;
      case 102 => return 12, 2;
      case 110 => return 10, 2;
      case 114 => return 13, 2;
      case 116 => return 9, 2;
      case _ =>
        assert LowerHex(tail[4]) == Some(b / 16) && LowerHex(tail[5]) == Some(b % 16);
        return LowerHex(tail[4]).value * 16 + LowerHex(tail[5]).value, 6;
    }
  }

  /** The decoding loop of `json_text`, on a checked spelling. */
  method Decode(encoded: bytes, ghost text: bytes) returns (decoded: bytes)
    requires encoded == Escape(text)
    ensures decoded == text
  {
    hide Spelling, Escape;
    decoded := [];
    var tail := encoded;
    ghost var left := text;
    var at := Position(tail, BACKSLASH);
    while at.Some?
      invariant tail == Escape(left) && decoded + left == text && at == Position(tail, BACKSLASH)
      decreases |tail|
    {
      EscapeUpTo(left, at.value);
      NextEscape(left, at.value);
      ghost var b, later := left[at.value], left[at.value + 1..];
      var value, width := DecodeEscape(tail[at.value..], b);
      assert left == left[..at.value] + [b] + later;
      decoded := decoded + tail[..at.value] + [value];
      assert tail[at.value..][width..] == tail[at.value + width..];
      tail := tail[at.value + width..];
      left := later;
      at := Position(tail, BACKSLASH);
    }
    EscapeUpTo(left, |tail|);
    EscapeEmpty(left[|tail|..]);
    decoded := decoded + tail;
  }

  lemma EscapeEmpty(t: bytes)
    requires Escape(t) == []
    ensures t == []
  {
  }

  /** A backslash in a spelling begins the escape of a byte. */
  lemma NextEscape(t: bytes, at: nat)
    requires at <= |t| && at < |Escape(t)| && Escape(t)[at] == BACKSLASH && Escape(t)[at..] == Escape(t[at..])
    ensures at < |t| && |Spelling(t[at])| >= 2
    ensures Spelling(t[at]) <= Escape(t)[at..]
    ensures Escape(t)[at..][|Spelling(t[at])|..] == Escape(t[at + 1..])
  {
    hide Spelling;
    var rest := t[at..];
    assert Escape(rest)[0] == BACKSLASH;
    assert rest != [];
    assert rest[1..] == t[at + 1..];
    EscapeLead(t[at]);
  }

  lemma ZerosCharge(s: bytes, c: Cursor)
    ensures At(s, c.pos, [48, 48]) <==> c.pos + 2 <= |s| && s[c.pos] == 48 && s[c.pos + 1] == 48
    ensures Expect(s, c, [48, 48]) == if At(s, c.pos, [48, 48]) then Got(Cursor(c.pos + 2, c.budget)) else Bad(NonCanonical(c.pos))
  {
    if At(s, c.pos, [48, 48]) {
      AtIndex(s, c.pos, [48, 48]);
    }
    if c.pos + 2 <= |s| && s[c.pos] == 48 && s[c.pos + 1] == 48 {
      assert s[c.pos..][..2] == [48, 48];
    }
    assert Charge([48, 48], 2, c.pos, c.budget) == Got(c.budget);
    assert Charge([48, 48], 1, c.pos, c.budget) == Got(c.budget);
  }
}
