/** JSON strings as the canonical writer spells them, and the readers that accept that spelling. */
module JsonTexts {
  import opened Prelude

  datatype JsonError =
    | NonCanonical(offset: nat)
    | FieldLimit(offset: nat, limit: nat)
    | DepthLimit(offset: nat, limit: nat)
    | BadVersionString
    | SizeOverflow(size: nat)
    | MissingDigestiveField
    | InvalidSlotWidth(expected: nat, found: nat)
    | UnknownDigestCode
    | InvalidPrimitive
    | SaidMismatch

  /** The outcome of a strict read. */
  datatype Read<+T> = Got(value: T) | Bad(error: JsonError) {
    predicate IsFailure() {
      Bad?
    }

    function PropagateFailure<U>(): Read<U>
      requires Bad?
    {
      Bad(error)
    }

    function Extract(): T
      requires Got?
    {
      value
    }
  }

  const BACKSLASH: byte := 92

  // ── UTF-8 ──────────────────────────────────────────────────────────────

  /** What may follow inside a UTF-8 sequence (RFC 3629 section 4). */
  datatype Utf8State = Ready | Tail1 | Tail2 | Tail3 | AfterE0 | AfterED | AfterF0 | AfterF4 | Broken

  function Utf8Lead(b: byte): Utf8State {
    if b < 0x80 then Ready
    else if b < 0xC2 then Broken
    else if b < 0xE0 then Tail1
    else if b == 0xE0 then AfterE0
    else if b == 0xED then AfterED
    else if b < 0xF0 then Tail2
    else if b == 0xF0 then AfterF0
    else if b < 0xF4 then Tail3
    else if b == 0xF4 then AfterF4
    else Broken
  }

  function Utf8Step(q: Utf8State, b: byte): Utf8State {
    match q
    case Ready => Utf8Lead(b)
    case Tail1 => if 0x80 <= b < 0xC0 then Ready else Broken
    case Tail2 => if 0x80 <= b < 0xC0 then Tail1 else Broken
    case Tail3 => if 0x80 <= b < 0xC0 then Tail2 else Broken
    case AfterE0 => if 0xA0 <= b < 0xC0 then Tail1 else Broken
    case AfterED => if 0x80 <= b < 0xA0 then Tail1 else Broken
    case AfterF0 => if 0x90 <= b < 0xC0 then Tail2 else Broken
    case AfterF4 => if 0x80 <= b < 0x90 then Tail2 else Broken
    case Broken => Broken
  }

  function Utf8Run(q: Utf8State, s: bytes): Utf8State
    decreases |s|
  {
    if s == [] then q else Utf8Run(Utf8Step(q, s[0]), s[1..])
  }

  predicate ValidUtf8(s: bytes) {
    Utf8Run(Ready, s) == Ready
  }

  /** The length of the longest prefix known to be valid, as `Utf8Error::valid_up_to` counts it. */
  function ValidUpTo(q: Utf8State, s: bytes, i: nat, good: nat): nat
    requires i <= |s|
    decreases |s| - i
  {
    if i == |s| || q == Broken then good else
      var next := Utf8Step(q, s[i]);
      ValidUpTo(next, s, i + 1, if next == Ready then i + 1 else good)
  }

  lemma {:induction false} Utf8Concat(q: Utf8State, a: bytes, b: bytes)
    ensures Utf8Run(q, a + b) == Utf8Run(Utf8Run(q, a), b)
    decreases |a|
  {
    if a == [] {
      assert a + b == b;
    } else {
      assert (a + b)[0] == a[0] && (a + b)[1..] == a[1..] + b;
      Utf8Concat(Utf8Step(q, a[0]), a[1..], b);
    }
  }

  // ── The writer ─────────────────────────────────────────────────────────

  function HexChar(n: nat): (d: byte)
    requires n < 16
    ensures 48 <= d < 0x80 && HexValue(d) == Some(n)
  {
    if n < 10 then 48 + n else 87 + n
  }

  /** The spelling of one byte: a short escape, `\u00` and two hex digits, or itself. */
  function Spelling(b: byte): (r: bytes)
    ensures r != [] && r[0] != QUOTE && r[0] >= 0x20
  {
    if b == QUOTE then [BACKSLASH, QUOTE]
    else if b == BACKSLASH then [BACKSLASH, BACKSLASH]
    else if b == 0x08 then [BACKSLASH, 98]
    else if b == 0x09 then [BACKSLASH, 116]
    else if b == 0x0A then [BACKSLASH, 110]
    else if b == 0x0C then [BACKSLASH, 102]
    else if b == 0x0D then [BACKSLASH, 114]
    else if b < 0x20 then [BACKSLASH, 117, 48, 48, HexChar(b / 16), HexChar(b % 16)]
    else [b]
  }

  function Escape(s: bytes): bytes {
    if s == [] then [] else Spelling(s[0]) + Escape(s[1..])
  }

  function Quoted(s: bytes): bytes {
    [QUOTE] + Escape(s) + [QUOTE]
  }

  /** Text that is written as it is. */
  predicate Plain(s: bytes) {
    forall i | 0 <= i < |s| :: s[i] >= 0x20 && s[i] != QUOTE && s[i] != BACKSLASH
  }

  lemma {:induction false} EscapeConcat(a: bytes, b: bytes)
    ensures Escape(a + b) == Escape(a) + Escape(b)
    decreases |a|
  {
    if a == [] {
      assert a + b == b;
    } else {
      assert (a + b)[0] == a[0] && (a + b)[1..] == a[1..] + b;
      EscapeConcat(a[1..], b);
      assert Spelling(a[0]) + (Escape(a[1..]) + Escape(b)) == Escape(a) + Escape(b);
    }
  }

  lemma EscapeOne(b: byte)
    ensures Escape([b]) == Spelling(b)
  {
    assert [b][1..] == [];
    assert Escape([]) == [];
    assert Spelling(b) + [] == Spelling(b);
  }

  /** The arms of the escape match, on one byte. */
  method WriteByte(buf: Buffer, b: byte)
    modifies buf
    ensures buf.data == old(buf.data) + Spelling(b)
  {
    if b == QUOTE {
      buf.Extend([BACKSLASH, QUOTE]);
    } else if b == BACKSLASH {
      buf.Extend([BACKSLASH, BACKSLASH]);
    } else if b == 0x08 {
      buf.Extend([BACKSLASH, 98]);
    } else if b == 0x09 {
      buf.Extend([BACKSLASH, 116]);
    } else if b == 0x0A {
      buf.Extend([BACKSLASH, 110]);
    } else if b == 0x0C {
      buf.Extend([BACKSLASH, 102]);
    } else if b == 0x0D {
      buf.Extend([BACKSLASH, 114]);
    } else if b < 0x20 {
      buf.Extend([BACKSLASH, 117, 48, 48]);
      buf.Extend([HexChar(b / 16)]);
      buf.Extend([HexChar(b % 16)]);
    } else {
      buf.Extend([b]);
    }
  }

  /** `JsonWriter::write_str`. */
  method WriteStr(buf: Buffer, s: bytes)
    modifies buf
    ensures buf.data == old(buf.data) + Quoted(s)
  {
    hide Spelling, Escape;
    ghost var before := buf.data;
    EscapeNothing();
    buf.Extend([QUOTE]);
    var i := 0;
    while i < |s|
      invariant i <= |s|
      invariant buf.data == before + ([QUOTE] + Escape(s[..i]))
    {
      WriteByte(buf, s[i]);
      EscapeNext(s, i);
      i := i + 1;
    }
    assert s[..i] == s;
    buf.Extend([QUOTE]);
  }

  lemma EscapeNothing()
    ensures Escape([]) == []
  {
  }

  lemma EscapeNext(s: bytes, i: nat)
    requires i < |s|
    ensures Escape(s[..i + 1]) == Escape(s[..i]) + Spelling(s[i])
  {
    assert s[..i + 1] == s[..i] + [s[i]];
    EscapeConcat(s[..i], [s[i]]);
    EscapeOne(s[i]);
  }

  // ── The spelling is safe to transmit ───────────────────────────────────

  /** No control byte is ever written. */
  lemma {:induction false} EscapeHasNoControls(s: bytes)
    ensures forall b | b in Escape(s) :: b >= 0x20
    decreases |s|
  {
    if s != [] {
      EscapeHasNoControls(s[1..]);
      assert forall b | b in Spelling(s[0]) :: b >= 0x20;
    }
  }

  lemma SpellingUtf8(q: Utf8State, b: byte)
    ensures Utf8Run(q, Spelling(b)) == Utf8Step(q, b)
  {
    var r := Spelling(b);
    if b == QUOTE || b == BACKSLASH || b < 0x20 {
      assert forall i | 0 <= i < |r| :: r[i] < 0x80;
      AsciiUtf8(q, r);
    } else {
      assert r[1..] == [];
    }
  }

  lemma {:induction false} AsciiUtf8(q: Utf8State, s: bytes)
    requires s != [] && forall i | 0 <= i < |s| :: s[i] < 0x80
    ensures Utf8Run(q, s) == if q == Ready then Ready else Broken
    decreases |s|
  {
    if |s| == 1 {
      assert s[1..] == [];
    } else {
      AsciiUtf8(Utf8Step(q, s[0]), s[1..]);
    }
  }

  /** Escaping neither makes nor breaks UTF-8. */
  lemma {:induction false} EscapeKeepsUtf8(q: Utf8State, s: bytes)
    ensures Utf8Run(q, Escape(s)) == Utf8Run(q, s)
    decreases |s|
  {
    if s != [] {
      Utf8Concat(q, Spelling(s[0]), Escape(s[1..]));
      SpellingUtf8(q, s[0]);
      EscapeKeepsUtf8(Utf8Step(q, s[0]), s[1..]);
    }
  }

  // ── Unescaping by RFC 8259 section 7 ───────────────────────────────────

  /** The code unit of `\uXXXX` with its digits at `at`. */
  function CodeUnit(s: bytes, at: nat): (r: Option<nat>)
    ensures r.Some? ==> at + 4 <= |s| && r.value < 0x1_0000
  {
    if |s| < at + 4 then None else
      match (HexValue(s[at]), HexValue(s[at + 1]), HexValue(s[at + 2]), HexValue(s[at + 3]))
      case (Some(a), Some(b), Some(c), Some(d)) => Some(a * 4096 + b * 256 + c * 16 + d)
      case _ => None
  }

  /** The UTF-8 encoding of a Unicode scalar value (RFC 3629 section 3). */
  function Utf8Encode(c: nat): bytes
    requires c < 0x11_0000
  {
    if c < 0x80 then [c]
    else if c < 0x800 then [0xC0 + c / 64, 0x80 + c % 64]
    else if c < 0x1_0000 then [0xE0 + c / 4096, 0x80 + c / 64 % 64, 0x80 + c % 64]
    else [0xF0 + c / 262144, 0x80 + c / 4096 % 64, 0x80 + c / 64 % 64, 0x80 + c % 64]
  }

  /** The characters of the `\u` escape at the head of `s`, two units for a surrogate pair, and
      the bytes it takes. */
  function UnicodeEscape(s: bytes): (r: Option<(bytes, nat)>)
    ensures r.Some? ==> 0 < r.value.1 <= |s|
  {
    var first := CodeUnit(s, 2);
    if first.None? then None
    else if first.value < 0xD800 || 0xE000 <= first.value then Some((Utf8Encode(first.value), 6))
    else if 0xDC00 <= first.value || |s| < 8 || s[6] != BACKSLASH || s[7] != 117 then None
    else
      var second := CodeUnit(s, 8);
      if second.None? || second.value < 0xDC00 || 0xE000 <= second.value then None
      else Some((Utf8Encode(0x1_0000 + (first.value - 0xD800) * 1024 + (second.value - 0xDC00)), 12))
  }

  /** One character or escape of a JSON string: its text and the bytes it takes. */
  function Rfc8259Char(s: bytes): (r: Option<(bytes, nat)>)
    requires s != []
    ensures r.Some? ==> 0 < r.value.1 <= |s|
  {
    if s[0] < 0x20 || s[0] == QUOTE then None
    else if s[0] != BACKSLASH then Some(([s[0]], 1))
    else if |s| < 2 then None
    else
      match s[1]
      case 34 => Some(([34], 2))
      case 92 => Some(([92], 2))
      case 47 => Some(([47], 2))
      case 98 => Some(([8], 2))
      case 102 => Some(([12], 2))
      case 110 => Some(([10], 2))
      case 114 => Some(([13], 2))
      case 116 => Some(([9], 2))
      case 117 => UnicodeEscape(s)
      case _ => None
  }

  /** The text between the quotes of a JSON string. */
  function Rfc8259Text(s: bytes): Option<bytes>
    decreases |s|
  {
    if s == [] then Some([]) else
      var c := Rfc8259Char(s);
      if c.None? then None else
        var rest := Rfc8259Text(s[c.value.1..]);
        if rest.None? then None else Some(c.value.0 + rest.value)
  }

  lemma SpellingIsRfc8259(b: byte, rest: bytes)
    ensures Rfc8259Char(Spelling(b) + rest) == Some(([b], |Spelling(b)|))
  {
    var s := Spelling(b) + rest;
    assert s[0] == Spelling(b)[0];
    if |Spelling(b)| >= 2 {
      assert s[1] == Spelling(b)[1];
    }
    if |Spelling(b)| == 6 {
      assert s[2] == 48 && s[3] == 48 && s[4] == HexChar(b / 16) && s[5] == HexChar(b % 16);
      assert HexValue(s[4]) == Some(b / 16) && HexValue(s[5]) == Some(b % 16);
      assert CodeUnit(s, 2) == Some(b);
    }
  }

  /** RFC 8259 unescaping inverts the writer on every string. */
  lemma {:induction false} UnescapeUndoesEscape(s: bytes)
    ensures Rfc8259Text(Escape(s)) == Some(s)
    decreases |s|
  {
    if s != [] {
      var rest := Escape(s[1..]);
      SpellingIsRfc8259(s[0], rest);
      assert (Spelling(s[0]) + rest)[|Spelling(s[0])|..] == rest;
      UnescapeUndoesEscape(s[1..]);
      assert [s[0]] + s[1..] == s;
    }
  }

  // ── Strict readers ─────────────────────────────────────────────────────

  /** The value of a lower-case hex digit. */
  function LowerHex(d: byte): Option<nat> {
    if 48 <= d <= 57 then Some(d - 48)
    else if 97 <= d <= 102 then Some(d - 87)
    else None
  }

  /** The control escape whose `\u` ends at `pos`: only controls without a short escape. */
  function ControlAt(s: bytes, pos: nat): (r: Read<(byte, nat)>)
    ensures r.Got? ==> r.value.1 == pos + 4 <= |s|
  {
    if !(pos + 2 <= |s| && s[pos] == 48 && s[pos + 1] == 48) then Bad(NonCanonical(pos))
    else if pos + 2 >= |s| || LowerHex(s[pos + 2]).None? then Bad(NonCanonical(pos + 2))
    else if pos + 3 >= |s| || LowerHex(s[pos + 3]).None? then Bad(NonCanonical(pos + 3))
    else
      var control := LowerHex(s[pos + 2]).value * 16 + LowerHex(s[pos + 3]).value;
      if control >= 0x20 || control in {0x08, 0x09, 0x0A, 0x0C, 0x0D} then Bad(NonCanonical(pos))
      else Got((control, pos + 4))
  }

  /** The byte that the escape after a backslash stands for. */
  function EscapeAt(s: bytes, pos: nat): (r: Read<(byte, nat)>)
    ensures r.Got? ==> pos < r.value.1 <= |s|
  {
    if pos >= |s| then Bad(NonCanonical(pos)) else
      match s[pos]
      case 34 => Got((34, pos + 1))
      case 92 => Got((92, pos + 1))
      case 98 => Got((8, pos + 1))
      case 102 => Got((12, pos + 1))
      case 110 => Got((10, pos + 1))
      case 114 => Got((13, pos + 1))
      case 116 => Got((9, pos + 1))
      case 117 => ControlAt(s, pos + 1)
      case _ => Bad(NonCanonical(pos))
  }

  /** One byte of text and where its spelling ends. */
  function UnitAt(s: bytes, pos: nat): (r: Read<(byte, nat)>)
    requires pos < |s|
    ensures r.Got? ==> pos < r.value.1 <= |s|
  {
    if s[pos] == BACKSLASH then EscapeAt(s, pos + 1)
    else if s[pos] < 0x20 then Bad(NonCanonical(pos))
    else Got((s[pos], pos + 1))
  }

  /** The text up to the closing quote, and where that quote is. */
  function TextAt(s: bytes, pos: nat): (r: Read<(bytes, nat)>)
    ensures r.Got? ==> pos <= r.value.1 < |s|
    decreases |s| - pos
  {
    if pos >= |s| then Bad(NonCanonical(pos))
    else if s[pos] == QUOTE then Got(([], pos))
    else
      var unit :- UnitAt(s, pos);
      var rest :- TextAt(s, unit.1);
      Got(([unit.0] + rest.0, rest.1))
  }

  function Utf8Checked(s: bytes, from: nat, to: nat): (r: Read<bytes>)
    requires from <= to <= |s|
    ensures r.Got? ==> r.value == s[from..to]
  {
    if ValidUtf8(s[from..to]) then Got(s[from..to])
    else Bad(NonCanonical(from + ValidUpTo(Ready, s[from..to], 0, 0)))
  }

  /** `json_text`: the text of the writer-form string at `pos`, and where it ends. */
  function JsonTextAt(s: bytes, pos: nat): (r: Read<(bytes, nat)>)
    ensures r.Got? ==> pos + 2 <= r.value.1 <= |s|
  {
    if pos >= |s| || s[pos] != QUOTE then Bad(NonCanonical(pos)) else
      var text :- TextAt(s, pos + 1);
      var encoded :- Utf8Checked(s, pos + 1, text.1);
      Got((text.0, text.1 + 1))
  }

  /** Where unescaped text ends. */
  function PlainEnd(s: bytes, pos: nat): (r: Read<nat>)
    ensures r.Got? ==> pos <= r.value < |s| && s[r.value] == QUOTE && Plain(s[pos..r.value])
    decreases |s| - pos
  {
    if pos >= |s| then Bad(NonCanonical(pos))
    else if s[pos] == QUOTE then Got(pos)
    else if s[pos] == BACKSLASH || s[pos] < 0x20 then Bad(NonCanonical(pos))
    else
      var end :- PlainEnd(s, pos + 1);
      assert s[pos..end] == [s[pos]] + s[pos + 1..end];
      Got(end)
  }

  /** `string`: the unescaped string at `pos`, and where it ends. */
  function StringAt(s: bytes, pos: nat): (r: Read<(bytes, nat)>)
    ensures r.Got? ==> pos + 2 <= r.value.1 <= |s|
  {
    if pos >= |s| || s[pos] != QUOTE then Bad(NonCanonical(pos)) else
      var end :- PlainEnd(s, pos + 1);
      var text :- Utf8Checked(s, pos + 1, end);
      Got((text, end + 1))
  }

  // ── The readers accept exactly what the writer writes ──────────────────

  lemma UnitOfSpelling(s: bytes, pos: nat, b: byte)
    requires pos < |s| && Spelling(b) <= s[pos..]
    ensures s[pos] != QUOTE && UnitAt(s, pos) == Got((b, pos + |Spelling(b)|))
  {
    var r := Spelling(b);
    assert forall i | 0 <= i < |r| :: s[pos + i] == s[pos..][i] == r[i];
    assert s[pos] == r[0];
    if |r| >= 2 {
      assert s[pos + 1] == r[1];
    }
    if |r| == 6 {
      assert s[pos + 2] == 48 && s[pos + 3] == 48 && s[pos + 4] == HexChar(b / 16) && s[pos + 5] == HexChar(b % 16);
      assert LowerHex(s[pos + 4]) == Some(b / 16) && LowerHex(s[pos + 5]) == Some(b % 16);
    }
  }

  lemma UnitIsSpelling(s: bytes, pos: nat)
    requires pos < |s| && s[pos] != QUOTE && UnitAt(s, pos).Got?
    ensures s[pos..UnitAt(s, pos).value.1] == Spelling(UnitAt(s, pos).value.0)
  {
    var (b, end) := UnitAt(s, pos).value;
    if end == pos + 6 {
      assert b / 16 == LowerHex(s[pos + 4]).value && b % 16 == LowerHex(s[pos + 5]).value;
    }
  }

  lemma {:induction false} TextOfEscape(s: bytes, pos: nat, t: bytes)
    requires pos <= |s| && Escape(t) + [QUOTE] <= s[pos..]
    ensures TextAt(s, pos) == Got((t, pos + |Escape(t)|))
    decreases |t|
  {
    hide UnitAt, Spelling;
    if t == [] {
      assert s[pos] == s[pos..][0] == QUOTE;
    } else {
      var r, more := Spelling(t[0]), Escape(t[1..]) + [QUOTE];
      assert Escape(t) + [QUOTE] == r + more;
      Split(s, pos, r, more);
      UnitOfSpelling(s, pos, t[0]);
      TextOfEscape(s, pos + |r|, t[1..]);
      assert [t[0]] + t[1..] == t;
    }
  }

  lemma Split(s: bytes, pos: nat, a: bytes, b: bytes)
    requires pos <= |s| && a + b <= s[pos..]
    ensures pos + |a| + |b| <= |s| && a <= s[pos..] && b <= s[pos + |a|..]
  {
    var tail := s[pos..];
    assert tail[..|a| + |b|] == a + b;
    assert tail[..|a|] == a;
    assert s[pos + |a|..][..|b|] == tail[|a|..|a| + |b|] == b;
  }

  lemma Join(s: bytes, pos: nat, a: bytes, b: bytes)
    requires pos <= |s| && a <= s[pos..] && b <= s[pos + |a|..]
    ensures a + b <= s[pos..]
  {
    var tail := s[pos..];
    assert tail[..|a|] == a;
    assert tail[|a|..|a| + |b|] == s[pos + |a|..][..|b|] == b;
    assert tail[..|a| + |b|] == tail[..|a|] + tail[|a|..|a| + |b|];
  }

  lemma {:induction false} TextIsEscape(s: bytes, pos: nat)
    requires TextAt(s, pos).Got?
    ensures var (t, end) := TextAt(s, pos).value;
            s[end] == QUOTE && s[pos..end] == Escape(t)
    decreases |s| - pos
  {
    hide UnitAt, Spelling;
    if s[pos] != QUOTE {
      UnitIsSpelling(s, pos);
      var (b, next) := UnitAt(s, pos).value;
      TextIsEscape(s, next);
      var (rest, end) := TextAt(s, next).value;
      assert ([b] + rest)[1..] == rest;
      assert s[pos..end] == s[pos..next] + s[next..end];
    }
  }

  /** Main result: the text reader accepts exactly the writer's spelling of UTF-8 text, ends at
      its closing quote, and recovers the text. */
  lemma JsonTextExact(s: bytes, pos: nat, t: bytes, end: nat)
    ensures JsonTextAt(s, pos) == Got((t, end)) <==>
      pos <= |s| && ValidUtf8(t) && Quoted(t) <= s[pos..] && end == pos + |Quoted(t)|
  {
    hide TextAt, Escape, Utf8Run;
    if JsonTextAt(s, pos) == Got((t, end)) {
      TextIsEscape(s, pos + 1);
      EscapeKeepsUtf8(Ready, t);
      assert s[pos..end] == [QUOTE] + s[pos + 1..end - 1] + [QUOTE];
      assert s[pos..][..end - pos] == s[pos..end];
    }
    if pos <= |s| && ValidUtf8(t) && Quoted(t) <= s[pos..] && end == pos + |Quoted(t)| {
      assert Quoted(t) == [QUOTE] + (Escape(t) + [QUOTE]);
      Split(s, pos, [QUOTE], Escape(t) + [QUOTE]);
      assert s[pos] == s[pos..][0];
      TextOfEscape(s, pos + 1, t);
      EscapeKeepsUtf8(Ready, t);
      assert s[pos + 1..end - 1] == s[pos + 1..][..|Escape(t)|] == Escape(t);
    }
  }

  lemma {:induction false} PlainIsUnescaped(t: bytes)
    requires Plain(t)
    ensures Escape(t) == t
    decreases |t|
  {
    if t != [] {
      PlainIsUnescaped(t[1..]);
    }
  }

  lemma {:induction false} PlainEndOf(s: bytes, pos: nat, t: bytes)
    requires pos <= |s| && Plain(t) && t + [QUOTE] <= s[pos..]
    ensures PlainEnd(s, pos) == Got(pos + |t|)
    decreases |t|
  {
    if t == [] {
      assert s[pos] == s[pos..][0];
    } else {
      assert t + [QUOTE] == [t[0]] + (t[1..] + [QUOTE]);
      Split(s, pos, [t[0]], t[1..] + [QUOTE]);
      assert s[pos] == s[pos..][0];
      PlainEndOf(s, pos + 1, t[1..]);
    }
  }

  /** The fixed-field reader accepts exactly the spellings of text that needs no escape. */
  lemma StringExact(s: bytes, pos: nat, t: bytes, end: nat)
    ensures StringAt(s, pos) == Got((t, end)) <==> Plain(t) && JsonTextAt(s, pos) == Got((t, end))
  {
    hide PlainEnd, Utf8Run, JsonTextAt, Escape;
    JsonTextExact(s, pos, t, end);
    if StringAt(s, pos) == Got((t, end)) {
      assert PlainEnd(s, pos + 1) == Got(end - 1) && t == s[pos + 1..end - 1];
      PlainIsUnescaped(t);
      assert s[pos..end] == [QUOTE] + s[pos + 1..end - 1] + [QUOTE];
      assert s[pos..][..end - pos] == s[pos..end];
    }
    if Plain(t) && JsonTextAt(s, pos) == Got((t, end)) {
      PlainIsUnescaped(t);
      assert Quoted(t) == [QUOTE] + (t + [QUOTE]);
      Split(s, pos, [QUOTE], t + [QUOTE]);
      assert s[pos] == s[pos..][0];
      PlainEndOf(s, pos + 1, t);
      assert s[pos + 1..end - 1] == s[pos + 1..][..|t|] == t;
    }
  }

  /** A written string ends at its own closing quote: what follows it is never mistaken for it. */
  lemma QuotedDelimitsItself(t: bytes, t': bytes, rest: bytes, rest': bytes)
    requires Quoted(t) + rest == Quoted(t') + rest'
    ensures t == t' && rest == rest'
  {
    hide Escape, TextAt;
    var s := Quoted(t) + rest;
    assert s[1..] == (Escape(t) + [QUOTE]) + rest;
    assert s[1..] == (Escape(t') + [QUOTE]) + rest';
    assert (Escape(t) + [QUOTE]) <= s[1..] && (Escape(t') + [QUOTE]) <= s[1..];
    TextOfEscape(s, 1, t);
    TextOfEscape(s, 1, t');
    assert rest == s[|Quoted(t)|..];
    assert rest' == s[|Quoted(t')|..];
  }
}
