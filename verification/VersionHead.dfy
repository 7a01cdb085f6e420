/** Sizing a serialized body from its first field, `v`, before the body is complete. */
module VersionHead {
  import opened Prelude
  import opened CounterCodes

  const V1_LEN := 17
  const V2_LEN := 19
  const COLON: byte := 58
  const LETTER_V: byte := 118
  const LETTER_C: byte := 67
  const DOT: byte := 46

  // ── The first JSON field name ──────────────────────────────────────────

  datatype JsonHeadState = BeforeKey | KeyV | KeyClose | BeforeColon | BeforeValue | Complete

  predicate Whitespace(b: byte) {
    b == 32 || b == 9 || b == 10 || b == 13
  }

  function JsonStep(state: JsonHeadState, b: byte): Option<JsonHeadState> {
    if state == BeforeKey && b == QUOTE then Some(KeyV)
    else if state == KeyV && b == LETTER_V then Some(KeyClose)
    else if state == KeyClose && b == QUOTE then Some(BeforeColon)
    else if state == BeforeColon && b == COLON then Some(BeforeValue)
    else if state == BeforeValue && b == QUOTE then Some(Complete)
    else if (state == BeforeKey || state == BeforeColon || state == BeforeValue) && Whitespace(b) then Some(state)
    else None
  }

  /** Where the field value starts, continuing from `offset` in `state`. */
  function JsonHeadFrom(s: bytes, offset: nat, state: JsonHeadState): (r: Result<nat>)
    ensures r.Ok? && offset <= |s| ==> offset <= r.value <= |s|
    decreases |s| - offset
  {
    if |s| < offset then Err(Truncated(offset - |s|))
    else if state == Complete then Ok(offset)
    else if offset == |s| then Err(NeedBytes(1)) else
      match JsonStep(state, s[offset])
      case None => Err(MissingVersionString)
      case Some(next) => JsonHeadFrom(s, offset + 1, next)
  }

  function JsonHead(s: bytes): Result<nat> {
    JsonHeadFrom(s, 1, BeforeKey)
  }

  /** The resumable head cursor. Bytes before `offset` are never looked at again. */
  class JsonVersionHead {
    var offset: nat
    var state: JsonHeadState

    constructor ()
      ensures offset == 1 && state == BeforeKey
    {
      offset, state := 1, BeforeKey;
    }

    /** Every call, whatever its outcome, leaves a position from which all longer inputs are
        answered as from the position before the call. The position is the furthest there is: at
        the end of the head, at the end of the input, or on the byte that is refused. So no byte
        is stepped over twice. */
    method Advance(input: bytes) returns (r: Result<nat>)
      requires |input| <= ISIZE_MAX
      modifies this
      ensures r == JsonHeadFrom(input, old(offset), old(state))
      ensures old(offset) <= offset && (old(offset) <= |input| ==> offset <= |input|)
      ensures r.Ok? ==> offset == r.value
      ensures old(offset) <= |input| && r.Starved() ==> offset == |input|
      ensures r == Err(MissingVersionString) ==> offset < |input| && JsonStep(state, input[offset]).None?
      ensures forall x | input <= x ::
        JsonHeadFrom(x, offset, state) == JsonHeadFrom(x, old(offset), old(state))
    {
      if |input| < offset {
        return Err(Truncated(offset - |input|));
      }
      while true
        invariant old(offset) <= offset <= |input|
        invariant JsonHeadFrom(input, offset, state) == JsonHeadFrom(input, old(offset), old(state))
        invariant forall x | input <= x ::
          JsonHeadFrom(x, offset, state) == JsonHeadFrom(x, old(offset), old(state))
        decreases |input| - offset
      {
        if state == Complete {
          return Ok(offset);
        }
        if offset == |input| {
          return Err(NeedBytes(1));
        }
        var b := input[offset];
        var next := JsonStep(state, b);
        if next.None? {
          return Err(MissingVersionString);
        }
        assert forall x | input <= x :: x[offset] == b && |x| > offset;
        if offset + 1 > USIZE_MAX {
          assert false;
        }
        state, offset := next.value, offset + 1;
      }
    }
  }

  predicate Blank(s: bytes) {
    forall i | 0 <= i < |s| :: s[i] == ' ' as int || s[i] == '\t' as int || s[i] == '\n' as int || s[i] == '\r' as int
  }

  /** `s[from..to]` is white space followed by the byte `mark` at `to - 1`. */
  predicate BlankThen(s: bytes, from: nat, to: nat, mark: byte) {
    from < to <= |s| && Blank(s[from..to - 1]) && s[to - 1] == mark
  }

  /** White space, `"v"`, white space, `:`, white space, `"`, counted from the byte after the
      opening brace. */
  ghost predicate IsJsonHead(s: bytes, n: nat) {
    exists i: nat, j: nat ::
      && BlankThen(s, 1, i, 34)                              // "
      && i + 1 < |s| && s[i] == 118 && s[i + 1] == 34        // v"
      && BlankThen(s, i + 2, j, 58)                          // :
      && BlankThen(s, j, n, 34)                              // "
  }

  /** The automaton accepts exactly the documented head. */
  lemma JsonHeadAccepts(s: bytes, n: nat)
    ensures JsonHead(s) == Ok(n) <==> IsJsonHead(s, n)
  {
    if JsonHead(s) == Ok(n) {
      var i := PastBlank(s, 1, BeforeKey, QUOTE, n);
      var j := PastBlank(s, i + 2, BeforeColon, COLON, n);
      var k := PastBlank(s, j, BeforeValue, QUOTE, n);
    }
    if IsJsonHead(s, n) {
      var i: nat, j: nat :|
        && BlankThen(s, 1, i, QUOTE)
        && i + 1 < |s| && s[i] == LETTER_V && s[i + 1] == QUOTE
        && BlankThen(s, i + 2, j, COLON)
        && BlankThen(s, j, n, QUOTE);
      SkipBlank(s, 1, i, BeforeKey, QUOTE);
      SkipBlank(s, i + 2, j, BeforeColon, COLON);
      SkipBlank(s, j, n, BeforeValue, QUOTE);
    }
  }

  predicate Expects(state: JsonHeadState, mark: byte) {
    || (state == BeforeKey && mark == QUOTE)
    || (state == BeforeColon && mark == COLON)
    || (state == BeforeValue && mark == QUOTE)
  }

  /** A successful run first skips white space and then takes the expected byte. */
  lemma {:induction false} PastBlank(s: bytes, from: nat, state: JsonHeadState, mark: byte, n: nat) returns (to: nat)
    requires from <= |s| && Expects(state, mark) && JsonHeadFrom(s, from, state) == Ok(n)
    ensures BlankThen(s, from, to, mark)
    ensures JsonHeadFrom(s, to, JsonStep(state, mark).value) == Ok(n)
    decreases |s| - from
  {
    if s[from] == mark {
      to := from + 1;
    } else {
      to := PastBlank(s, from + 1, state, mark, n);
      assert s[from..to - 1] == [s[from]] + s[from + 1..to - 1];
    }
  }

  lemma {:induction false} SkipBlank(s: bytes, from: nat, to: nat, state: JsonHeadState, mark: byte)
    requires BlankThen(s, from, to, mark) && Expects(state, mark)
    ensures JsonHeadFrom(s, from, state) == JsonHeadFrom(s, to, JsonStep(state, mark).value)
    decreases |s| - from
  {
    if from + 1 < to {
      assert Whitespace(s[from..to - 1][0]);
      assert s[from + 1..to - 1] == s[from..to - 1][1..];
      SkipBlank(s, from + 1, to, state, mark);
    }
  }

  // ── Binary maps (RFC 8949 section 3, and the MessagePack equivalents) ──

  function FirstFieldPrefix(s: bytes, start: nat, expected: bytes): (r: Result<nat>)
    ensures r.Ok? ==> start <= r.value <= |s|
  {
    if start > |s| then Err(NeedBytes(1)) else
      var available := s[start..];
      var compared := Min(|available|, |expected|);
      if available[..compared] != expected[..compared] then Err(MissingVersionString)
      else if |available| < |expected| then Err(NeedBytes(|expected| - |available|))
      else Ok(start + |expected|)
  }

  function MapHeader(cold: ColdCode, first: byte): Option<nat> {
    if cold == Cbor && (0xa1 <= first <= 0xb7 || first == 0xbf) then Some(1)
    else if cold == MessagePack && 0x81 <= first <= 0x8f then Some(1)
    else if cold == Cbor && first == 0xb8 then Some(2)
    else if cold == Cbor && first == 0xb9 then Some(3)
    else if cold == MessagePack && first == 0xde then Some(3)
    else if cold == Cbor && first == 0xba then Some(5)
    else if cold == MessagePack && first == 0xdf then Some(5)
    else if cold == Cbor && first == 0xbb then Some(9)
    else None
  }

  function BinaryMapStart(s: bytes, cold: ColdCode): (r: Result<nat>)
    ensures r.Ok? ==> r.value <= |s|
  {
    if s == [] then Err(NeedBytes(1)) else
      match MapHeader(cold, s[0])
      case None => Err(MissingVersionString)
      case Some(header) =>
        if |s| < header then Err(NeedBytes(header - |s|))
        else if header > 1 && forall i | 1 <= i < header :: s[i] == 0 then Err(MissingVersionString)
        else Ok(header)
  }

  /** The inline length and the number of extended length bytes of a text header. */
  function TextHeader(cold: ColdCode, first: byte): Option<(nat, nat)> {
    if cold == Cbor && 0x60 <= first <= 0x77 then Some((first - 0x60, 0))
    else if cold == Cbor && first == 0x78 then Some((0, 1))
    else if cold == MessagePack && first == 0xd9 then Some((0, 1))
    else if cold == Cbor && first == 0x79 then Some((0, 2))
    else if cold == MessagePack && first == 0xda then Some((0, 2))
    else if cold == Cbor && first == 0x7a then Some((0, 4))
    else if cold == MessagePack && first == 0xdb then Some((0, 4))
    else if cold == Cbor && first == 0x7b then Some((0, 8))
    else if cold == MessagePack && 0xa0 <= first <= 0xbf then Some((first - 0xa0, 0))
    else None
  }

  /** At most eight bytes are folded, so the `u64` accumulator never drops a bit. */
  function BigEndian(s: bytes): nat {
    if s == [] then 0 else BigEndian(s[..|s| - 1]) * 256 + s[|s| - 1]
  }

  function BinaryTextStart(s: bytes, start: nat, cold: ColdCode, expected: nat): (r: Result<nat>)
    ensures r.Ok? ==> start < r.value <= |s|
  {
    if start >= |s| then Err(NeedBytes(1)) else
      match TextHeader(cold, s[start])
      case None => Err(MissingVersionString)
      case Some((inline, width)) =>
        var end := start + 1 + width;
        if |s| < end then Err(NeedBytes(end - |s|)) else
          var length := if width == 0 then inline else BigEndian(s[start + 1..end]);
          if length != expected then Err(MissingVersionString) else Ok(end)
  }

  function BinaryVersionOffset(s: bytes, cold: ColdCode): (r: Result<nat>)
    ensures r.Ok? ==> r.value <= |s|
  {
    var start :- BinaryMapStart(s, cold);
    var keyStart :- BinaryTextStart(s, start, cold, 1);
    var valueStart :- FirstFieldPrefix(s, keyStart, [LETTER_V]);
    BinaryTextStart(s, valueStart, cold, V1_LEN)
  }

  // ── Version strings ────────────────────────────────────────────────────

  predicate KnownProtocol(s: bytes) {
    s == [75, 69, 82, 73] || s == [65, 67, 68, 67]
  }

  function KindOf(s: bytes): Option<SerializationKind> {
    if s == [74, 83, 79, 78] then Some(KindJson)
    else if s == [67, 66, 79, 82] then Some(KindCbor)
    else if s == [77, 71, 80, 75] then Some(KindMgpk)
    else if s == [67, 69, 83, 82] then Some(KindCesr)
    else None
  }

  function HexSize(s: bytes): Option<nat> {
    if s == [] then Some(0) else
      match (HexSize(s[..|s| - 1]), HexValue(s[|s| - 1]))
      case (Some(high), Some(low)) => Some(high * 16 + low)
      case _ => None
  }

  datatype VersionString = VersionString(kind: SerializationKind, size: nat)

  /** `PPPPmmKKKKssssss_` */
  function ParseV1(s: bytes): Result<VersionString> {
    if |s| < V1_LEN then Err(NeedBytes(V1_LEN - |s|))
    else if !KnownProtocol(s[..4]) then Err(Version(UnknownProtocol))
    else if HexValue(s[4]).None? || HexValue(s[5]).None? then Err(Version(InvalidVersionDigit)) else
      match KindOf(s[6..10])
      case None => Err(Version(UnknownKind))
      case Some(kind) =>
        match HexSize(s[10..16])
        case None => Err(Version(InvalidSizeHex))
        case Some(size) =>
          if s[16] != UNDERSCORE then Err(Version(MissingTerminator)) else Ok(VersionString(kind, size))
  }

  predicate AllB64(s: bytes) {
    forall i | 0 <= i < |s| :: B64Index(s[i]).Ok?
  }

  /** `PPPPpmmgmmKKKKssss.` parses: both majors are 2. */
  predicate ParsesAsV2(s: bytes) {
    && |s| >= V2_LEN
    && KnownProtocol(s[..4])
    && s[4] == LETTER_C && AllB64(s[5..7])
    && s[7] == LETTER_C && AllB64(s[8..10])
    && KindOf(s[10..14]).Some?
    && AllB64(s[14..18])
    && s[18] == DOT
  }

  /** A V2 string whose last bytes are still missing. */
  predicate LooksLikeShortV2(s: bytes) {
    && 14 <= |s| < V2_LEN
    && s[4] == LETTER_C
    && s[7] == LETTER_C
    && KindOf(s[10..14]).Some?
  }

  predicate KindMatches(cold: ColdCode, kind: SerializationKind) {
    || (cold == Json && kind == KindJson)
    || (cold == Cbor && kind == KindCbor)
    || (cold == MessagePack && kind == KindMgpk)
  }

  function EventSizeAt(s: bytes, offset: nat, cold: ColdCode): Result<nat> {
    if offset > |s| then Err(Truncated(offset - |s|)) else
      var tail := s[offset..];
      match ParseV1(tail)
      case Err(e) =>
        if ParsesAsV2(tail) then Err(UnsupportedVersion(V2))
        else if LooksLikeShortV2(tail) then Err(NeedBytes(V2_LEN - |tail|))
        else Err(e)
      case Ok(vs) =>
        if !KindMatches(cold, vs.kind) then Err(VersionKindMismatch(cold, vs.kind))
        else if vs.size < offset + V1_LEN then Err(InvalidEventSize(vs.size, offset + V1_LEN))
        else Ok(vs.size)
  }

  function VersionOffset(s: bytes, cold: ColdCode): (r: Result<nat>)
    ensures r.Ok? ==> r.value <= |s|
  {
    if cold == Json then JsonHead(s) else BinaryVersionOffset(s, cold)
  }

  /** `JsonVersionHead::event_size`: the declared size of the body at the head of `s`. */
  function EventSize(s: bytes, cold: ColdCode): Result<nat>
  {
    var offset :- VersionOffset(s, cold);
    EventSizeAt(s, offset, cold)
  }

  // ── Every answer is final ──────────────────────────────────────────────

  lemma {:induction false} JsonHeadStable(s: bytes, x: bytes, offset: nat, state: JsonHeadState)
    requires s <= x && offset <= |s|
    ensures var r := JsonHeadFrom(s, offset, state);
            if r.Starved()
            then r == Err(NeedBytes(1)) && (JsonHeadFrom(x, offset, state).Ok? ==> JsonHeadFrom(x, offset, state).value > |s|)
            else JsonHeadFrom(x, offset, state) == r
    decreases |s| - offset
  {
    if state != Complete && offset < |s| {
      assert x[offset] == s[offset];
      var next := JsonStep(state, s[offset]);
      if next.Some? {
        JsonHeadStable(s, x, offset + 1, next.value);
      }
    } else if state != Complete && offset == |s| < |x| {
      var next := JsonStep(state, x[offset]);
      if next.Some? {
        assert JsonHeadFrom(x, offset, state) == JsonHeadFrom(x, offset + 1, next.value);
      }
    }
  }

  lemma TextStartStable(s: bytes, x: bytes, start: nat, cold: ColdCode, expected: nat)
    requires s <= x && start <= |s|
    ensures var r, r' := BinaryTextStart(s, start, cold, expected), BinaryTextStart(x, start, cold, expected);
            if r.Starved() then r'.Ok? ==> r'.value >= |s| + r.error.missing else r' == r
  {
    if start < |s| && TextHeader(cold, s[start]).Some? {
      var width := TextHeader(cold, s[start]).value.1;
      if start + 1 + width <= |s| {
        SliceOfPrefix(s, x, start + 1, start + 1 + width);
      }
    }
  }

  lemma FieldPrefixStable(s: bytes, x: bytes, start: nat, expected: bytes)
    requires s <= x && start <= |s|
    ensures var r, r' := FirstFieldPrefix(s, start, expected), FirstFieldPrefix(x, start, expected);
            if r.Starved() then r'.Ok? ==> r'.value >= |s| + r.error.missing else r' == r
  {
    var a, a' := s[start..], x[start..];
    SliceOfPrefix(s, x, start, start);
    var c, c' := Min(|a|, |expected|), Min(|a'|, |expected|);
    assert a'[..c] == a[..c];
    assert a'[..c'][..c] == a'[..c] && expected[..c'][..c] == expected[..c];
  }

  lemma MapStartStable(s: bytes, x: bytes, cold: ColdCode)
    requires s <= x
    ensures var r, r' := BinaryMapStart(s, cold), BinaryMapStart(x, cold);
            if r.Starved() then r'.Ok? ==> r'.value >= |s| + r.error.missing else r' == r
  {
    if s != [] {
      assert x[0] == s[0];
    }
  }

  lemma VersionOffsetStable(s: bytes, x: bytes, cold: ColdCode)
    requires s <= x && (cold == Json ==> s != [])
    ensures var r, r' := VersionOffset(s, cold), VersionOffset(x, cold);
            if r.Starved() then r'.Ok? ==> r'.value >= |s| + r.error.missing else r' == r
  {
    hide BinaryTextStart, FirstFieldPrefix, BinaryMapStart;
    if cold == Json {
      JsonHeadStable(s, x, 1, BeforeKey);
    } else {
      MapStartStable(s, x, cold);
      var start := BinaryMapStart(s, cold);
      if start.Ok? {
        TextStartStable(s, x, start.value, cold, 1);
        var keyStart := BinaryTextStart(s, start.value, cold, 1);
        if keyStart.Ok? {
          FieldPrefixStable(s, x, keyStart.value, [LETTER_V]);
          var valueStart := FirstFieldPrefix(s, keyStart.value, [LETTER_V]);
          if valueStart.Ok? {
            TextStartStable(s, x, valueStart.value, cold, V1_LEN);
          }
        }
      }
    }
  }

  /** Seventeen bytes that parse as V1 never look like the start of a V2 string, and a whole V2
      string looked like one as soon as its kind was there. */
  lemma VersionsDisjoint(s: bytes)
    ensures ParseV1(s).Ok? ==> s[7] != LETTER_C
    ensures ParsesAsV2(s) ==> forall n | 14 <= n < V2_LEN :: LooksLikeShortV2(s[..n])
  {
    if ParseV1(s).Ok? {
      assert s[6..10][1] == s[7];
    }
    if ParsesAsV2(s) {
      forall n | 14 <= n < V2_LEN ensures LooksLikeShortV2(s[..n]) {
        assert s[..n][10..14] == s[10..14];
      }
    }
  }

  lemma ParseV1Stable(s: bytes, x: bytes)
    requires s <= x && |s| >= V1_LEN
    ensures ParseV1(x) == ParseV1(s)
  {
    SliceOfPrefix(s, x, 0, 4);
    SliceOfPrefix(s, x, 6, 10);
    SliceOfPrefix(s, x, 10, 16);
  }

  lemma SizeAtStable(s: bytes, x: bytes, offset: nat, cold: ColdCode)
    requires s <= x && offset <= |s|
    ensures var r, r' := EventSizeAt(s, offset, cold), EventSizeAt(x, offset, cold);
            if r.Starved()
            then r'.Ok? ==> |x| >= |s| + r.error.missing && r'.value > |s|
            else r' == r
  {
    var a, b := s[offset..], x[offset..];
    assert a <= b by {
      SliceOfPrefix(s, x, offset, offset);
    }
    VersionsDisjoint(b);
    hide ParseV1;
    if |a| >= V1_LEN {
      ParseV1Stable(a, b);
      if |a| < V2_LEN {
        if ParsesAsV2(b) {
          assert b[..|a|] == a;
        }
        if LooksLikeShortV2(a) {
          assert b[7] == a[7];
        }
      } else {
        V2Stable(a, b);
      }
    } else {
      ShortV1(a);
      if LooksLikeShortV2(a) {
        assert b[7] == a[7];
      }
      ShortV1(b);
    }
  }

  lemma V2Stable(s: bytes, x: bytes)
    requires s <= x && |s| >= V2_LEN
    ensures ParsesAsV2(s) == ParsesAsV2(x)
  {
    SliceOfPrefix(s, x, 0, 4);
    SliceOfPrefix(s, x, 5, 7);
    SliceOfPrefix(s, x, 8, 10);
    SliceOfPrefix(s, x, 10, 14);
    SliceOfPrefix(s, x, 14, 18);
  }

  lemma ShortV1(s: bytes)
    ensures |s| < V1_LEN ==> ParseV1(s) == Err(NeedBytes(V1_LEN - |s|))
    ensures ParseV1(s).Ok? ==> |s| >= V1_LEN
  {
  }

  /** A size or a hard error read from a prefix is read from every longer input, with one
      exception that no caller meets because each looks at the first byte before: the empty JSON
      input is reported as truncated, and any byte cures that. A starved answer is a sound lower
      bound: fewer bytes than it asked for never yield a size, and the size, when it comes,
      exceeds what had arrived. */
  lemma HeadSizingIsFinal(s: bytes, x: bytes, cold: ColdCode)
    requires s <= x
    ensures !EventSize(s, cold).Starved() ==>
      (EventSize(x, cold) == EventSize(s, cold) <==> cold != Json || s != [] || x == [])
    ensures EventSize(s, cold).Starved() && EventSize(x, cold).Ok? ==>
      |x| >= |s| + EventSize(s, cold).error.missing && EventSize(x, cold).value > |s|
  {
    if cold == Json && s == [] {
      if x != [] {
        NeverTruncated(x);
      }
      return;
    }
    VersionOffsetStable(s, x, cold);
    var offset := VersionOffset(s, cold);
    if offset.Ok? {
      SizeAtStable(s, x, offset.value, cold);
    } else if EventSize(x, cold).Ok? {
      SizeCoversHead(x, VersionOffset(x, cold).value, cold);
    }
  }

  lemma NeverTruncated(s: bytes)
    requires s != []
    ensures EventSize(s, Json).Err? ==> !EventSize(s, Json).error.Truncated?
  {
    HeadNeverTruncated(s, 1, BeforeKey);
  }

  lemma {:induction false} HeadNeverTruncated(s: bytes, offset: nat, state: JsonHeadState)
    requires offset <= |s|
    ensures var r := JsonHeadFrom(s, offset, state); if r.Ok? then r.value <= |s| else !r.error.Truncated?
    decreases |s| - offset
  {
    if offset < |s| && JsonStep(state, s[offset]).Some? {
      HeadNeverTruncated(s, offset + 1, JsonStep(state, s[offset]).value);
    }
  }

  lemma SizeCoversHead(s: bytes, offset: nat, cold: ColdCode)
    requires EventSizeAt(s, offset, cold).Ok?
    ensures offset + V1_LEN <= |s|
    ensures offset + V1_LEN <= EventSizeAt(s, offset, cold).value
  {
    ShortV1(s[offset..]);
  }
}
