/** The first field of a serialized body, as JSON, CBOR and MessagePack define it, and the version
    string it holds. */
module HeadGrammar {
  import opened Prelude
  import opened CounterCodes
  import opened Primitives
  import opened VersionHead
  import opened Enclosures

  // ── Binary maps and texts ──────────────────────────────────────────────

  function Pow256(n: nat): nat {
    if n == 0 then 1 else 256 * Pow256(n - 1)
  }

  /** The number that bytes spell, most significant first. */
  function BytesValue(s: bytes): nat {
    if s == [] then 0 else s[0] * Pow256(|s| - 1) + BytesValue(s[1..])
  }

  /** The width of an argument that follows the initial byte of a CBOR item (RFC 8949 section 3). */
  function CborWidth(info: nat): Option<nat> {
    match info case 24 => Some(1) case 25 => Some(2) case 26 => Some(4) case 27 => Some(8) case _ => None
  }

  /** A CBOR item head of this major type and argument stands from `at` up to `end`: the major type
      in the top three bits, the argument in the other five or in the bytes that follow. */
  predicate CborHead(s: bytes, at: nat, major: nat, argument: nat, end: nat) {
    && at < end <= |s|
    && s[at] / 32 == major
    && var info := s[at] % 32;
       if info < 24 then argument == info && end == at + 1
       else
         && CborWidth(info).Some?
         && end == at + 1 + CborWidth(info).value
         && argument == BytesValue(s[at + 1..end])
  }

  /** A CBOR map that is not empty: major type 5, of definite or indefinite length. */
  ghost predicate CborMap(s: bytes, end: nat) {
    || (exists pairs :: CborHead(s, 0, 5, pairs, end) && pairs > 0)
    || (s != [] && s[0] / 32 == 5 && s[0] % 32 == 31 && end == 1)
  }

  /** A MessagePack `fixmap`, `map 16` or `map 32` that is not empty. */
  predicate PackMap(s: bytes, end: nat) {
    && 0 < end <= |s|
    && if s[0] / 16 == 8 then s[0] % 16 > 0 && end == 1
       else if s[0] == 0xde then end == 3 && BytesValue(s[1..3]) > 0
       else s[0] == 0xdf && end == 5 && BytesValue(s[1..5]) > 0
  }

  /** A MessagePack `fixstr`, `str 8`, `str 16` or `str 32` header for this many bytes. */
  predicate PackText(s: bytes, at: nat, length: nat, end: nat) {
    && at < end <= |s|
    && if s[at] / 32 == 5 then length == s[at] % 32 && end == at + 1
       else
         && (s[at], end - at) in {(0xd9, 2), (0xda, 3), (0xdb, 5)}
         && length == BytesValue(s[at + 1..end])
  }

  ghost predicate MapBegins(s: bytes, cold: ColdCode, end: nat) {
    if cold == Cbor then CborMap(s, end) else PackMap(s, end)
  }

  /** A text of `length` bytes begins at `at`, its first byte at `end`; in CBOR, of major type 3. */
  predicate TextBegins(s: bytes, cold: ColdCode, at: nat, length: nat, end: nat) {
    if cold == Cbor then CborHead(s, at, 3, length, end) else PackText(s, at, length, end)
  }

  /** A map that is not empty, whose first key is the text `v` and whose first value is a text of 17
      bytes beginning at `n`. */
  ghost predicate IsBinaryHead(s: bytes, cold: ColdCode, n: nat) {
    exists key: nat, name: nat ::
      && MapBegins(s, cold, key)
      && TextBegins(s, cold, key, 1, name)
      && name < |s| && s[name] == 'v' as int
      && TextBegins(s, cold, name + 1, 17, n)
  }

  // ── The readers follow the grammar ─────────────────────────────────────

  lemma {:induction false} BytesValueIsBigEndian(s: bytes)
    ensures BytesValue(s) == BigEndian(s)
  {
    if |s| == 1 {
      assert s[1..] == [] && s[..0] == [];
    } else if |s| > 1 {
      var tail, init := s[1..], s[..|s| - 1];
      var middle := tail[..|tail| - 1];
      assert init[1..] == middle && init[0] == s[0] && tail[|tail| - 1] == s[|s| - 1];
      BytesValueIsBigEndian(tail);
      BytesValueIsBigEndian(init);
      BytesValueIsBigEndian(middle);
      Shifted(s[0], Pow256(|s| - 2), BytesValue(middle), s[|s| - 1]);
    }
  }

  lemma Shifted(first: nat, power: nat, middle: nat, last: nat)
    ensures first * (256 * power) + (middle * 256 + last) == (first * power + middle) * 256 + last
  {
  }

  lemma {:induction false} BytesValueZero(s: bytes)
    ensures BytesValue(s) == 0 <==> forall i | 0 <= i < |s| :: s[i] == 0
  {
    if s != [] {
      BytesValueZero(s[1..]);
      PowPositive(|s| - 1);
      assert forall i | 0 < i < |s| :: s[i] == s[1..][i - 1];
    }
  }

  lemma PowPositive(n: nat)
    ensures Pow256(n) > 0
  {
  }

  lemma MapStartExact(s: bytes, cold: ColdCode, end: nat)
    requires cold == Cbor || cold == MessagePack
    ensures BinaryMapStart(s, cold) == Ok(end) <==> MapBegins(s, cold, end)
  {
    hide BytesValue, MapHeader;
    if s != [] {
      MapCases(s[0]);
    }
    if 1 <= end <= |s| {
      BytesValueZero(s[1..end]);
      assert forall i | 1 <= i < end :: s[1..end][i - 1] == s[i];
      if cold == Cbor && BinaryMapStart(s, cold) == Ok(end) && s[0] % 32 != 31 {
        assert CborHead(s, 0, 5, if s[0] % 32 < 24 then s[0] % 32 else BytesValue(s[1..end]), end);
      }
    }
  }

  lemma MapCases(first: byte)
    ensures MapHeader(Cbor, first) ==
      if first / 32 != 5 then None
      else if 0 < first % 32 < 24 || first % 32 == 31 then Some(1)
      else if CborWidth(first % 32).Some? then Some(1 + CborWidth(first % 32).value) else None
    ensures MapHeader(MessagePack, first) ==
      if first / 16 == 8 && first % 16 > 0 then Some(1) else if first == 0xde then Some(3) else if first == 0xdf then Some(5) else None
  {
  }

  lemma TextCases(first: byte)
    ensures TextHeader(Cbor, first) ==
      if first / 32 != 3 then None
      else if first % 32 < 24 then Some((first % 32, 0))
      else if CborWidth(first % 32).Some? then Some((0, CborWidth(first % 32).value)) else None
    ensures TextHeader(MessagePack, first) ==
      if first / 32 == 5 then Some((first % 32, 0))
      else if first == 0xd9 then Some((0, 1)) else if first == 0xda then Some((0, 2)) else if first == 0xdb then Some((0, 4)) else None
  {
  }

  lemma TextStartExact(s: bytes, cold: ColdCode, at: nat, length: nat, end: nat)
    requires cold == Cbor || cold == MessagePack
    ensures BinaryTextStart(s, at, cold, length) == Ok(end) <==> TextBegins(s, cold, at, length, end)
  {
    hide BytesValue, BigEndian, TextHeader;
    if at < |s| {
      TextCases(s[at]);
    }
    if at < end <= |s| {
      BytesValueIsBigEndian(s[at + 1..end]);
    }
  }

  lemma KeyExact(s: bytes, at: nat, end: nat)
    ensures FirstFieldPrefix(s, at, [LETTER_V]) == Ok(end) <==> at < |s| && s[at] == 'v' as int && end == at + 1
  {
    if at < |s| {
      assert s[at..][..1] == [s[at]];
    }
  }

  /** The automaton of the binary heads accepts exactly the maps whose first field is `v` with a text
      of 17 bytes. */
  lemma BinaryHeadExact(s: bytes, cold: ColdCode, n: nat)
    requires cold == Cbor || cold == MessagePack
    ensures VersionOffset(s, cold) == Ok(n) <==> IsBinaryHead(s, cold, n)
  {
    hide BinaryMapStart, BinaryTextStart, FirstFieldPrefix, MapBegins, TextBegins;
    var start := BinaryMapStart(s, cold);
    if start.Ok? {
      MapStartExact(s, cold, start.value);
      var key := BinaryTextStart(s, start.value, cold, 1);
      if key.Ok? {
        TextStartExact(s, cold, start.value, 1, key.value);
        var name := FirstFieldPrefix(s, key.value, [LETTER_V]);
        KeyExact(s, key.value, key.value + 1);
        if name.Ok? {
          KeyExact(s, key.value, name.value);
          TextStartExact(s, cold, name.value, 17, n);
        }
      }
    }
    if IsBinaryHead(s, cold, n) {
      var key: nat, name: nat :|
        && MapBegins(s, cold, key)
        && TextBegins(s, cold, key, 1, name)
        && name < |s| && s[name] == 'v' as int
        && TextBegins(s, cold, name + 1, 17, n);
      MapStartExact(s, cold, key);
      TextStartExact(s, cold, key, 1, name);
      KeyExact(s, name, name + 1);
      TextStartExact(s, cold, name + 1, 17, n);
    }
  }

  // ── The version string ─────────────────────────────────────────────────

  /** A hex digit of either case, worth `value`. */
  predicate IsHex(digit: byte, value: nat) {
    value < 16 && (digit == "0123456789abcdef"[value] as int || digit == "0123456789ABCDEF"[value] as int)
  }

  ghost predicate IsHexDigit(digit: byte) {
    exists value: nat :: IsHex(digit, value)
  }

  /** The number that base-16 digits spell, most significant first. */
  function Base16(digits: seq<nat>): nat {
    if digits == [] then 0 else 16 * Base16(digits[..|digits| - 1]) + digits[|digits| - 1]
  }

  /** Hex digits worth `size`. */
  ghost predicate SpellsSize(s: bytes, size: nat) {
    exists digits: seq<nat> ::
      |digits| == |s| && size == Base16(digits) && forall i | 0 <= i < |s| :: IsHex(s[i], digits[i])
  }

  function KindName(cold: ColdCode): bytes
    requires cold == Json || cold == Cbor || cold == MessagePack
  {
    match cold case Json => Ascii("JSON") case Cbor => Ascii("CBOR") case MessagePack => Ascii("MGPK")
  }

  /** A known protocol, two hex digits, the kind of the encoding, the size and `_` stand at `n`, and
      the size covers them. */
  ghost predicate VersionAt(s: bytes, n: nat, cold: ColdCode, size: nat)
    requires cold == Json || cold == Cbor || cold == MessagePack
  {
    && n + 17 <= |s|
    && s[n..n + 4] in {Ascii("KERI"), Ascii("ACDC")}
    && IsHexDigit(s[n + 4]) && IsHexDigit(s[n + 5])
    && s[n + 6..n + 10] == KindName(cold)
    && SpellsSize(s[n + 10..n + 16], size)
    && s[n + 16] == '_' as int
    && n + 17 <= size
  }

  ghost predicate HeadAt(s: bytes, cold: ColdCode, n: nat) {
    if cold == Json then IsJsonHead(s, n) else IsBinaryHead(s, cold, n)
  }

  lemma HexExact(digit: byte, value: nat)
    ensures HexValue(digit) == Some(value) <==> IsHex(digit, value)
  {
  }

  lemma {:induction false} SizeIsSpelled(s: bytes, size: nat)
    ensures HexSize(s) == Some(size) <==> SpellsSize(s, size)
    decreases |s|
  {
    if HexSize(s) == Some(size) {
      var digits := DigitsOf(s, size);
    }
    forall digits: seq<nat> | |digits| == |s| && size == Base16(digits) && forall i | 0 <= i < |s| :: IsHex(s[i], digits[i])
      ensures HexSize(s) == Some(size)
    {
      DigitsSpell(s, digits);
    }
  }

  lemma {:induction false} DigitsOf(s: bytes, size: nat) returns (digits: seq<nat>)
    requires HexSize(s) == Some(size)
    ensures |digits| == |s| && size == Base16(digits) && forall i | 0 <= i < |s| :: IsHex(s[i], digits[i])
    decreases |s|
  {
    hide IsHex, HexValue;
    if s == [] {
      digits := [];
    } else {
      var (init, last) := (s[..|s| - 1], s[|s| - 1]);
      var high := DigitsOf(init, HexSize(init).value);
      HexExact(last, HexValue(last).value);
      digits := high + [HexValue(last).value];
      assert digits[..|digits| - 1] == high;
      assert forall i | 0 <= i < |init| :: init[i] == s[i] && digits[i] == high[i];
    }
  }

  lemma {:induction false} DigitsSpell(s: bytes, digits: seq<nat>)
    requires |digits| == |s| && forall i | 0 <= i < |s| :: IsHex(s[i], digits[i])
    ensures HexSize(s) == Some(Base16(digits))
    decreases |s|
  {
    hide IsHex, HexValue;
    if s != [] {
      var last := |s| - 1;
      DigitsSpell(s[..last], digits[..last]);
      HexExact(s[last], digits[last]);
    }
  }

  lemma VersionExact(s: bytes, n: nat, cold: ColdCode, size: nat)
    requires cold == Json || cold == Cbor || cold == MessagePack
    ensures n <= |s| && EventSizeAt(s, n, cold) == Ok(size) <==> VersionAt(s, n, cold, size)
  {
    hide HexSize, HexValue, IsHexDigit, SpellsSize;
    if n + 17 <= |s| {
      var tail := s[n..];
      assert tail[..4] == s[n..n + 4] && tail[6..10] == s[n + 6..n + 10] && tail[10..16] == s[n + 10..n + 16];
      SizeIsSpelled(s[n + 10..n + 16], size);
      if HexSize(s[n + 10..n + 16]).Some? {
        SizeIsSpelled(s[n + 10..n + 16], HexSize(s[n + 10..n + 16]).value);
      }
      HexSome(s[n + 4]);
      HexSome(s[n + 5]);
      ProtocolNames();
    }
  }

  lemma HexSome(digit: byte)
    ensures HexValue(digit).Some? <==> IsHexDigit(digit)
  {
    hide HexValue, IsHex;
    if HexValue(digit).Some? {
      HexExact(digit, HexValue(digit).value);
    }
    forall value: nat | IsHex(digit, value)
      ensures HexValue(digit).Some?
    {
      HexExact(digit, value);
    }
  }

  lemma ProtocolNames()
    ensures Ascii("KERI") == [75, 69, 82, 73] && Ascii("ACDC") == [65, 67, 68, 67]
    ensures Ascii("JSON") == [74, 83, 79, 78] && Ascii("CBOR") == [67, 66, 79, 82] && Ascii("MGPK") == [77, 71, 80, 75]
  {
  }

  /** Main result: a body has a size exactly if its first field is `v`, as its encoding spells that,
      and holds a version string of that kind which declares the size. */
  lemma EventSizeExact(s: bytes, cold: ColdCode, size: nat)
    requires cold == Json || cold == Cbor || cold == MessagePack
    ensures EventSize(s, cold) == Ok(size) <==> exists n: nat :: HeadAt(s, cold, n) && VersionAt(s, n, cold, size)
  {
    hide EventSizeAt, VersionAt, VersionOffset, HeadAt;
    var offset := VersionOffset(s, cold);
    if offset.Ok? {
      HeadExact(s, cold, offset.value);
      VersionExact(s, offset.value, cold, size);
    }
    forall n: nat | HeadAt(s, cold, n)
      ensures offset == Ok(n)
    {
      HeadExact(s, cold, n);
    }
  }

  /** The start of a V2 version string, as far as it has arrived: protocol, `C` and two digits for the
      protocol version, `C` and two for the genus version, kind, four digits and a dot. */
  predicate BeginsV2(s: bytes) {
    && |s| >= 14
    && s[..4] in {Ascii("KERI"), Ascii("ACDC")}
    && s[4] == 'C' as int && AllB64(s[5..7]) && s[7] == 'C' as int && AllB64(s[8..10])
    && s[10..14] in {Ascii("JSON"), Ascii("CBOR"), Ascii("MGPK"), Ascii("CESR")}
  }

  /** A body with a V2 version string is refused as unsupported once the string is whole, and waits for
      exactly the bytes it lacks before. */
  lemma V2IsUnsupported(s: bytes, cold: ColdCode, n: nat)
    requires cold == Json || cold == Cbor || cold == MessagePack
    requires HeadAt(s, cold, n) && n <= |s| && BeginsV2(s[n..])
    ensures |s| >= n + 19 && AllB64(s[n + 14..n + 18]) && s[n + 18] == '.' as int ==> EventSize(s, cold) == Err(UnsupportedVersion(V2))
    ensures |s| < n + 19 ==> EventSize(s, cold) == Err(NeedBytes(n + 19 - |s|))
  {
    hide VersionOffset, HeadAt, HexSize;
    HeadExact(s, cold, n);
    ProtocolNames();
    assert Ascii("CESR") == [67, 69, 83, 82];
    var tail := s[n..];
    NotV1(tail);
    if |s| >= n + 19 {
      assert tail[14..18] == s[n + 14..n + 18];
    }
  }

  lemma NotV1(tail: bytes)
    requires BeginsV2(tail)
    ensures ParseV1(tail).Err?
  {
    hide HexSize;
    VersionsDisjoint(tail);
  }

  lemma HeadExact(s: bytes, cold: ColdCode, n: nat)
    requires cold == Json || cold == Cbor || cold == MessagePack
    ensures VersionOffset(s, cold) == Ok(n) <==> HeadAt(s, cold, n)
  {
    hide IsBinaryHead, IsJsonHead, JsonHeadFrom, BinaryVersionOffset;
    if cold == Json {
      JsonHeadAccepts(s, n);
    } else {
      BinaryHeadExact(s, cold, n);
    }
  }

  /** Which encoding the first byte of a frame announces. */
  lemma DetectExact(first: byte)
    ensures Detect(first) == Ok(Json) <==> first == '{' as int
    ensures Detect(first) == Ok(Cbor) <==> first / 32 == 5
    ensures Detect(first) == Ok(MessagePack) <==> first / 16 == 8 || first == 0xde || first == 0xdf
    ensures Detect(first) == Ok(CesrBase64) <==> exists digit: nat :: digit < 64 && BASE64[digit] as int == first
    ensures Detect(first) == Ok(CesrBinary) <==> first >= 128 && first / 32 != 5 && first / 16 != 8 && first != 0xde && first != 0xdf
  {
    hide B64Char;
    assert B64Index(first).Ok? <==> IsLetter(first) || 48 <= first <= 57 || first == 45 || first == 95;
    forall digit: nat | digit < 64
      ensures BASE64[digit] as int == B64Char(digit)
    {
      Base64Alphabet(digit);
    }
  }
}
