/** The Base64 digits, the two counter code tables, and the counter printer and reader. */
module CounterCodes {
  import opened Prelude

  const DASH: byte := 45
  const UNDERSCORE: byte := 95
  const LETTER_A: byte := 65

  // ── Base64 digits (RFC 4648 section 5) ─────────────────────────────────

  function B64Char(digit: nat): byte
    requires digit < 64
  {
    if digit < 26 then 65 + digit
    else if digit < 52 then 97 + (digit - 26)
    else if digit < 62 then 48 + (digit - 52)
    else if digit == 62 then 45
    else 95
  }

  function B64Index(b: byte): (r: Result<nat>)
    ensures r.Ok? <==> exists digit | 0 <= digit < 64 :: B64Char(digit) == b
    ensures r.Ok? ==> r.value < 64 && B64Char(r.value) == b
    ensures r.Err? ==> !r.Starved()
  {
    if 65 <= b <= 90 then assert B64Char(b - 65) == b; Ok(b - 65)
    else if 97 <= b <= 122 then assert B64Char(b - 97 + 26) == b; Ok(b - 97 + 26)
    else if 48 <= b <= 57 then assert B64Char(b - 48 + 52) == b; Ok(b - 48 + 52)
    else if b == 45 then assert B64Char(62) == b; Ok(62)
    else if b == 95 then assert B64Char(63) == b; Ok(63)
    else Err(InvalidBase64(b))
  }

  const BASE64: string := "ABCDEFGHIJKLMNOPQRSTUVWXYZ" + "abcdefghijklmnopqrstuvwxyz" + "0123456789" + "-_"

  /** The URL-safe alphabet. */
  lemma Base64Alphabet(digit: nat)
    requires digit < 64
    ensures |BASE64| == 64 && B64Char(digit) == BASE64[digit] as int
  {
  }

  function Pow64(n: nat): (p: nat)
    ensures p >= 1
  {
    if n == 0 then 1 else 64 * Pow64(n - 1)
  }

  lemma Pow64Monotone(m: nat, n: nat)
    requires m <= n
    ensures Pow64(m) <= Pow64(n)
    decreases n - m
  {
    if m < n {
      Pow64Monotone(m + 1, n);
    }
  }

  /** Most significant digit first. */
  function DecodeInt(s: bytes): (r: Result<nat>)
    ensures r.Ok? ==> r.value < Pow64(|s|)
    ensures r.Err? ==> !r.Starved()
  {
    if s == [] then Ok(0) else
      var high :- DecodeInt(s[..|s| - 1]);
      var low :- B64Index(s[|s| - 1]);
      Ok(high * 64 + low)
  }

  /** The `width`-digit positional numeral of `count`, most significant digit first. */
  function SoftField(count: nat, width: nat): (s: bytes)
    ensures |s| == width
  {
    if width == 0 then [] else SoftField(count / 64, width - 1) + [B64Char(count % 64)]
  }

  lemma {:induction false} DecodeSoftField(count: nat, width: nat)
    requires count < Pow64(width)
    ensures DecodeInt(SoftField(count, width)) == Ok(count)
  {
    if width > 0 {
      DecodeSoftField(count / 64, width - 1);
      var s := SoftField(count, width);
      assert s[..width - 1] == SoftField(count / 64, width - 1);
      B64CharInjective(count % 64);
    }
  }

  lemma B64CharInjective(digit: nat)
    requires digit < 64
    ensures B64Index(B64Char(digit)) == Ok(digit)
  {
  }

  /** Every digit string is the numeral of the number it decodes to. */
  lemma {:induction false} SoftFieldDecode(s: bytes)
    requires DecodeInt(s).Ok?
    ensures SoftField(DecodeInt(s).value, |s|) == s
  {
    if s != [] {
      SoftFieldDecode(s[..|s| - 1]);
      var value := DecodeInt(s).value;
      var high := DecodeInt(s[..|s| - 1]).value;
      assert value / 64 == high && value % 64 == B64Index(s[|s| - 1]).value;
      assert s == s[..|s| - 1] + [s[|s| - 1]];
    }
  }

  // ── Code tables ────────────────────────────────────────────────────────

  /** A counter code, identified by its wire spelling: `-X`, `--X` or `-_AAA`. */
  datatype CounterCode = Small(letter: byte) | Big(letter: byte) | Genus {
    function Hard(): bytes {
      match this
      case Small(letter) => [DASH, letter]
      case Big(letter) => [DASH, DASH, letter]
      case Genus => [DASH, UNDERSCORE, LETTER_A, LETTER_A, LETTER_A]
    }

    function HardSize(): nat {
      match this case Small(_) => 2 case Big(_) => 3 case Genus => 5
    }

    function SoftSize(): nat {
      match this case Small(_) => 2 case Big(_) => 5 case Genus => 3
    }

    function FullSize(): nat {
      match this case Small(_) => 4 case Big(_) => 8 case Genus => 8
    }
  }

  predicate PromotableV1(letter: byte) {
    letter == 76 || 84 <= letter <= 87 || letter == 90
  }

  /** Membership in `CtrDex_1_0` (22 codes) or in the V2 table (59 codes). */
  predicate InTable(version: CesrVersion, code: CounterCode) {
    match (version, code)
    case (_, Genus) => true
    case (V1, Small(l)) => 65 <= l <= 73 || PromotableV1(l)
    case (V1, Big(l)) => PromotableV1(l)
    case (V2, Small(l)) => 65 <= l <= 90 || 97 <= l <= 99
    case (V2, Big(l)) => 65 <= l <= 90 || 97 <= l <= 99
  }

  function ToBig(version: CesrVersion, code: CounterCode): Option<CounterCode> {
    match code
    case Small(l) => if InTable(version, Big(l)) then Some(Big(l)) else None
    case _ => None
  }

  function FromHard(version: CesrVersion, hard: bytes): Result<CounterCode> {
    if |hard| == 5 && hard == Genus.Hard() then Ok(Genus)
    else if |hard| == 3 && hard[..2] == [DASH, DASH] && InTable(version, Big(hard[2])) then Ok(Big(hard[2]))
    else if |hard| == 2 && hard[0] == DASH && InTable(version, Small(hard[1])) then Ok(Small(hard[1]))
    else Err(UnknownCounterCode(hard))
  }

  /** Hard-code length announced by the two lead bytes of a counter. */
  function StreamHardSize(s: bytes): Result<nat> {
    if s == [] || s == [DASH] then Err(NeedBytes(1))
    else if s[0] != DASH then Err(NotACounter(s[0]))
    else if s[1] == DASH then Ok(3)
    else if s[1] == UNDERSCORE then Ok(5)
    else Ok(2)
  }

  function CodeFromStream(version: CesrVersion, s: bytes): (r: Result<CounterCode>)
    ensures r.Ok? ==> InTable(version, r.value) && r.value.Hard() <= s
  {
    var hs :- StreamHardSize(s);
    if |s| < hs then Err(NeedBytes(hs - |s|)) else FromHard(version, s[..hs])
  }

  datatype Counter = Counter(code: CounterCode, count: nat)

  /** `read_counter_v1` and `read_counter_v2`; the counter occupies `code.FullSize()` bytes. */
  function ReadCounter(version: CesrVersion, s: bytes): (r: Result<Counter>)
    ensures r.Ok? ==> InTable(version, r.value.code) && r.value.code.FullSize() <= |s|
    ensures r.Ok? ==> r.value.count < 0x4000_0000
  {
    var code :- CodeFromStream(version, s);
    if |s| < code.FullSize() then Err(NeedBytes(code.FullSize() - |s|)) else
      var count :- DecodeInt(s[code.HardSize()..code.FullSize()]);
      assert Pow64(5) == 0x4000_0000 && Pow64(3) == 0x4_0000 && Pow64(2) == 0x1000;
      Ok(Counter(code, count))
  }

  /** What a well-formed counter looks like on the wire. */
  function Print(c: Counter): bytes {
    c.code.Hard() + SoftField(c.count, c.code.SoftSize())
  }

  function Capacity(code: CounterCode): nat {
    Pow64(code.SoftSize()) - 1
  }

  // ── Printing ───────────────────────────────────────────────────────────

  function CheckCounterCapacity(ss: nat, count: nat): Result<nat> {
    if ss == 0 then Err(Overflow(CounterSoftSize))
    else if count > Pow64(ss) - 1 then Err(CountExceedsCapacity(count, Pow64(ss) - 1))
    else Ok(ss)
  }

  /** `count >> (6 * n)`. */
  function ShiftDigits(count: nat, n: nat): nat {
    if n == 0 then count else ShiftDigits(count / 64, n - 1)
  }

  /** The digit at position `k` of the numeral is what shifting and masking select. */
  lemma {:induction false} SoftFieldDigit(count: nat, width: nat, k: nat)
    requires k < width
    ensures SoftField(count, width)[k] == B64Char(ShiftDigits(count, width - 1 - k) % 64)
  {
    if k < width - 1 {
      SoftFieldDigit(count / 64, width - 1, k);
    }
  }

  /** `encode_soft_into`: one digit per position, high to low. `count` is a `u32`, so a shift by
      32 or more bits yields the digit 0. */
  method EncodeSoftInto(count: nat, ss: nat, out: Buffer)
    requires 0 < ss && count < 0x1_0000_0000
    modifies out
    ensures out.data == old(out.data) + SoftField(count, ss)
  {
    var position := ss;
    while position > 0
      invariant position <= ss
      invariant out.data == old(out.data) + SoftField(count, ss)[..ss - position]
    {
      position := position - 1;
      var digit := if 6 * position >= 32 then 0 else ShiftDigits(count, position) % 64;
      if 6 * position >= 32 {
        Pow64Grows(position);
        HighDigitsVanish(count, position);
      }
      SoftFieldDigit(count, ss, ss - 1 - position);
      var done := SoftField(count, ss);
      assert done[..ss - position] == done[..ss - position - 1] + [done[ss - position - 1]];
      out.Extend([B64Char(digit)]);
    }
    assert SoftField(count, ss)[..ss] == SoftField(count, ss);
  }

  lemma {:induction false} HighDigitsVanish(count: nat, n: nat)
    requires count < Pow64(n)
    ensures ShiftDigits(count, n) == 0
  {
    if n > 0 {
      HighDigitsVanish(count / 64, n - 1);
    }
  }

  lemma {:induction false} Pow64Grows(n: nat)
    requires n >= 6
    ensures Pow64(n) >= 0x10_0000_0000
  {
    if n == 6 {
      assert Pow64(3) == 0x4_0000;
      assert Pow64(6) == 64 * (64 * (64 * Pow64(3)));
    } else {
      Pow64Grows(n - 1);
    }
  }

  /** `encode_count_into`: succeeds exactly when the soft field can hold the count, and then
      appends the one wire form; a refusal appends nothing. */
  method EncodeCountInto(code: CounterCode, count: nat, dst: Buffer) returns (r: Result<()>)
    requires count < 0x1_0000_0000
    modifies dst
    ensures r.Ok? <==> count <= Capacity(code)
    ensures r.Ok? ==> dst.data == old(dst.data) + Print(Counter(code, count))
    ensures r.Err? ==> dst.data == old(dst.data) && r.error == CountExceedsCapacity(count, Capacity(code))
  {
    var ss := CheckCounterCapacity(code.SoftSize(), count);
    if ss.Err? {
      return Err(ss.error);
    }
    dst.Extend(code.Hard());
    EncodeSoftInto(count, ss.value, dst);
    r := Ok(());
  }

  /** `encode_count_auto_into`: the small form whenever it fits, otherwise the big form if there
      is one that fits; a refusal appends nothing. */
  method EncodeCountAutoInto(version: CesrVersion, code: CounterCode, count: nat, dst: Buffer) returns (r: Result<()>)
    requires count < 0x1_0000_0000
    modifies dst
    ensures r.Ok? <==> AutoCode(version, code, count).Some?
    ensures r.Ok? ==> dst.data == old(dst.data) + Print(Counter(AutoCode(version, code, count).value, count))
    ensures r.Err? ==> dst.data == old(dst.data)
    ensures r.Err? ==> r.error == CountExceedsCapacity(count, Capacity(LargestForm(version, code)))
  {
    r := EncodeCountInto(code, count, dst);
    if r.Err? && r.error.CountExceedsCapacity? {
      match ToBig(version, code) {
        case None =>
        case Some(big) => r := EncodeCountInto(big, count, dst);
      }
    }
  }

  /** The last code auto-promotion tries, whose capacity a refusal reports. */
  function LargestForm(version: CesrVersion, code: CounterCode): CounterCode {
    match ToBig(version, code)
    case Some(big) => big
    case None => code
  }

  /** The code that auto-promotion settles on: the first of the code itself and its big variant
      whose capacity holds the count. */
  function AutoCode(version: CesrVersion, code: CounterCode, count: nat): Option<CounterCode> {
    if count <= Capacity(code) then Some(code)
    else match ToBig(version, code)
      case Some(big) => if count <= Capacity(big) then Some(big) else None
      case None => None
  }

  // ── Laws ───────────────────────────────────────────────────────────────

  /** Reading recovers what was printed, whatever follows it. */
  lemma ReadPrinted(version: CesrVersion, c: Counter, rest: bytes)
    requires InTable(version, c.code) && c.count <= Capacity(c.code)
    ensures ReadCounter(version, Print(c) + rest) == Ok(c)
    ensures |Print(c)| == c.code.FullSize()
  {
    var s := Print(c) + rest;
    var hs, fs := c.code.HardSize(), c.code.FullSize();
    assert |c.code.Hard()| == hs;
    assert s[..hs] == c.code.Hard();
    assert s[hs..fs] == SoftField(c.count, c.code.SoftSize());
    assert s[0] == c.code.Hard()[0] && s[1] == c.code.Hard()[1];
    assert StreamHardSize(s) == Ok(hs);
    match c.code {
      case Small(_) =>
      case Big(_) => assert s[..3][..2] == [DASH, DASH];
      case Genus =>
    }
    DecodeSoftField(c.count, c.code.SoftSize());
  }

  /** Conversely the reader accepts nothing but printed counters. */
  lemma PrintRead(version: CesrVersion, s: bytes)
    requires ReadCounter(version, s).Ok?
    ensures var c := ReadCounter(version, s).value;
            c.count <= Capacity(c.code) && Print(c) == s[..c.code.FullSize()]
  {
    var c := ReadCounter(version, s).value;
    var hs, fs := c.code.HardSize(), c.code.FullSize();
    SoftFieldDecode(s[hs..fs]);
    assert s[..fs] == s[..hs] + s[hs..fs];
    assert s[..hs] == c.code.Hard();
  }

  /** Auto-promotion keeps the count, never promotes a count that fits, and gives up only when
      neither the code nor a big variant in the table can hold the count. */
  lemma AutoPromotionIsMinimal(version: CesrVersion, code: CounterCode, count: nat, rest: bytes)
    requires InTable(version, code)
    ensures match AutoCode(version, code, count)
      case Some(chosen) =>
        && ReadCounter(version, Print(Counter(chosen, count)) + rest) == Ok(Counter(chosen, count))
        && (chosen == code || (code.Small? && chosen == Big(code.letter) && count > Capacity(code)))
      case None =>
        && count > Capacity(code)
        && (code.Small? && InTable(version, Big(code.letter)) ==> count > Capacity(Big(code.letter)))
  {
    match AutoCode(version, code, count)
    case Some(chosen) => ReadPrinted(version, Counter(chosen, count), rest);
    case None =>
  }

  /** A counter that was read, or rejected, stays so when more bytes arrive. */
  lemma ReadCounterStable(version: CesrVersion, s: bytes, x: bytes)
    requires s <= x && !ReadCounter(version, s).Starved()
    ensures ReadCounter(version, x) == ReadCounter(version, s)
  {
    if s != [] && s != [DASH] {
      assert x[0] == s[0];
      if s[0] == DASH {
        assert x[1] == s[1];
        var hs := StreamHardSize(s).value;
        if |s| >= hs {
          assert x[..hs] == s[..hs];
          if CodeFromStream(version, s).Ok? {
            var code := CodeFromStream(version, s).value;
            assert CodeFromStream(version, x) == Ok(code);
            if |s| >= code.FullSize() {
              var hs', fs' := code.HardSize(), code.FullSize();
              SliceOfPrefix(s, x, hs', fs');
            }
          }
        }
      }
    }
  }

  /** A counter depends on nothing beyond its own characters. */
  lemma ReadCounterLocal(version: CesrVersion, s: bytes, x: bytes)
    requires s <= x && ReadCounter(version, x).Ok? && ReadCounter(version, x).value.code.FullSize() <= |s|
    ensures ReadCounter(version, s) == ReadCounter(version, x)
  {
    PrintRead(version, x);
    var c := ReadCounter(version, x).value;
    SliceOfPrefix(s, x, 0, c.code.FullSize());
    ReadPrinted(version, c, s[c.code.FullSize()..]);
    assert s == Print(c) + s[c.code.FullSize()..];
  }

  /** A starved read is cured only by at least the number of bytes it asked for. */
  lemma CounterNeedIsSound(version: CesrVersion, s: bytes, x: bytes)
    requires s <= x && ReadCounter(version, s).Starved() && ReadCounter(version, x).Ok?
    ensures |x| >= |s| + ReadCounter(version, s).error.missing
    ensures ReadCounter(version, x).value.code.FullSize() > |s|
  {
    if |s| >= 2 {
      assert x[0] == s[0] && x[1] == s[1];
      var hs := StreamHardSize(s).value;
      if |s| >= hs {
        assert x[..hs] == s[..hs];
      }
    }
  }
}
