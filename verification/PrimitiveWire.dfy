/** Primitives and counters on the wire, stated on the bytes and the code tables. */
module PrimitiveWire {
  import opened Prelude
  import opened CounterCodes
  import opened Primitives

  // ── Codes by their first character ─────────────────────────────────────

  /** How many characters a Matter code has, by its first one. */
  predicate MatterCodeLength(first: byte, length: nat) {
    || (length == 1 && ('A' as int <= first <= 'Z' as int || 'a' as int <= first <= 'z' as int))
    || (length == 2 && first in Ascii("0456"))
    || (length == 4 && first in Ascii("123789"))
  }

  /** How many characters an indexed code has, by its first one. */
  predicate IndexedCodeLength(first: byte, length: nat) {
    || (length == 1 && ('A' as int <= first <= 'Z' as int || 'a' as int <= first <= 'z' as int))
    || (length == 2 && first in Ascii("01234"))
  }

  lemma CodeLengths(first: byte)
    ensures forall length: nat :: MatterCodeLength(first, length) <==> MatterHardSize(first) == Some(length)
    ensures forall length: nat :: IndexedCodeLength(first, length) <==> IndexerHardSize(first) == Some(length)
  {
    assert Ascii("0456") == [48, 52, 53, 54] && Ascii("123789") == [49, 50, 51, 55, 56, 57];
    assert Ascii("01234") == [48, 49, 50, 51, 52];
  }

  /** The number of quadlets that `digits` announce. */
  predicate Announces(digits: bytes, quadlets: nat) {
    quadlets < Pow64(|digits|) && digits == SoftField(quadlets, |digits|)
  }

  /** A code of the table begins `s`, and a primitive of `size` characters stands there: the fixed size
      of the code, or four times the number in its soft field behind the code and that field. */
  predicate MatterAt(t: CodeTables, s: bytes, code: bytes, size: nat)
    requires t.WellFormed()
  {
    && code in t.matter && code <= s && MatterCodeLength(code[0], |code|)
    && size <= |s|
    && var z := t.matter[code];
       match z.fs
       case Fixed(chars) => size == chars
       case Variable =>
         && |code| + z.ss <= |s|
         && size >= |code| + z.ss && (size - |code| - z.ss) % 4 == 0
         && Announces(s[|code| + z.xs..|code| + z.ss], (size - |code| - z.ss) / 4)
  }

  predicate IndexedAt(t: CodeTables, s: bytes, code: bytes, size: nat)
    requires t.WellFormed()
  {
    && code in t.indexer && code <= s && IndexedCodeLength(code[0], |code|)
    && size <= |s|
    && var z := t.indexer[code];
       match z.fs
       case Fixed(chars) => size == chars
       case Variable =>
         && |code| + z.ss <= |s|
         && size >= |code| + z.ss && (size - |code| - z.ss) % 4 == 0
         && Announces(s[|code|..|code| + z.ss - z.os], (size - |code| - z.ss) / 4)
  }

  lemma AnnouncesExact(digits: bytes, quadlets: nat)
    ensures DecodeInt(digits) == Ok(quadlets) <==> Announces(digits, quadlets)
  {
    hide SoftField, DecodeInt;
    if DecodeInt(digits) == Ok(quadlets) {
      SoftFieldDecode(digits);
    }
    if Announces(digits, quadlets) {
      DecodeSoftField(quadlets, |digits|);
    }
  }

  lemma Quarters(size: nat, base: nat, quadlets: nat)
    ensures size == quadlets * 4 + base <==> size >= base && (size - base) % 4 == 0 && (size - base) / 4 == quadlets
  {
  }

  /** Main result: a primitive is sized exactly if one of the table stands there. */
  lemma MatterExact(t: CodeTables, s: bytes, size: nat)
    requires t.WellFormed()
    ensures MatterSpan(t, s) == Ok(size) <==> exists code :: MatterAt(t, s, code, size)
  {
    hide DecodeInt, Announces, MatterHardSize, MatterCodeLength;
    if s != [] {
      CodeLengths(s[0]);
    }
    if MatterSpan(t, s) == Ok(size) {
      MatterSized(t, s, size);
    }
    forall code | MatterAt(t, s, code, size)
      ensures MatterSpan(t, s) == Ok(size)
    {
      MatterReads(t, s, code, size);
    }
  }

  lemma MatterSized(t: CodeTables, s: bytes, size: nat)
    requires t.WellFormed() && MatterSpan(t, s) == Ok(size)
    ensures MatterAt(t, s, MatterCode(t, s).value, size)
  {
    hide DecodeInt, Announces, MatterHardSize, MatterCodeLength;
    var code := MatterCode(t, s).value;
    CodeLengths(s[0]);
    assert code[0] == s[0];
    var z := t.matter[code];
    if z.fs.Variable? {
      var digits := s[|code| + z.xs..|code| + z.ss];
      AnnouncesExact(digits, DecodeInt(digits).value);
      Quarters(size, |code| + z.ss, DecodeInt(digits).value);
    }
  }

  lemma MatterReads(t: CodeTables, s: bytes, code: bytes, size: nat)
    requires t.WellFormed() && MatterAt(t, s, code, size)
    ensures MatterSpan(t, s) == Ok(size)
  {
    hide DecodeInt, Announces, MatterHardSize, MatterCodeLength;
    CodeLengths(s[0]);
    assert code[0] == s[0] && s[..|code|] == code;
    var z := t.matter[code];
    if z.fs.Variable? {
      var digits := s[|code| + z.xs..|code| + z.ss];
      var quadlets := (size - |code| - z.ss) / 4;
      AnnouncesExact(digits, quadlets);
      Quarters(size, |code| + z.ss, quadlets);
    }
  }

  /** The same for indexed signatures. */
  lemma IndexedExact(t: CodeTables, s: bytes, size: nat)
    requires t.WellFormed()
    ensures IndexerSpan(t, s) == Ok(size) <==> exists code :: IndexedAt(t, s, code, size)
  {
    hide DecodeInt, Announces, IndexerHardSize, IndexedCodeLength;
    if IndexerSpan(t, s) == Ok(size) {
      IndexedSized(t, s, size);
    }
    forall code | IndexedAt(t, s, code, size)
      ensures IndexerSpan(t, s) == Ok(size)
    {
      IndexedReads(t, s, code, size);
    }
  }

  lemma IndexedSized(t: CodeTables, s: bytes, size: nat)
    requires t.WellFormed() && IndexerSpan(t, s) == Ok(size)
    ensures IndexedAt(t, s, s[..IndexerHardSize(s[0]).value], size)
  {
    hide DecodeInt, Announces, IndexerHardSize, IndexedCodeLength;
    var code := s[..IndexerHardSize(s[0]).value];
    CodeLengths(s[0]);
    assert code != [] && code[0] == s[0];
    var z := t.indexer[code];
    if z.fs.Variable? {
      var digits := s[|code|..|code| + z.ss - z.os];
      AnnouncesExact(digits, DecodeInt(digits).value);
      Quarters(size, |code| + z.ss, DecodeInt(digits).value);
    }
  }

  lemma IndexedReads(t: CodeTables, s: bytes, code: bytes, size: nat)
    requires t.WellFormed() && IndexedAt(t, s, code, size)
    ensures IndexerSpan(t, s) == Ok(size)
  {
    hide DecodeInt, Announces, IndexerHardSize, IndexedCodeLength;
    CodeLengths(s[0]);
    assert code[0] == s[0] && s[..|code|] == code;
    var z := t.indexer[code];
    if z.fs.Variable? {
      var digits := s[|code|..|code| + z.ss - z.os];
      var quadlets := (size - |code| - z.ss) / 4;
      AnnouncesExact(digits, quadlets);
      Quarters(size, |code| + z.ss, quadlets);
    }
  }

  // ── Counters ───────────────────────────────────────────────────────────

  /** The digit at position `k` of a numeral of base 64. */
  lemma {:induction false} SoftFieldOnWire(count: nat, width: nat, k: nat)
    requires k < width
    ensures SoftField(count, width)[k] == BASE64[count / Pow64(width - 1 - k) % 64] as int
  {
    if k == width - 1 {
      Base64Alphabet(count % 64);
      assert Pow64(0) == 1;
    } else {
      SoftFieldOnWire(count / 64, width - 1, k);
      DivideTwice(count, Pow64(width - 2 - k));
      assert Pow64(width - 1 - k) == 64 * Pow64(width - 2 - k);
    }
  }

  lemma DivideTwice(n: nat, d: nat)
    requires d >= 1
    ensures n / 64 / d == n / (64 * d)
  {
    var q, r := n / 64, n % 64;
    var y, r' := q / d, q % d;
    assert n == 64 * (d * y + r') + r;
    assert n == (64 * d) * y + (64 * r' + r) by { Distribute(d, y, r', r); }
    Quotient(n, 64 * d, y, 64 * r' + r);
  }

  lemma Distribute(d: nat, y: nat, r': nat, r: nat)
    ensures 64 * (d * y + r') + r == (64 * d) * y + (64 * r' + r)
  {
  }

  lemma Quotient(n: nat, d: nat, q: nat, r: nat)
    requires d >= 1 && n == d * q + r && r < d
    ensures n / d == q
  {
    var p, m := n / d, n % d;
    assert n == d * p + m && m < d;
    if q != p {
      Apart(d, q, p);
      assert false;
    }
  }

  lemma Apart(d: nat, q: nat, p: nat)
    requires d >= 1 && q != p
    ensures d * q >= d * p + d || d * p >= d * q + d
  {
    if q > p {
      Stretch(d, q - p);
      assert d * q == d * p + d * (q - p);
    } else {
      Stretch(d, p - q);
      assert d * p == d * q + d * (p - q);
    }
  }

  lemma Stretch(d: nat, k: nat)
    requires k >= 1
    ensures d * k >= d
  {
    assert d * k == d + d * (k - 1);
  }

  /** A counter is stepped over exactly if a code of either table begins the stream and all of its
      characters are there. */
  lemma CounterSpanExact(s: bytes, size: nat)
    ensures CounterSpan(s) == Ok(size) <==>
      exists version, code :: InTable(version, code) && code.Hard() <= s && size == code.FullSize() <= |s|
  {
    if CounterSpan(s) == Ok(size) {
      CounterTaken(s, size);
    }
    forall version, code | InTable(version, code) && code.Hard() <= s && size == code.FullSize() <= |s|
      ensures CounterSpan(s) == Ok(size)
    {
      CounterReads(version, code, s);
    }
  }

  lemma CounterTaken(s: bytes, size: nat)
    requires CounterSpan(s) == Ok(size)
    ensures exists version, code :: InTable(version, code) && code.Hard() <= s && size == code.FullSize() <= |s|
  {
    hide InTable, FromHard, StreamHardSize;
    if CodeFromStream(V1, s).Ok? {
      var code := CodeFromStream(V1, s).value;
      assert InTable(V1, code) && code.Hard() <= s && size == code.FullSize() <= |s|;
    } else {
      var code := CodeFromStream(V2, s).value;
      assert InTable(V2, code) && code.Hard() <= s && size == code.FullSize() <= |s|;
    }
  }

  lemma CounterReads(version: CesrVersion, code: CounterCode, s: bytes)
    requires InTable(version, code) && code.Hard() <= s && code.FullSize() <= |s|
    ensures CounterSpan(s) == Ok(code.FullSize())
  {
    var hs := code.HardSize();
    assert |code.Hard()| == hs && s[..hs] == code.Hard();
    assert s[0] == code.Hard()[0] && s[1] == code.Hard()[1];
    match code {
      case Small(_) =>
      case Big(_) => assert s[..3][..2] == [DASH, DASH];
      case Genus =>
    }
  }
}
