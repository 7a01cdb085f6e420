/** The documents that saidifying leaves as they are. */
module SaidFixpoints {
  import opened Prelude
  import opened JsonTexts
  import opened JsonValues
  import opened JsonReaders
  import opened JsonFields
  import opened SadScans
  import opened SadSlots
  import opened Saids
  import VersionHead

  // ── The spelling of a size ─────────────────────────────────────────────

  predicate NoUpperCase(s: bytes) {
    forall i | 0 <= i < |s| :: !(65 <= s[i] <= 90)
  }

  lemma LastDigit(s: bytes, n: nat)
    requires s != [] && VersionHead.HexSize(s) == Some(n)
    ensures VersionHead.HexSize(s[..|s| - 1]) == Some(n / 16)
    ensures NoUpperCase(s) ==> s[|s| - 1] == HexChar(n % 16) && NoUpperCase(s[..|s| - 1])
  {
    hide HexValue, HexChar;
    var low := s[|s| - 1];
    DigitOf(low);
    Quotient(VersionHead.HexSize(s[..|s| - 1]).value, HexValue(low).value, n);
  }

  lemma DigitOf(d: byte)
    ensures HexValue(d).Some? ==> HexValue(d).value < 16
    ensures HexValue(d).Some? && !(65 <= d <= 90) ==> HexChar(HexValue(d).value) == d
  {
  }

  lemma Quotient(high: nat, low: nat, n: nat)
    requires n == high * 16 + low && low < 16
    ensures n / 16 == high && n % 16 == low
  {
  }

  /** Six hex digits declare a size that fits the field, and without an upper-case letter they are
      the writer's spelling of it. */
  lemma SixDigits(s: bytes, n: nat)
    requires |s| == SIZE_LEN && VersionHead.HexSize(s) == Some(n)
    ensures n <= SIZE_MAX && (NoUpperCase(s) ==> s == Hex6(n))
  {
    hide HexChar, VersionHead.HexSize, NoUpperCase;
    LastDigit(s, n);
    LastDigit(s[..5], n / 16);
    LastDigit(s[..5][..4], n / 16 / 16);
    LastDigit(s[..5][..4][..3], n / 16 / 16 / 16);
    LastDigit(s[..5][..4][..3][..2], n / 16 / 16 / 16 / 16);
    LastDigit(s[..5][..4][..3][..2][..1], n / 16 / 16 / 16 / 16 / 16);
    NothingDeclared(s[..5][..4][..3][..2][..1][..0], n / 16 / 16 / 16 / 16 / 16 / 16);
    DivisionSteps(n);
  }

  lemma NothingDeclared(s: bytes, n: nat)
    requires s == [] && VersionHead.HexSize(s) == Some(n)
    ensures n == 0
  {
  }

  lemma DivisionSteps(n: nat)
    ensures n / 16 / 16 == n / 0x100 && n / 16 / 16 / 16 == n / 0x1000 && n / 16 / 16 / 16 / 16 == n / 0x1_0000
    ensures n / 16 / 16 / 16 / 16 / 16 == n / 0x10_0000
    ensures n / 16 / 16 / 16 / 16 / 16 / 16 == 0 ==> n <= SIZE_MAX
  {
  }

  lemma WrittenIsLowerCase(n: nat)
    ensures NoUpperCase(Hex6(n))
  {
  }

  // ── The version string of a scanned document ───────────────────────────

  /** The size field of the version string that a scan noted. */
  function SizeField(s: bytes, sad: Sad): bytes
    requires InBounds(s, sad) && sad.version.Some?
  {
    s[sad.version.value.0 + SIZE_AT..sad.version.value.0 + SIZE_AT + SIZE_LEN]
  }

  /** The size that a scan noted is the one its size field spells. */
  lemma NotedSize(s: bytes, codes: SadCodes)
    requires |s| <= ISIZE_MAX && ScanSad(s, codes).Got? && ScanSad(s, codes).value.version.Some?
    ensures InBounds(s, ScanSad(s, codes).value)
    ensures VersionHead.HexSize(SizeField(s, ScanSad(s, codes).value)) == Some(ScanSad(s, codes).value.version.value.1)
  {
    hide ScanSad, SadOf, ObjectIn, Place, Scannable, CanonicalMembers, DistinctKeys, Splice, VersionHead.ParseV1, VersionHead.HexSize, Plain, Utf8Run;
    SadInBounds(s, codes);
    ScanSadExact(s, codes);
    var sad := ScanSad(s, codes).value;
    var members := ObjectIn(s).value;
    ObjectInExact(s, members);
    VersionPlace(INSIDE, members, codes, NOTHING);
    PlacedText(s, V, codes);
    var (from, to) := VersionSpan(sad);
    var text := s[from..to];
    RefilledScan(s, V, text, codes);
    SpliceSame(s, from, to);
    InnerSlice(s, from, to, SIZE_AT, SIZE_AT + SIZE_LEN);
    SizeOfVersion(text);
  }

  lemma InnerSlice(s: bytes, from: nat, to: nat, a: nat, b: nat)
    requires from <= to <= |s| && a <= b <= to - from
    ensures s[from..to][a..b] == s[from + a..from + b]
  {
    var inner := s[from..to];
    assert forall i | a <= i < b :: inner[i] == s[from + i];
  }

  lemma SizeOfVersion(text: bytes)
    requires JsonVersion(text)
    ensures VersionHead.HexSize(text[SIZE_AT..SIZE_AT + SIZE_LEN]) == Some(VersionHead.ParseV1(text).value.size)
  {
    hide VersionHead.HexSize;
  }

  lemma SpliceSame(s: bytes, from: nat, to: nat)
    requires from <= to <= |s|
    ensures Splice(s, from, s[from..to]) == s
  {
  }

  // ── When saidify changes nothing ───────────────────────────────────────

  /** The size of a scanned document is spelled without upper-case digits. */
  predicate LowerCaseSize(s: bytes, codes: SadCodes) {
    var scan := ScanSad(s, codes);
    SadInBounds(s, codes);
    scan.Got? && scan.value.version.Some? ==> NoUpperCase(SizeField(s, scan.value))
  }

  lemma {:induction false} HeldIsWide(suite: Suite, s: bytes, codes: SadCodes, sad: Sad, i: nat, blank: bytes)
    requires suite.Sound() && InBounds(s, sad) && Complete(codes, sad) && i <= |codes| && Holds(s, sad, Digests(suite, codes, blank))
    ensures CheckWidths(suite, s, codes, sad, i) == Got(())
    decreases |codes| - i
  {
    if i < |codes| {
      HeldIsWide(suite, s, codes, sad, i + 1, blank);
      assert s[sad.spans[i].0..sad.spans[i].1] == Digests(suite, codes, blank)[i];
    }
  }

  lemma SpliceAt(s: bytes, at: nat, part: bytes, k: nat)
    requires at + |part| <= |s| && k < |s|
    ensures Splice(s, at, part)[k] == if at <= k < at + |part| then part[k - at] else s[k]
  {
  }

  /** Filling slots with what a document holds there makes that document, inside the slots. */
  lemma {:induction false} FilledBack(s: bytes, base: bytes, sad: Sad, parts: seq<bytes>, n: nat, k: nat)
    requires InBounds(s, sad) && InBounds(base, sad) && |base| == |s| && k < |s|
    requires n <= |parts| && PartsFit(base, sad, parts) && Holds(s, sad, parts)
    ensures Filled(base, sad, parts, n)[k] == if InSlot(sad, n, k) then s[k] else base[k]
  {
    hide Splice;
    if n > 0 {
      FilledBack(s, base, sad, parts, n - 1, k);
      if n - 1 in sad.spans {
        var (from, to) := sad.spans[n - 1];
        SpliceAt(Filled(base, sad, parts, n - 1), from, parts[n - 1], k);
        if from <= k < to {
          assert parts[n - 1][k - from] == s[from..to][k - from];
        }
      }
    }
  }

  /** Filling undoes dummying. */
  lemma FilledBlanked(s: bytes, sad: Sad, parts: seq<bytes>)
    requires InBounds(s, sad) && PartsFit(s, sad, parts) && Holds(s, sad, parts)
    ensures Filled(Blanked(s, sad, |parts|), sad, parts, |parts|) == s
  {
    hide Blanked, Filled, InSlot, Holds;
    var blank := Blanked(s, sad, |parts|);
    var filled := Filled(blank, sad, parts, |parts|);
    forall k | 0 <= k < |s|
      ensures filled[k] == s[k]
    {
      FilledBack(s, blank, sad, parts, |parts|, k);
      BlankedAt(s, sad, |parts|, k);
    }
  }

  /** A verified document is saidified from itself and from its own digests. */
  lemma VerifiedSaidifies(suite: Suite, s: bytes, codes: SadCodes)
    requires suite.Sound() && |s| <= ISIZE_MAX && Verified(suite, s, codes) == Got(())
    ensures Saidified(suite, s, codes).Got?
    ensures LowerCaseSize(s, codes) ==> Saidified(suite, s, codes).value == s
  {
    hide ScanSad, Splice, Hex6, NoUpperCase, Digests, Blanked, Filled, CheckWidths, Holds, VersionHead.HexSize, Suite.Sound;
    var sad := ScanSad(s, codes).value;
    SadInBounds(s, codes);
    if sad.version.Some? {
      NotedSize(s, codes);
      SixDigits(SizeField(s, sad), |s|);
      SpliceSame(s, sad.version.value.0 + SIZE_AT, sad.version.value.0 + SIZE_AT + SIZE_LEN);
    }
    var blank := Blanked(s, sad, |codes|);
    var parts := Digests(suite, codes, blank);
    HeldIsWide(suite, s, codes, sad, 0, blank);
    if LowerCaseSize(s, codes) {
      assert Sized(s, sad) == s;
      DigestsFit(suite, s, codes, sad, 0, s);
      DigestsFit(suite, s, codes, sad, 0, blank);
      FilledBlanked(s, sad, parts);
    }
  }

  /** What saidify produces has its size as the writer spells it. */
  lemma SaidifiedIsLowerCase(suite: Suite, s: bytes, codes: SadCodes)
    requires suite.Sound() && |s| <= ISIZE_MAX && Saidified(suite, s, codes).Got?
    ensures LowerCaseSize(Saidified(suite, s, codes).value, codes)
  {
    hide ScanSad, Splice, Hex6, NoUpperCase, Digests, Blanked, Filled, CheckWidths, Suite.Sound;
    SaidifiedScan(suite, s, codes);
    var sad := ScanSad(s, codes).value;
    if sad.version.Some? {
      SaidifiedSize(suite, s, codes, sad);
      WrittenIsLowerCase(|s|);
      SadInBounds(Saidified(suite, s, codes).value, codes);
    }
  }

  lemma SaidifiedSize(suite: Suite, s: bytes, codes: SadCodes, sad: Sad)
    requires suite.Sound() && |s| <= ISIZE_MAX && Saidified(suite, s, codes).Got?
    requires ScanSad(s, codes) == Got(sad) && sad.version.Some?
    ensures |Saidified(suite, s, codes).value| == |s| && InBounds(s, sad)
    ensures SizeField(Saidified(suite, s, codes).value, sad) == Hex6(|s|)
  {
    hide ScanSad, Splice, Hex6, Digests, Blanked, Filled, CheckWidths, InSlot, Suite.Sound;
    SadInBounds(s, codes);
    var sized := Sized(s, sad);
    var blank := Blanked(sized, sad, |codes|);
    DigestsFit(suite, s, codes, sad, 0, blank);
    var done := Saidified(suite, s, codes).value;
    var pos := ScannedApart(s, codes);
    var at := sad.version.value.0 + SIZE_AT;
    SplicedPart(s, at, Hex6(|s|));
    forall k | at <= k < at + SIZE_LEN
      ensures done[k] == sized[k]
    {
      OutsideSlots(sad, pos, |codes|, k);
      FilledAt(blank, sad, Digests(suite, codes, blank), |codes|, k);
      BlankedAt(sized, sad, |codes|, k);
    }
    assert done[at..at + SIZE_LEN] == sized[at..at + SIZE_LEN];
  }

  lemma SplicedPart(s: bytes, at: nat, part: bytes)
    requires at + |part| <= |s|
    ensures Splice(s, at, part)[at..at + |part|] == part
  {
  }

  lemma OutsideSlots(sad: Sad, pos: nat, n: nat, k: nat)
    requires Apart(sad, pos) && sad.version.Some? && VersionSpan(sad).0 <= k < VersionSpan(sad).1
    ensures !InSlot(sad, n, k)
  {
  }

  /** Main result: saidifying leaves a document as it is exactly if the document verifies and spells
      its size without upper-case digits, which the scan reads and the writer never writes. Every
      document that verifies can be saidified. */
  lemma SaidifyKeepsExactly(suite: Suite, s: bytes, codes: SadCodes)
    requires suite.Sound() && |s| <= ISIZE_MAX
    ensures Saidified(suite, s, codes) == Got(s) <==> Verified(suite, s, codes) == Got(()) && LowerCaseSize(s, codes)
    ensures Verified(suite, s, codes) == Got(()) ==> Saidified(suite, s, codes).Got?
  {
    hide Saidified, Verified, LowerCaseSize, Suite.Sound;
    if Saidified(suite, s, codes) == Got(s) {
      SaidifyThenVerify(suite, s, codes);
      SaidifiedIsLowerCase(suite, s, codes);
    }
    if Verified(suite, s, codes) == Got(()) {
      VerifiedSaidifies(suite, s, codes);
    }
  }

  /** Main result: saidifying again changes nothing. */
  lemma SaidifyTwice(suite: Suite, s: bytes, codes: SadCodes)
    requires suite.Sound() && |s| <= ISIZE_MAX && Saidified(suite, s, codes).Got?
    ensures Saidified(suite, Saidified(suite, s, codes).value, codes) == Saidified(suite, s, codes)
  {
    hide Saidified, Verified, LowerCaseSize, Suite.Sound;
    SaidifyThenVerify(suite, s, codes);
    SaidifiedIsLowerCase(suite, s, codes);
    SaidifyKeepsExactly(suite, Saidified(suite, s, codes).value, codes);
  }

  // ── An input ───────────────────────────────────────────────────────────

  /** `KERI10JSON00001F_` and `KERI10JSON00001f_`. */
  const UPPER: bytes := [75, 69, 82, 73, 49, 48, 74, 83, 79, 78, 48, 48, 48, 48, 49, 70, 95]
  const LOWER: bytes := [75, 69, 82, 73, 49, 48, 74, 83, 79, 78, 48, 48, 48, 48, 49, 102, 95]

  /** `{"v":"...","a":1}` around a version string; no field of it is digestive. */
  function Sample(version: bytes): bytes {
    [123, 34, 118, 34, 58, 34] + version + [34, 44, 34, 97, 34, 58, 49, 125]
  }

  function SampleMembers(version: bytes): seq<Member> {
    [Member(V, Text(version))] + [Member([97], Num([49]))]
  }

  lemma UpperDeclares()
    ensures JsonVersion(UPPER) && VersionHead.ParseV1(UPPER).value.size == 31
  {
    hide VersionHead.HexSize;
    assert UPPER[..4] == [75, 69, 82, 73] && UPPER[6..10] == [74, 83, 79, 78];
    UpperSize();
  }

  lemma UpperSize()
    ensures VersionHead.HexSize(UPPER[10..16]) == Some(31)
  {
    hide VersionHead.HexSize;
    NoDigits();
    var s1 := [] + [48];
    var s2 := s1 + [48];
    var s3 := s2 + [48];
    var s4 := s3 + [48];
    var s5 := s4 + [49];
    HexStep([], 0, 48, 0);
    HexStep(s1, 0, 48, 0);
    HexStep(s2, 0, 48, 0);
    HexStep(s3, 0, 48, 0);
    HexStep(s4, 0, 49, 1);
    HexStep(s5, 1, 70, 15);
    assert UPPER[10..16] == s5 + [70];
  }

  lemma SampleNames()
    ensures FieldLit([], V) == [34, 118, 34, 58] && FieldLit([44], [97]) == [44, 34, 97, 34, 58]
  {
    EscapeOne(118);
    EscapeOne(97);
  }

  lemma SamplePrints(version: bytes)
    requires Plain(version)
    ensures Print(Object(SampleMembers(version))) == Sample(version)
  {
    hide Quoted, FieldLit, Plain;
    var last := [Member([97], Num([49]))];
    assert last == [Member([97], Num([49]))] + [];
    SampleNames();
    PrintNothing();
    TextShape(V, version);
    PrintWith(Member([97], Num([49])), []);
    PrintWith(Member(V, Text(version)), last);
  }

  lemma SampleIsCanonical(version: bytes)
    requires ValidUtf8(version)
    ensures Canonical(Object(SampleMembers(version)))
  {
    hide Utf8Run, IsNumber, CanonicalMembers;
    AsciiUtf8(Ready, V);
    AsciiUtf8(Ready, [97]);
    OneIsNumber();
    NoMembers();
    var last := [Member([97], Num([49]))];
    assert last == [Member([97], Num([49]))] + [];
    CanonicalWith(Member([97], Num([49])), []);
    CanonicalWith(Member(V, Text(version)), last);
  }

  lemma OneIsNumber()
    ensures IsNumber([49])
  {
    var n := NumberParts([], [49], [], []);
    assert n.Proper() && n.Lexeme() == [49];
  }

  lemma SampleSad(version: bytes, size: nat)
    requires JsonVersion(version) && VersionHead.ParseV1(version).value.size == size
    ensures Scannable(SampleMembers(version), [])
    ensures SadOf(INSIDE, SampleMembers(version), [], NOTHING) == Sad(map[], Some((6, size)))
  {
    hide VersionHead.ParseV1, Plain, Utf8Run, Quoted, NextOf;
    JsonVersionIsPlain(version);
    SampleKeys();
    var first, last := Member(V, Text(version)), Member([97], Num([49]));
    var c := NextOf(INSIDE, first);
    assert SampleMembers(version)[1..] == [last] && [last][1..] == [];
    assert Noted(INSIDE, first, [], NOTHING) == Sad(map[], Some((6, size)));
    assert SadOf(c, [last], [], Sad(map[], Some((6, size)))) == SadOf(NextOf(c, last), [], [], Sad(map[], Some((6, size))));
  }

  lemma SampleKeys()
    ensures Escape(V) == V && Escape([97]) == [97] && |Quoted(V)| == 3
  {
    EscapeOne(118);
    EscapeOne(97);
  }

  lemma SampleScan()
    ensures ScanSad(Sample(UPPER), []) == Got(Sad(map[], Some((6, 31))))
  {
    hide ScanSad, SadOf, Scannable, SampleMembers, Canonical, Print, Sample, JsonVersion, Plain, Utf8Run;
    UpperDeclares();
    JsonVersionIsPlain(UPPER);
    SamplePrints(UPPER);
    SampleIsCanonical(UPPER);
    SampleSad(UPPER, 31);
    SampleLength(UPPER);
    PrintedScan(Sample(UPPER), SampleMembers(UPPER), []);
  }

  lemma SampleLength(version: bytes)
    ensures |Sample(version)| == |version| + 14
  {
  }

  /** The scan reads the size `00001F`, and saidifying rewrites it as `00001f`: a document that
      verifies is changed. */
  lemma UpperCaseIsChanged(suite: Suite)
    requires suite.Sound()
    ensures Verified(suite, Sample(UPPER), []) == Got(())
    ensures Saidified(suite, Sample(UPPER), []) == Got(Sample(LOWER)) && Sample(LOWER) != Sample(UPPER)
  {
    hide ScanSad, Sample, Splice, Hex6, Suite.Sound;
    SampleScan();
    SampleLength(UPPER);
    SampleResized();
  }

  lemma SampleResized()
    ensures |Sample(UPPER)| == 31 && Splice(Sample(UPPER), 16, Hex6(31)) == Sample(LOWER) != Sample(UPPER)
  {
    assert Hex6(31) == [48, 48, 48, 48, 49, 102];
    assert UPPER == UPPER[..10] + [48, 48, 48, 48, 49, 70] + [95];
    assert LOWER == UPPER[..10] + [48, 48, 48, 48, 49, 102] + [95];
    assert Sample(UPPER)[21] == 70 && Sample(LOWER)[21] == 102;
  }
}
