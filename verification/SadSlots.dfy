/** Overwriting the digests and the size of a self-addressing document, seen by the scan. */
module SadSlots {
  import opened Prelude
  import opened JsonTexts
  import opened JsonValues
  import opened JsonReaders
  import opened JsonFields
  import opened SadScans
  import VersionHead

  function Splice(s: bytes, at: nat, part: bytes): (r: bytes)
    requires at + |part| <= |s|
    ensures |r| == |s|
  {
    s[..at] + part + s[at + |part|..]
  }

  lemma SpliceMiddle(a: bytes, old': bytes, z: bytes, part: bytes)
    requires |part| == |old'|
    ensures Splice(a + old' + z, |a|, part) == a + part + z
  {
    var s := a + old' + z;
    assert s[..|a|] == a && s[|a| + |part|..] == z;
  }

  lemma SpliceBehind(a: bytes, s: bytes, at: nat, part: bytes)
    requires at + |part| <= |s|
    ensures Splice(a + s, |a| + at, part) == a + Splice(s, at, part)
  {
    assert (a + s)[..|a| + at] == a + s[..at];
    assert (a + s)[|a| + at + |part|..] == s[at + |part|..];
  }

  // ── Another text in one field ──────────────────────────────────────────

  /** The members with `t` as the text of the field spelled `key`. */
  function Refilled(members: seq<Member>, key: bytes, t: bytes): (r: seq<Member>)
    ensures |r| == |members|
    ensures forall i | 0 <= i < |members| :: r[i].key == members[i].key
  {
    if members == [] then []
    else [Member(members[0].key, if Escape(members[0].key) == key then Text(t) else members[0].value)] + Refilled(members[1..], key, t)
  }

  /** Where the text of the field spelled `key` stands in members printed from `c` on. */
  function Place(c: Cursor, members: seq<Member>, key: bytes): Option<(nat, nat)>
    decreases |members|
  {
    if members == [] then None
    else if Escape(members[0].key) == key then (if members[0].value.Text? then Some(TextSpan(c, members[0])) else None)
    else Place(NextOf(c, members[0]), members[1..], key)
  }

  predicate Absent(members: seq<Member>, key: bytes) {
    forall i | 0 <= i < |members| :: Escape(members[i].key) != key
  }

  lemma AbsentRest(members: seq<Member>)
    requires members != [] && DistinctKeys(members)
    ensures Absent(members[1..], Escape(members[0].key)) && DistinctKeys(members[1..])
  {
    hide Escape;
    assert FreshKeys(members, {});
    KeysStayFresh(members, {});
  }

  lemma {:induction false} AbsentStays(members: seq<Member>, key: bytes, t: bytes)
    requires Absent(members, key)
    ensures Refilled(members, key, t) == members
  {
    hide Escape;
    if members != [] {
      assert forall i | 0 <= i < |members[1..]| :: members[1..][i] == members[i + 1];
      AbsentStays(members[1..], key, t);
      assert [members[0]] + members[1..] == members;
    }
  }

  /** What replaces the text of a field: it is plain and fits the field. */
  predicate Fits(key: bytes, t: bytes) {
    Plain(t) && ValidUtf8(t) && (key == V ==> JsonVersion(t))
  }

  lemma {:induction false} RefilledFits(members: seq<Member>, key: bytes, t: bytes, codes: SadCodes)
    requires CanonicalMembers(members) && Scannable(members, codes) && Fits(key, t)
    ensures CanonicalMembers(Refilled(members, key, t)) && Scannable(Refilled(members, key, t), codes)
  {
    hide Escape, Plain, Utf8Run, JsonVersion;
    ScannableParts(members, codes);
    var more := Refilled(members, key, t);
    ScannableParts(more, codes);
    if members != [] {
      RefilledFits(members[1..], key, t, codes);
      assert more[1..] == Refilled(members[1..], key, t);
    }
  }

  lemma DistinctStays(members: seq<Member>, key: bytes, t: bytes)
    requires DistinctKeys(members)
    ensures DistinctKeys(Refilled(members, key, t))
  {
    hide Refilled;
  }

  /** The refilled members are printed alike up to the text that was replaced. */
  lemma {:induction false} RefilledPrint(c: Cursor, members: seq<Member>, key: bytes, t: bytes, codes: SadCodes)
    requires DistinctKeys(members) && Scannable(members, codes) && Place(c, members, key).Some? && Plain(t)
    requires key == V || IndexOf(codes, key).Some?
    requires var (from, to) := Place(c, members, key).value; |t| == to - from
    ensures var (from, to) := Place(c, members, key).value;
            && c.pos <= from && to - c.pos <= |PrintMembers(members)|
            && PrintMembers(Refilled(members, key, t)) == Splice(PrintMembers(members), from - c.pos, t)
    decreases |members|
  {
    hide Escape, Plain, PrintMembers, Splice, DistinctKeys, Absent, FieldLit, NextOf, JsonVersion, Quoted;
    var m, rest := members[0], members[1..];
    AbsentRest(members);
    ScannableParts(members, codes);
    assert [m] + rest == members;
    if Escape(m.key) == key {
      AbsentStays(rest, key, t);
      RefilledHere(c, m, rest, t);
    } else {
      RefilledPrint(NextOf(c, m), rest, key, t, codes);
      var (from, to) := Place(c, members, key).value;
      RefilledBehind(c, m, rest, Refilled(rest, key, t), from, t);
    }
  }

  lemma RefilledHere(c: Cursor, m: Member, rest: seq<Member>, t: bytes)
    requires m.value.Text? && Plain(m.value.text) && Plain(t) && |t| == |m.value.text|
    ensures TextSpan(c, m).1 - c.pos <= |PrintMembers([m] + rest)|
    ensures PrintMembers([Member(m.key, Text(t))] + rest) == Splice(PrintMembers([m] + rest), TextSpan(c, m).0 - c.pos, t)
  {
    hide Plain, Print, Splice, Quoted, PrintMembers;
    PrintWith(m, rest);
    PrintWith(Member(m.key, Text(t)), rest);
    TextShape(m.key, m.value.text);
    TextShape(m.key, t);
    var before, z := FieldLit([], m.key) + [QUOTE], [QUOTE] + MoreMembers(rest);
    SpliceMiddle(before, m.value.text, z, t);
    assert PrintMembers([m] + rest) == before + m.value.text + z;
    assert PrintMembers([Member(m.key, Text(t))] + rest) == before + t + z;
  }

  lemma RefilledBehind(c: Cursor, m: Member, rest: seq<Member>, more: seq<Member>, from: nat, t: bytes)
    requires rest != [] && more != []
    requires NextOf(c, m).pos <= from && from - NextOf(c, m).pos + |t| <= |PrintMembers(rest)|
    requires PrintMembers(more) == Splice(PrintMembers(rest), from - NextOf(c, m).pos, t)
    ensures c.pos <= from && from - c.pos + |t| <= |PrintMembers([m] + rest)|
    ensures PrintMembers([m] + more) == Splice(PrintMembers([m] + rest), from - c.pos, t)
  {
    hide Print, Splice, FieldLit, NextOf, PrintMembers, MoreMembers;
    PrintWith(m, rest);
    PrintWith(m, more);
    var before := FieldLit([], m.key) + Print(m.value) + [44];
    BeforeNext(c, m, before);
    CommaFirst(rest);
    CommaFirst(more);
    assert PrintMembers([m] + rest) == before + PrintMembers(rest);
    assert PrintMembers([m] + more) == before + PrintMembers(more);
    SpliceBehind(before, PrintMembers(rest), from - NextOf(c, m).pos, t);
  }

  lemma BeforeNext(c: Cursor, m: Member, before: bytes)
    requires before == FieldLit([], m.key) + Print(m.value) + [44]
    ensures NextOf(c, m).pos == c.pos + |before|
  {
    hide Print, Quoted, Fields;
  }

  lemma CommaFirst(members: seq<Member>)
    requires members != []
    ensures MoreMembers(members) == [44] + PrintMembers(members)
  {
    hide PrintMember;
  }

  lemma TextShape(key: bytes, t: bytes)
    requires Plain(t)
    ensures Print(Text(t)) == [QUOTE] + t + [QUOTE]
    ensures |FieldLit([], key)| == |Quoted(key)| + 1
  {
    hide Escape;
    PlainIsUnescaped(t);
  }

  // ── What the scan makes of it ──────────────────────────────────────────

  /** What is noted once the text of the field spelled `key`, at `from`, is `t`. */
  function Resized(sad: Sad, key: bytes, from: nat, t: bytes): Sad {
    if key == V && JsonVersion(t) then sad.(version := Some((from, VersionHead.ParseV1(t).value.size))) else sad
  }

  /** Without a version field in them, members pass on the version noted before. */
  lemma {:induction false} VersionAside(c: Cursor, members: seq<Member>, codes: SadCodes, found: Sad, version: Option<(nat, nat)>)
    requires Absent(members, V)
    ensures SadOf(c, members, codes, found.(version := version)) == SadOf(c, members, codes, found).(version := version)
    decreases |members|
  {
    hide Escape, NextOf, TextSpan;
    if members != [] {
      var rest := members[1..];
      assert forall i | 0 <= i < |rest| :: rest[i] == members[i + 1];
      VersionAside(NextOf(c, members[0]), rest, codes, Noted(c, members[0], codes, found), version);
    }
  }

  lemma {:induction false} RefilledSad(c: Cursor, members: seq<Member>, key: bytes, t: bytes, codes: SadCodes, found: Sad)
    requires DistinctKeys(members) && Scannable(members, codes) && Place(c, members, key).Some? && Fits(key, t)
    requires key == V || IndexOf(codes, key).Some?
    requires var (from, to) := Place(c, members, key).value; |t| == to - from
    ensures SadOf(c, Refilled(members, key, t), codes, found) == Resized(SadOf(c, members, codes, found), key, Place(c, members, key).value.0, t)
    decreases |members|
  {
    hide Escape, Plain, Utf8Run, DistinctKeys, Absent, NextOf, Noted, VersionHead.ParseV1, Refilled;
    var m, rest := members[0], members[1..];
    var more := Refilled(members, key, t);
    AbsentRest(members);
    ScannableParts(members, codes);
    RefilledHead(members, key, t);
    if Escape(m.key) == key {
      AbsentStays(rest, key, t);
      NotedHere(c, m, t, codes, found);
      if key == V {
        VersionAside(NextOf(c, m), rest, codes, Noted(c, m, codes, found), Some((TextSpan(c, m).0, VersionHead.ParseV1(t).value.size)));
      }
    } else {
      RefilledSad(NextOf(c, m), rest, key, t, codes, Noted(c, m, codes, found));
    }
  }

  lemma RefilledHead(members: seq<Member>, key: bytes, t: bytes)
    requires members != []
    ensures var more := Refilled(members, key, t);
            && more != [] && more[1..] == Refilled(members[1..], key, t)
            && more[0] == Member(members[0].key, if Escape(members[0].key) == key then Text(t) else members[0].value)
  {
    hide Escape;
  }

  lemma NotedHere(c: Cursor, m: Member, t: bytes, codes: SadCodes, found: Sad)
    requires FieldFits(m, codes) && m.value.Text? && Plain(m.value.text) && Fits(Escape(m.key), t) && |t| == |m.value.text|
    ensures var m' := Member(m.key, Text(t));
            && NextOf(c, m') == NextOf(c, m)
            && Noted(c, m', codes, found) ==
               if Escape(m.key) == V then Noted(c, m, codes, found).(version := Some((TextSpan(c, m).0, VersionHead.ParseV1(t).value.size)))
               else Noted(c, m, codes, found)
  {
    hide Escape, Utf8Run, VersionHead.ParseV1;
    PlainIsUnescaped(t);
    PlainIsUnescaped(m.value.text);
  }

  /** A slot that was noted stays so behind the field with its label. */
  lemma {:induction false} SlotAside(c: Cursor, members: seq<Member>, codes: SadCodes, found: Sad, i: nat)
    requires i < |codes| && i in found.spans && Absent(members, codes[i].0)
    ensures i in SadOf(c, members, codes, found).spans && SadOf(c, members, codes, found).spans[i] == found.spans[i]
    decreases |members|
  {
    hide Escape, NextOf, TextSpan;
    if members != [] {
      var rest := members[1..];
      assert forall i | 0 <= i < |rest| :: rest[i] == members[i + 1];
      SlotAside(NextOf(c, members[0]), rest, codes, Noted(c, members[0], codes, found), i);
    }
  }

  /** A slot is noted where the field with its label stands. */
  lemma {:induction false} SlotPlace(c: Cursor, members: seq<Member>, codes: SadCodes, found: Sad, i: nat)
    requires DistinctKeys(members) && Scannable(members, codes) && i !in found.spans && i in SadOf(c, members, codes, found).spans
    ensures i < |codes| && IndexOf(codes, codes[i].0) == Some(i) && codes[i].0 != V
    ensures Place(c, members, codes[i].0) == Some(SadOf(c, members, codes, found).spans[i])
    decreases |members|
  {
    hide Escape, Plain, DistinctKeys, Absent, NextOf, TextSpan, JsonVersion;
    var m, rest := members[0], members[1..];
    var found' := Noted(c, m, codes, found);
    AbsentRest(members);
    ScannableParts(members, codes);
    if i in found'.spans {
      SlotAside(NextOf(c, m), rest, codes, found', i);
    } else {
      SlotPlace(NextOf(c, m), rest, codes, found', i);
    }
  }

  /** The version string is noted where the version field stands. */
  lemma {:induction false} VersionPlace(c: Cursor, members: seq<Member>, codes: SadCodes, found: Sad)
    requires DistinctKeys(members) && Scannable(members, codes) && found.version.None? && SadOf(c, members, codes, found).version.Some?
    ensures var from := SadOf(c, members, codes, found).version.value.0;
            Place(c, members, V) == Some((from, from + VersionHead.V1_LEN))
    decreases |members|
  {
    hide Escape, Plain, DistinctKeys, Absent, NextOf, VersionHead.ParseV1;
    var m, rest := members[0], members[1..];
    var found' := Noted(c, m, codes, found);
    AbsentRest(members);
    ScannableParts(members, codes);
    if found'.version.Some? {
      VersionAside(NextOf(c, m), rest, codes, found', found'.version);
      assert found'.(version := found'.version) == found';
    } else {
      VersionPlace(NextOf(c, m), rest, codes, found');
    }
  }

  const INSIDE := Cursor(1, UNLIMITED.(depth := 1))

  lemma RefilledScan(s: bytes, key: bytes, t: bytes, codes: SadCodes)
    requires |s| <= ISIZE_MAX && ScanSad(s, codes).Got? && Fits(key, t)
    requires key == V || IndexOf(codes, key).Some?
    requires ObjectIn(s).Some? && Place(INSIDE, ObjectIn(s).value, key).Some?
    requires var (from, to) := Place(INSIDE, ObjectIn(s).value, key).value; |t| == to - from
    ensures var (from, to) := Place(INSIDE, ObjectIn(s).value, key).value;
            to <= |s| && ScanSad(Splice(s, from, t), codes) == Got(Resized(ScanSad(s, codes).value, key, from, t))
  {
    hide ScanSad, SadOf, ObjectIn, Place, Refilled, Scannable, CanonicalMembers, DistinctKeys, PrintMembers, Splice, Fits, Resized;
    var members := ObjectIn(s).value;
    var members' := Refilled(members, key, t);
    var (from, to) := Place(INSIDE, members, key).value;
    ScanSadExact(s, codes);
    ObjectInExact(s, members);
    assert Plain(t) by { FitsIsPlain(key, t); }
    RefilledPrint(INSIDE, members, key, t, codes);
    RefilledFits(members, key, t, codes);
    DistinctStays(members, key, t);
    RefilledSad(INSIDE, members, key, t, codes, NOTHING);
    SpliceBehind([123], PrintMembers(members), from - 1, t);
    PrintedScan(Print(Object(members')), members', codes);
  }

  lemma FitsIsPlain(key: bytes, t: bytes)
    requires Fits(key, t)
    ensures Plain(t)
  {
  }

  // ── Patching a scanned document ────────────────────────────────────────

  function TextOf(members: seq<Member>, key: bytes): bytes {
    if members == [] then []
    else if Escape(members[0].key) == key && members[0].value.Text? then members[0].value.text
    else TextOf(members[1..], key)
  }

  lemma {:induction false} TextOfFits(c: Cursor, members: seq<Member>, key: bytes, codes: SadCodes)
    requires CanonicalMembers(members) && DistinctKeys(members) && Scannable(members, codes) && Place(c, members, key).Some?
    requires key == V || IndexOf(codes, key).Some?
    ensures Fits(key, TextOf(members, key)) && Refilled(members, key, TextOf(members, key)) == members
    ensures Place(c, members, key).value.1 == Place(c, members, key).value.0 + |TextOf(members, key)|
    decreases |members|
  {
    hide Escape, Plain, Utf8Run, DistinctKeys, Absent, JsonVersion, NextOf;
    var m, rest := members[0], members[1..];
    AbsentRest(members);
    ScannableParts(members, codes);
    assert [m] + rest == members;
    if Escape(m.key) == key {
      AbsentStays(rest, key, m.value.text);
    } else {
      TextOfFits(NextOf(c, m), rest, key, codes);
    }
  }

  /** The text that a scanned document holds at the place of a special field. */
  lemma PlacedText(s: bytes, key: bytes, codes: SadCodes)
    requires |s| <= ISIZE_MAX && ScanSad(s, codes).Got? && (key == V || IndexOf(codes, key).Some?)
    requires ObjectIn(s).Some? && Place(INSIDE, ObjectIn(s).value, key).Some?
    ensures var (from, to) := Place(INSIDE, ObjectIn(s).value, key).value;
            from <= to <= |s| && s[from..to] == TextOf(ObjectIn(s).value, key) && Fits(key, s[from..to])
  {
    hide ScanSad, SadOf, ObjectIn, Place, Refilled, Scannable, CanonicalMembers, DistinctKeys, PrintMembers, Fits, TextOf;
    var members := ObjectIn(s).value;
    var (from, to) := Place(INSIDE, members, key).value;
    ScanSadExact(s, codes);
    ObjectInExact(s, members);
    TextOfFits(INSIDE, members, key, codes);
    var text := TextOf(members, key);
    FitsIsPlain(key, text);
    RefilledPrint(INSIDE, members, key, text, codes);
    SpliceBehind([123], PrintMembers(members), from - 1, text);
    assert s == Splice(s, from, text);
    assert Splice(s, from, text)[from..to] == text;
  }

  /** Overwriting the digest of a slot by a plain text of its width leaves the scan as it was. */
  lemma SlotKept(s: bytes, codes: SadCodes, i: nat, t: bytes)
    requires |s| <= ISIZE_MAX && ScanSad(s, codes).Got? && i in ScanSad(s, codes).value.spans
    requires var (from, to) := ScanSad(s, codes).value.spans[i]; to == from + |t|
    requires Plain(t) && ValidUtf8(t)
    ensures var (from, to) := ScanSad(s, codes).value.spans[i];
            i < |codes| && to <= |s| && ScanSad(Splice(s, from, t), codes) == ScanSad(s, codes)
  {
    hide ScanSad, SadOf, ObjectIn, Place, Scannable, CanonicalMembers, DistinctKeys, Splice, Plain, Utf8Run;
    ScanSadExact(s, codes);
    ObjectInExact(s, ObjectIn(s).value);
    SlotPlace(INSIDE, ObjectIn(s).value, codes, NOTHING, i);
    RefilledScan(s, codes[i].0, t, codes);
  }

  // ── The size field ─────────────────────────────────────────────────────

  const SIZE_AT: nat := 10
  const SIZE_LEN: nat := 6
  const SIZE_MAX: nat := 0xFF_FFFF

  function Hex6(n: nat): (r: bytes)
    ensures |r| == SIZE_LEN
  {
    [HexChar(n / 0x10_0000 % 16), HexChar(n / 0x1_0000 % 16), HexChar(n / 0x1000 % 16),
     HexChar(n / 0x100 % 16), HexChar(n / 0x10 % 16), HexChar(n % 16)]
  }

  /** The nibbles of a number, from the left. */
  lemma Nibbles(n: nat)
    requires n <= SIZE_MAX
    ensures n / 0x10_0000 % 16 == n / 0x10_0000
    ensures n / 0x1_0000 == n / 0x10_0000 * 16 + n / 0x1_0000 % 16
    ensures n / 0x1000 == n / 0x1_0000 * 16 + n / 0x1000 % 16
    ensures n / 0x100 == n / 0x1000 * 16 + n / 0x100 % 16
    ensures n / 0x10 == n / 0x100 * 16 + n / 0x10 % 16
    ensures n == n / 0x10 * 16 + n % 16
  {
  }

  lemma HexStep(high: bytes, value: nat, d: byte, low: nat)
    requires VersionHead.HexSize(high) == Some(value) && HexValue(d) == Some(low)
    ensures VersionHead.HexSize(high + [d]) == Some(value * 16 + low)
  {
    assert (high + [d])[..|high|] == high;
  }

  /** The size field that is written declares the size. */
  lemma HexOfSize(n: nat)
    requires n <= SIZE_MAX
    ensures VersionHead.HexSize(Hex6(n)) == Some(n)
  {
    hide HexChar, VersionHead.HexSize;
    Nibbles(n);
    NoDigits();
    var d5, d4, d3, d2, d1 := n / 0x10_0000 % 16, n / 0x1_0000 % 16, n / 0x1000 % 16, n / 0x100 % 16, n / 0x10 % 16;
    var s1 := [] + [HexChar(d5)];
    var s2 := s1 + [HexChar(d4)];
    var s3 := s2 + [HexChar(d3)];
    var s4 := s3 + [HexChar(d2)];
    var s5 := s4 + [HexChar(d1)];
    HexStep([], 0, HexChar(d5), d5);
    HexStep(s1, d5, HexChar(d4), d4);
    HexStep(s2, n / 0x1_0000, HexChar(d3), d3);
    HexStep(s3, n / 0x1000, HexChar(d2), d2);
    HexStep(s4, n / 0x100, HexChar(d1), d1);
    HexStep(s5, n / 0x10, HexChar(n % 16), n % 16);
    assert Hex6(n) == s5 + [HexChar(n % 16)];
  }

  lemma NoDigits()
    ensures VersionHead.HexSize([]) == Some(0)
  {
  }

  lemma {:induction false} SizeDigitsArePlain(s: bytes)
    requires VersionHead.HexSize(s).Some?
    ensures forall i | 0 <= i < |s| :: 48 <= s[i] <= 102 && s[i] != BACKSLASH
    decreases |s|
  {
    if s != [] {
      SizeDigitsArePlain(s[..|s| - 1]);
      assert forall i | 0 <= i < |s| - 1 :: s[i] == s[..|s| - 1][i];
    }
  }

  lemma JsonVersionIsPlain(version: bytes)
    requires JsonVersion(version)
    ensures Plain(version) && ValidUtf8(version)
  {
    SizeDigitsArePlain(version[10..16]);
    assert forall i | 0 <= i < 4 :: version[i] == version[..4][i];
    assert forall i | 6 <= i < 10 :: version[i] == version[6..10][i - 6];
    assert forall i | 10 <= i < 16 :: version[i] == version[10..16][i - 10];
    assert forall i | 0 <= i < 17 :: 48 <= version[i] < 0x80 && version[i] != BACKSLASH;
    AsciiUtf8(Ready, version);
  }

  /** A version string with another size written into it declares that size. */
  lemma PatchedVersion(version: bytes, n: nat)
    requires JsonVersion(version) && n <= SIZE_MAX
    ensures var patched := Splice(version, SIZE_AT, Hex6(n));
            Fits(V, patched) && VersionHead.ParseV1(patched).value.size == n
  {
    hide Hex6, VersionHead.HexSize, Plain, Utf8Run;
    var patched := Splice(version, SIZE_AT, Hex6(n));
    HexOfSize(n);
    assert patched[..4] == version[..4] && patched[6..10] == version[6..10] && patched[10..16] == Hex6(n);
    assert patched[4] == version[4] && patched[5] == version[5] && patched[16] == version[16];
    JsonVersionIsPlain(patched);
  }

  lemma SpliceInside(s: bytes, from: nat, to: nat, at: nat, part: bytes)
    requires from <= to <= |s| && at + |part| <= to - from
    ensures Splice(s, from, Splice(s[from..to], at, part)) == Splice(s, from + at, part)
  {
  }

  /** Writing a size into the version string of a scanned document changes the size it declares and
      nothing else of its scan. */
  lemma VersionKept(s: bytes, codes: SadCodes, n: nat)
    requires |s| <= ISIZE_MAX && ScanSad(s, codes).Got? && ScanSad(s, codes).value.version.Some? && n <= SIZE_MAX
    ensures var sad := ScanSad(s, codes).value;
            var from := sad.version.value.0;
            && from + VersionHead.V1_LEN <= |s|
            && ScanSad(Splice(s, from + SIZE_AT, Hex6(n)), codes) == Got(sad.(version := Some((from, n))))
  {
    hide ScanSad, SadOf, ObjectIn, Place, Scannable, CanonicalMembers, DistinctKeys, Splice, Plain, Utf8Run, Hex6, VersionHead.ParseV1;
    ScanSadExact(s, codes);
    var members := ObjectIn(s).value;
    var from := ScanSad(s, codes).value.version.value.0;
    var to := from + VersionHead.V1_LEN;
    ObjectInExact(s, members);
    VersionPlace(INSIDE, members, codes, NOTHING);
    PlacedText(s, V, codes);
    var patched := Splice(s[from..to], SIZE_AT, Hex6(n));
    PatchedVersion(s[from..to], n);
    SpliceInside(s, from, to, SIZE_AT, Hex6(n));
    RefilledScan(s, V, patched, codes);
  }

  // ── The noted spans ────────────────────────────────────────────────────

  predicate InBounds(s: bytes, sad: Sad) {
    && (forall i | i in sad.spans :: sad.spans[i].0 <= sad.spans[i].1 <= |s|)
    && (sad.version.Some? ==> sad.version.value.0 + SIZE_AT + SIZE_LEN <= |s|)
  }

  lemma {:induction false} ScanInBounds(s: bytes, c: Cursor, codes: SadCodes, seen: set<bytes>, found: Sad)
    requires InBounds(s, found)
    ensures ScanFields(s, c, codes, seen, found).Got? ==> InBounds(s, ScanFields(s, c, codes, seen, found).value.0)
    decreases |s| - c.pos
  {
    hide JsonTextAt, Expect, ValueAt, InBounds;
    var key := JsonTextAt(s, c.pos);
    if key.Got? && Expect(s, Cursor(key.value.1, c.budget), [58]).Got? {
      var colon := Expect(s, Cursor(key.value.1, c.budget), [58]).value;
      var spelled := Spelled(s, c.pos, key.value.1);
      FieldInBounds(s, colon, spelled, codes, found);
      var field := FieldAt(s, colon, spelled, codes, found);
      if field.Got? && ByteAt(s, field.value.1.pos, 44) && Expect(s, field.value.1, [44]).Got? {
        ScanInBounds(s, Expect(s, field.value.1, [44]).value, codes, seen + {spelled}, field.value.0);
      }
    }
  }

  lemma FieldInBounds(s: bytes, c: Cursor, key: bytes, codes: SadCodes, found: Sad)
    requires InBounds(s, found)
    ensures FieldAt(s, c, key, codes, found).Got? ==> InBounds(s, FieldAt(s, c, key, codes, found).value.0)
  {
    hide ValueAt, PlainEnd, Utf8Run, VersionHead.ParseV1;
  }

  lemma SadInBounds(s: bytes, codes: SadCodes)
    ensures ScanSad(s, codes).Got? ==> InBounds(s, ScanSad(s, codes).value)
  {
    hide Expect, ScanFields;
    ExpectByte(s, Cursor(0, UNLIMITED), 123);
    var start := Expect(s, Cursor(0, UNLIMITED), [123]);
    if start.Got? {
      ScanInBounds(s, start.value, codes, {}, NOTHING);
    }
  }

  predicate Disjoint(a: (nat, nat), b: (nat, nat)) {
    a.1 <= b.0 || b.1 <= a.0
  }

  /** The version string that was noted. */
  function VersionSpan(sad: Sad): (nat, nat)
    requires sad.version.Some?
  {
    (sad.version.value.0, sad.version.value.0 + VersionHead.V1_LEN)
  }

  /** No two slots share a byte, nor does one with the version string, and all end before `pos`. */
  ghost predicate Apart(sad: Sad, pos: nat) {
    && (forall i | i in sad.spans :: sad.spans[i].0 <= sad.spans[i].1 < pos)
    && (forall i, j | i in sad.spans && j in sad.spans && i != j :: Disjoint(sad.spans[i], sad.spans[j]))
    && (sad.version.Some? ==> VersionSpan(sad).1 < pos && forall i | i in sad.spans :: Disjoint(sad.spans[i], VersionSpan(sad)))
  }

  lemma {:induction false} SadApart(c: Cursor, members: seq<Member>, codes: SadCodes, found: Sad) returns (pos: nat)
    requires Scannable(members, codes) && Apart(found, c.pos)
    ensures Apart(SadOf(c, members, codes, found), pos)
    decreases |members|
  {
    hide Escape, Plain, JsonVersion;
    ScannableParts(members, codes);
    if members == [] {
      return c.pos;
    }
    NotedApart(c, members[0], codes, found);
    pos := SadApart(NextOf(c, members[0]), members[1..], codes, Noted(c, members[0], codes, found));
  }

  lemma NotedApart(c: Cursor, m: Member, codes: SadCodes, found: Sad)
    requires FieldFits(m, codes) && Apart(found, c.pos)
    ensures Apart(Noted(c, m, codes, found), NextOf(c, m).pos)
  {
    hide Escape, VersionHead.ParseV1, NextOf, ColonOf, Plain, Disjoint;
    var pos' := NextOf(c, m).pos;
    Onward(c, m);
    if Escape(m.key) == V {
      VersionApart(found, Noted(c, m, codes, found), c.pos, pos');
    } else if IndexOf(codes, Escape(m.key)).Some? {
      SlotApart(found, IndexOf(codes, Escape(m.key)).value, TextSpan(c, m), c.pos, pos');
    }
  }

  lemma Onward(c: Cursor, m: Member)
    ensures c.pos < NextOf(c, m).pos
    ensures m.value.Text? && Plain(m.value.text) ==> c.pos <= TextSpan(c, m).0 <= TextSpan(c, m).1 < NextOf(c, m).pos
  {
    hide Escape;
    if m.value.Text? && Plain(m.value.text) {
      PlainIsUnescaped(m.value.text);
    }
  }

  lemma SlotApart(found: Sad, i: nat, span: (nat, nat), pos: nat, pos': nat)
    requires Apart(found, pos) && pos <= span.0 <= span.1 < pos'
    ensures Apart(found.(spans := found.spans[i := span]), pos')
  {
  }

  lemma VersionApart(found: Sad, sad: Sad, pos: nat, pos': nat)
    requires Apart(found, pos) && sad.spans == found.spans && pos <= pos'
    requires sad.version.Some? && pos <= VersionSpan(sad).0 && VersionSpan(sad).1 < pos'
    ensures Apart(sad, pos')
  {
  }

  /** The slots and the version string that a scan notes are apart. */
  lemma ScannedApart(s: bytes, codes: SadCodes) returns (pos: nat)
    requires |s| <= ISIZE_MAX && ScanSad(s, codes).Got?
    ensures Apart(ScanSad(s, codes).value, pos)
  {
    hide ScanSad, SadOf, ObjectIn, Scannable;
    ScanSadExact(s, codes);
    pos := SadApart(INSIDE, ObjectIn(s).value, codes, NOTHING);
  }
}
