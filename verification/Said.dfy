/** Self-addressing digests of canonical JSON documents: each digestive field holds the digest of the
    document with every digestive field dummied. */
module Saids {
  import opened Prelude
  import opened JsonTexts
  import opened SadScans
  import opened SadSlots

  // ── Digests ────────────────────────────────────────────────────────────

  const BLAKE3_256: DigestCode := 0
  const SLOT_WIDTH: nat := 44
  const DUMMY: byte := 35

  /** Digest computation, the qb64 width of each code and the code a qb64 text announces, all taken
      as given. */
  datatype Suite = Suite(infer: bytes -> Option<DigestCode>, width: DigestCode -> nat, digest: (DigestCode, bytes) -> bytes) {
    /** A digest has the width of its code, is plain text and announces its code. */
    ghost predicate Sound() {
      && width(BLAKE3_256) == SLOT_WIDTH
      && forall code: DigestCode, s: bytes ::
           && |digest(code, s)| == width(code)
           && Plain(digest(code, s))
           && ValidUtf8(digest(code, s))
           && infer(digest(code, s)) == Some(code)
    }
  }

  function Dummies(n: nat): (r: bytes)
    ensures |r| == n && forall i | 0 <= i < n :: r[i] == '#' as int
  {
    seq(n, _ => DUMMY)
  }

  lemma DummiesArePlain(n: nat)
    ensures Plain(Dummies(n)) && ValidUtf8(Dummies(n))
  {
    if n > 0 {
      AsciiUtf8(Ready, Dummies(n));
    }
  }

  // ── Saidify and verify ─────────────────────────────────────────────────

  /** Every configured field was found. */
  predicate Complete(codes: SadCodes, sad: Sad) {
    forall i | 0 <= i < |codes| :: i in sad.spans
  }

  function Width(s: bytes, sad: Sad, i: nat): nat
    requires InBounds(s, sad) && i in sad.spans
  {
    sad.spans[i].1 - sad.spans[i].0
  }

  /** `require_slot_widths` from slot `i` on. */
  function CheckWidths(suite: Suite, s: bytes, codes: SadCodes, sad: Sad, i: nat): Read<()>
    requires InBounds(s, sad) && Complete(codes, sad) && i <= |codes|
    decreases |codes| - i
  {
    if i == |codes| then Got(())
    else if Width(s, sad, i) != suite.width(codes[i].1) then Bad(InvalidSlotWidth(suite.width(codes[i].1), Width(s, sad, i)))
    else CheckWidths(suite, s, codes, sad, i + 1)
  }

  /** The document with its own size in its version string. */
  function Sized(s: bytes, sad: Sad): (r: bytes)
    requires InBounds(s, sad)
    ensures |r| == |s|
  {
    if sad.version.Some? then Splice(s, sad.version.value.0 + SIZE_AT, Hex6(|s|)) else s
  }

  /** The document with its first `n` slots dummied. */
  function Blanked(s: bytes, sad: Sad, n: nat): (r: bytes)
    requires InBounds(s, sad)
    ensures |r| == |s|
  {
    if n == 0 then s
    else if n - 1 !in sad.spans then Blanked(s, sad, n - 1)
    else Splice(Blanked(s, sad, n - 1), sad.spans[n - 1].0, Dummies(Width(s, sad, n - 1)))
  }

  /** The texts are as wide as the slots they go into. */
  predicate PartsFit(s: bytes, sad: Sad, parts: seq<bytes>)
    requires InBounds(s, sad)
  {
    forall i | 0 <= i < |parts| && i in sad.spans :: |parts[i]| == Width(s, sad, i)
  }

  /** The document with `parts` in its first `n` slots. */
  function Filled(s: bytes, sad: Sad, parts: seq<bytes>, n: nat): (r: bytes)
    requires InBounds(s, sad) && n <= |parts| && PartsFit(s, sad, parts)
    ensures |r| == |s|
  {
    if n == 0 then s
    else if n - 1 !in sad.spans then Filled(s, sad, parts, n - 1)
    else Splice(Filled(s, sad, parts, n - 1), sad.spans[n - 1].0, parts[n - 1])
  }

  /** `compute_said_fields`: every digest over the one rendering. */
  function Digests(suite: Suite, codes: SadCodes, s: bytes): (r: seq<bytes>)
    ensures |r| == |codes|
  {
    seq(|codes|, i requires 0 <= i < |codes| => suite.digest(codes[i].1, s))
  }

  lemma {:induction false} DigestsFit(suite: Suite, s: bytes, codes: SadCodes, sad: Sad, i: nat, blank: bytes)
    requires suite.Sound() && InBounds(s, sad) && Complete(codes, sad) && i <= |codes| && |blank| == |s|
    requires CheckWidths(suite, s, codes, sad, i).Got?
    ensures forall k | i <= k < |codes| :: |Digests(suite, codes, blank)[k]| == Width(s, sad, k)
    ensures InBounds(blank, sad)
    ensures i == 0 ==> PartsFit(blank, sad, Digests(suite, codes, blank))
    decreases |codes| - i
  {
    if i < |codes| {
      DigestsFit(suite, s, codes, sad, i + 1, blank);
    }
  }

  /** `SadCodes::saidify`. */
  function Saidified(suite: Suite, s: bytes, codes: SadCodes): Read<bytes>
    requires suite.Sound()
  {
    var sad :- ScanSad(s, codes);
    SadInBounds(s, codes);
    if !Complete(codes, sad) then Bad(MissingDigestiveField) else
      var widths :- CheckWidths(suite, s, codes, sad, 0);
      if sad.version.Some? && |s| > SIZE_MAX then Bad(SizeOverflow(|s|)) else
        var blank := Blanked(Sized(s, sad), sad, |codes|);
        DigestsFit(suite, s, codes, sad, 0, blank);
        Got(Filled(blank, sad, Digests(suite, codes, blank), |codes|))
  }

  /** `SadCodes::verify`: the declared size is the length, and every slot holds the digest of the
      document with all slots dummied. */
  function Verified(suite: Suite, raw: bytes, codes: SadCodes): Read<()> {
    var sad :- ScanSad(raw, codes);
    SadInBounds(raw, codes);
    if !Complete(codes, sad) then Bad(MissingDigestiveField)
    else if sad.version.Some? && sad.version.value.1 != |raw| then Bad(BadVersionString)
    else if Holds(raw, sad, Digests(suite, codes, Blanked(raw, sad, |codes|))) then Got(())
    else Bad(SaidMismatch)
  }

  /** Every slot holds its part. */
  predicate Holds(s: bytes, sad: Sad, parts: seq<bytes>)
    requires InBounds(s, sad)
  {
    forall i | 0 <= i < |parts| && i in sad.spans :: s[sad.spans[i].0..sad.spans[i].1] == parts[i]
  }

  // ── In place ───────────────────────────────────────────────────────────

  /** Overwrite a fixed-width slot in place. */
  method PatchSlot(buf: array<byte>, at: nat, replacement: bytes)
    requires at + |replacement| <= buf.Length
    modifies buf
    ensures buf[..] == Splice(old(buf[..]), at, replacement)
  {
    var i := 0;
    while i < |replacement|
      invariant i <= |replacement|
      invariant forall k | 0 <= k < buf.Length :: buf[k] == if at <= k < at + i then replacement[k - at] else old(buf[k])
    {
      buf[at + i] := replacement[i];
      i := i + 1;
    }
  }

  method FillSpan(buf: array<byte>, from: nat, to: nat)
    requires from <= to <= buf.Length
    modifies buf
    ensures buf[..] == Splice(old(buf[..]), from, Dummies(to - from))
  {
    PatchSlot(buf, from, Dummies(to - from));
  }

  method RequireAllConfigured(codes: SadCodes, sad: Sad) returns (r: Read<()>)
    ensures r == if Complete(codes, sad) then Got(()) else Bad(MissingDigestiveField)
  {
    for i := 0 to |codes|
      invariant forall k | 0 <= k < i :: k in sad.spans
    {
      if i !in sad.spans {
        return Bad(MissingDigestiveField);
      }
    }
    r := Got(());
  }

  method RequireSlotWidths(suite: Suite, s: bytes, codes: SadCodes, sad: Sad) returns (r: Read<()>)
    requires InBounds(s, sad) && Complete(codes, sad)
    ensures r == CheckWidths(suite, s, codes, sad, 0)
  {
    for i := 0 to |codes|
      invariant CheckWidths(suite, s, codes, sad, 0) == CheckWidths(suite, s, codes, sad, i)
    {
      var expected := suite.width(codes[i].1);
      if Width(s, sad, i) != expected {
        return Bad(InvalidSlotWidth(expected, Width(s, sad, i)));
      }
    }
    r := Got(());
  }

  /** Every slot is dummied before any digest is computed. */
  method DummySlots(buf: array<byte>, codes: SadCodes, sad: Sad)
    requires InBounds(buf[..], sad)
    modifies buf
    ensures buf[..] == Blanked(old(buf[..]), sad, |codes|)
  {
    hide Splice, Dummies;
    ghost var before := buf[..];
    for i := 0 to |codes|
      invariant buf[..] == Blanked(before, sad, i)
    {
      if i in sad.spans {
        FillSpan(buf, sad.spans[i].0, sad.spans[i].1);
      }
    }
  }

  /** Every digest is computed before any is spliced in. */
  method FillSlots(buf: array<byte>, codes: SadCodes, sad: Sad, parts: seq<bytes>)
    requires InBounds(buf[..], sad) && |parts| == |codes| && PartsFit(buf[..], sad, parts)
    modifies buf
    ensures buf[..] == Filled(old(buf[..]), sad, parts, |codes|)
  {
    hide Splice;
    ghost var before := buf[..];
    for i := 0 to |codes|
      invariant buf[..] == Filled(before, sad, parts, i)
    {
      if i in sad.spans {
        PatchSlot(buf, sad.spans[i].0, parts[i]);
      }
    }
  }

  method ComputeSaidFields(suite: Suite, codes: SadCodes, s: bytes) returns (parts: seq<bytes>)
    ensures parts == Digests(suite, codes, s)
  {
    parts := [];
    for i := 0 to |codes|
      invariant parts == Digests(suite, codes, s)[..i]
    {
      parts := parts + [suite.digest(codes[i].1, s)];
    }
  }

  /** `SadCodes::saidify`, in place; a document it refuses is left as it was. */
  method Saidify(suite: Suite, sad: array<byte>, codes: SadCodes) returns (r: Read<()>)
    requires suite.Sound() && sad.Length <= ISIZE_MAX
    modifies sad
    ensures match Saidified(suite, old(sad[..]), codes)
      case Got(s) => r == Got(()) && sad[..] == s
      case Bad(e) => r == Bad(e) && sad[..] == old(sad[..])
  {
    hide ScanSad, Splice, Hex6, Digests, Blanked, Filled, Complete, CheckWidths, Suite.Sound;
    ghost var s := sad[..];
    var scan := Scan(sad[..], codes);
    SadInBounds(s, codes);
    if scan.Bad? {
      return Bad(scan.error);
    }
    r := RequireAllConfigured(codes, scan.value);
    if r.Bad? {
      return;
    }
    r := RequireSlotWidths(suite, sad[..], codes, scan.value);
    if r.Bad? {
      return;
    }
    if scan.value.version.Some? {
      if sad.Length > SIZE_MAX {
        return Bad(SizeOverflow(sad.Length));
      }
      PatchSlot(sad, scan.value.version.value.0 + SIZE_AT, Hex6(sad.Length));
    }
    DummySlots(sad, codes, scan.value);
    var computed := ComputeSaidFields(suite, codes, sad[..]);
    DigestsFit(suite, s, codes, scan.value, 0, sad[..]);
    FillSlots(sad, codes, scan.value, computed);
    r := Got(());
  }

  /** `SadCodes::verify`, over one scratch copy. */
  method Verify(suite: Suite, raw: bytes, codes: SadCodes) returns (r: Read<()>)
    requires |raw| <= ISIZE_MAX
    ensures r == Verified(suite, raw, codes)
  {
    hide ScanSad, Splice, Digests, Blanked, Complete;
    var scan := Scan(raw, codes);
    SadInBounds(raw, codes);
    if scan.Bad? {
      return Bad(scan.error);
    }
    r := RequireAllConfigured(codes, scan.value);
    if r.Bad? {
      return;
    }
    if scan.value.version.Some? && scan.value.version.value.1 != |raw| {
      return Bad(BadVersionString);
    }
    var scratch := new byte[|raw|](i requires 0 <= i < |raw| => raw[i]);
    assert scratch[..] == raw;
    DummySlots(scratch, codes, scan.value);
    var computed := ComputeSaidFields(suite, codes, scratch[..]);
    for i := 0 to |computed|
      invariant forall k | 0 <= k < i && k in scan.value.spans :: raw[scan.value.spans[k].0..scan.value.spans[k].1] == computed[k]
    {
      if i in scan.value.spans && raw[scan.value.spans[i].0..scan.value.spans[i].1] != computed[i] {
        return Bad(SaidMismatch);
      }
    }
    r := Got(());
  }

  // ── What saidify makes, verify accepts ─────────────────────────────────

  /** The byte at `k` belongs to one of the first `n` slots. */
  ghost predicate InSlot(sad: Sad, n: nat, k: nat) {
    exists i: nat :: i < n && i in sad.spans && sad.spans[i].0 <= k < sad.spans[i].1
  }

  lemma {:induction false} BlankedAt(s: bytes, sad: Sad, n: nat, k: nat)
    requires InBounds(s, sad) && k < |s|
    ensures Blanked(s, sad, n)[k] == if InSlot(sad, n, k) then DUMMY else s[k]
  {
    if n > 0 {
      BlankedAt(s, sad, n - 1, k);
    }
  }

  lemma {:induction false} FilledAt(s: bytes, sad: Sad, parts: seq<bytes>, n: nat, k: nat)
    requires InBounds(s, sad) && n <= |parts| && PartsFit(s, sad, parts) && k < |s|
    ensures !InSlot(sad, n, k) ==> Filled(s, sad, parts, n)[k] == s[k]
  {
    if n > 0 {
      FilledAt(s, sad, parts, n - 1, k);
    }
  }

  lemma {:induction false} FilledHolds(s: bytes, sad: Sad, parts: seq<bytes>, n: nat, i: nat, pos: nat)
    requires InBounds(s, sad) && n <= |parts| && PartsFit(s, sad, parts) && Apart(sad, pos) && i < n && i in sad.spans
    ensures Filled(s, sad, parts, n)[sad.spans[i].0..sad.spans[i].1] == parts[i]
  {
    var (from, to) := sad.spans[i];
    if i < n - 1 {
      FilledHolds(s, sad, parts, n - 1, i, pos);
      if n - 1 in sad.spans {
        var before := Filled(s, sad, parts, n - 1);
        assert Splice(before, sad.spans[n - 1].0, parts[n - 1])[from..to] == before[from..to];
      }
    }
  }

  /** Dummying undoes filling. */
  lemma BlankedFilled(s: bytes, sad: Sad, parts: seq<bytes>, n: nat)
    requires InBounds(s, sad) && n == |parts| && PartsFit(s, sad, parts)
    ensures Blanked(Filled(s, sad, parts, n), sad, n) == Blanked(s, sad, n)
  {
    hide Blanked, Filled, InSlot;
    var filled := Filled(s, sad, parts, n);
    forall k | 0 <= k < |s|
      ensures Blanked(filled, sad, n)[k] == Blanked(s, sad, n)[k]
    {
      BlankedAt(filled, sad, n, k);
      BlankedAt(s, sad, n, k);
      FilledAt(s, sad, parts, n, k);
    }
  }

  lemma BlankedTwice(s: bytes, sad: Sad, n: nat)
    requires InBounds(s, sad)
    ensures Blanked(Blanked(s, sad, n), sad, n) == Blanked(s, sad, n)
  {
    hide Blanked, InSlot;
    var blank := Blanked(s, sad, n);
    forall k | 0 <= k < |s|
      ensures Blanked(blank, sad, n)[k] == blank[k]
    {
      BlankedAt(blank, sad, n, k);
      BlankedAt(s, sad, n, k);
    }
  }

  lemma {:induction false} BlankedScan(s: bytes, codes: SadCodes, n: nat)
    requires |s| <= ISIZE_MAX && ScanSad(s, codes).Got? && InBounds(s, ScanSad(s, codes).value)
    ensures ScanSad(Blanked(s, ScanSad(s, codes).value, n), codes) == ScanSad(s, codes)
  {
    hide ScanSad, Splice, Dummies, Plain, Utf8Run;
    if n > 0 {
      var sad := ScanSad(s, codes).value;
      BlankedScan(s, codes, n - 1);
      if n - 1 in sad.spans {
        DummiesArePlain(Width(s, sad, n - 1));
        SlotKept(Blanked(s, sad, n - 1), codes, n - 1, Dummies(Width(s, sad, n - 1)));
      }
    }
  }

  lemma {:induction false} FilledScan(s: bytes, codes: SadCodes, parts: seq<bytes>, n: nat)
    requires |s| <= ISIZE_MAX && ScanSad(s, codes).Got? && InBounds(s, ScanSad(s, codes).value)
    requires n <= |parts| && PartsFit(s, ScanSad(s, codes).value, parts)
    requires forall i | 0 <= i < |parts| :: Plain(parts[i]) && ValidUtf8(parts[i])
    ensures ScanSad(Filled(s, ScanSad(s, codes).value, parts, n), codes) == ScanSad(s, codes)
  {
    hide ScanSad, Splice, Plain, Utf8Run;
    if n > 0 {
      var sad := ScanSad(s, codes).value;
      FilledScan(s, codes, parts, n - 1);
      if n - 1 in sad.spans {
        SlotKept(Filled(s, sad, parts, n - 1), codes, n - 1, parts[n - 1]);
      }
    }
  }

  /** The scan of a document that was sized, dummied and filled. */
  lemma SaidifiedScan(suite: Suite, s: bytes, codes: SadCodes)
    requires suite.Sound() && |s| <= ISIZE_MAX && Saidified(suite, s, codes).Got?
    ensures var sad := ScanSad(s, codes).value;
            ScanSad(Saidified(suite, s, codes).value, codes)
            == Got(if sad.version.Some? then sad.(version := Some((sad.version.value.0, |s|))) else sad)
  {
    hide ScanSad, Splice, Hex6, Digests, Blanked, Filled, CheckWidths, Plain, Utf8Run;
    var sad := ScanSad(s, codes).value;
    SadInBounds(s, codes);
    if sad.version.Some? {
      VersionKept(s, codes, |s|);
    }
    var sized := Sized(s, sad);
    var sad' := ScanSad(sized, codes).value;
    SadInBounds(sized, codes);
    SameSlots(sized, sad, sad', |codes|);
    BlankedScan(sized, codes, |codes|);
    var blank := Blanked(sized, sad', |codes|);
    var parts := Digests(suite, codes, blank);
    DigestsFit(suite, s, codes, sad, 0, blank);
    DigestsArePlain(suite, codes, blank);
    SameParts(blank, sad, sad', parts, |codes|);
    FilledScan(blank, codes, parts, |codes|);
  }

  lemma DigestsArePlain(suite: Suite, codes: SadCodes, s: bytes)
    requires suite.Sound()
    ensures forall i | 0 <= i < |codes| :: Plain(Digests(suite, codes, s)[i]) && ValidUtf8(Digests(suite, codes, s)[i])
  {
    hide Plain, Utf8Run;
    forall i | 0 <= i < |codes|
      ensures Plain(Digests(suite, codes, s)[i]) && ValidUtf8(Digests(suite, codes, s)[i])
    {
      var digest := suite.digest(codes[i].1, s);
    }
  }

  lemma {:induction false} SameSlots(s: bytes, sad: Sad, sad': Sad, n: nat)
    requires InBounds(s, sad) && InBounds(s, sad') && sad.spans == sad'.spans
    ensures Blanked(s, sad, n) == Blanked(s, sad', n)
  {
    hide Splice, Dummies;
    if n > 0 {
      SameSlots(s, sad, sad', n - 1);
    }
  }

  lemma {:induction false} SameParts(s: bytes, sad: Sad, sad': Sad, parts: seq<bytes>, n: nat)
    requires InBounds(s, sad) && InBounds(s, sad') && sad.spans == sad'.spans && n <= |parts| && PartsFit(s, sad, parts)
    ensures PartsFit(s, sad', parts) && Filled(s, sad, parts, n) == Filled(s, sad', parts, n)
  {
    hide Splice;
    if n > 0 {
      SameParts(s, sad, sad', parts, n - 1);
    }
  }

  /** Main result: whatever the document and whatever the labels, what `saidify` produces has the
      length it started with and is accepted by `verify`. */
  lemma SaidifyThenVerify(suite: Suite, s: bytes, codes: SadCodes)
    requires suite.Sound() && |s| <= ISIZE_MAX && Saidified(suite, s, codes).Got?
    ensures var done := Saidified(suite, s, codes).value;
            && |done| == |s|
            && Verified(suite, done, codes) == Got(())
  {
    hide ScanSad, Splice, Hex6, Digests, Blanked, Filled, CheckWidths, Suite.Sound;
    var sad := ScanSad(s, codes).value;
    SadInBounds(s, codes);
    var blank := Blanked(Sized(s, sad), sad, |codes|);
    var parts := Digests(suite, codes, blank);
    DigestsFit(suite, s, codes, sad, 0, blank);
    var done := Filled(blank, sad, parts, |codes|);
    SaidifiedScan(suite, s, codes);
    SadInBounds(done, codes);
    var sad' := ScanSad(done, codes).value;
    BlankedFilled(blank, sad, parts, |codes|);
    BlankedTwice(Sized(s, sad), sad, |codes|);
    SameSlots(done, sad, sad', |codes|);
    var pos := ScannedApart(s, codes);
    forall i | 0 <= i < |parts| && i in sad.spans
      ensures done[sad.spans[i].0..sad.spans[i].1] == parts[i]
    {
      FilledHolds(blank, sad, parts, |codes|, i, pos);
    }
  }
}
