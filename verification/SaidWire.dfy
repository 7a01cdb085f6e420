/** What saidifying writes and what verifying checks, byte by byte. */
module SaidWire {
  import opened Prelude
  import opened JsonTexts
  import opened SadScans
  import opened SadSlots
  import opened Saids
  import opened SaidFixpoints

  /** The document with `#` all over its digests. */
  ghost predicate Dummied(s: bytes, sad: Sad, n: nat, blank: bytes) {
    |blank| == |s| && forall k | 0 <= k < |s| :: blank[k] == if InSlot(sad, n, k) then '#' as int else s[k]
  }

  lemma DummiedIsBlanked(s: bytes, sad: Sad, n: nat, blank: bytes)
    requires InBounds(s, sad)
    ensures Dummied(s, sad, n, blank) <==> blank == Blanked(s, sad, n)
  {
    hide Blanked, InSlot;
    forall k | 0 <= k < |s|
      ensures Blanked(s, sad, n)[k] == if InSlot(sad, n, k) then '#' as int else s[k]
    {
      BlankedAt(s, sad, n, k);
    }
  }

  /** Every slot holds the digest, under its own code, of the document with `#` all over the digests. */
  ghost predicate Digested(suite: Suite, codes: SadCodes, s: bytes, sad: Sad)
    requires InBounds(s, sad)
  {
    forall i, blank | 0 <= i < |codes| && i in sad.spans && Dummied(s, sad, |codes|, blank) ::
      s[sad.spans[i].0..sad.spans[i].1] == suite.digest(codes[i].1, blank)
  }

  lemma HoldsIsDigested(suite: Suite, codes: SadCodes, s: bytes, sad: Sad)
    requires InBounds(s, sad)
    ensures Holds(s, sad, Digests(suite, codes, Blanked(s, sad, |codes|))) <==> Digested(suite, codes, s, sad)
  {
    hide Blanked, Dummied;
    var blank := Blanked(s, sad, |codes|);
    var parts := Digests(suite, codes, blank);
    DummiedIsBlanked(s, sad, |codes|, blank);
    if Digested(suite, codes, s, sad) {
      forall i | 0 <= i < |parts| && i in sad.spans
        ensures s[sad.spans[i].0..sad.spans[i].1] == parts[i]
      {
      }
    }
    if Holds(s, sad, parts) {
      forall i, blank' | 0 <= i < |codes| && i in sad.spans && Dummied(s, sad, |codes|, blank')
        ensures s[sad.spans[i].0..sad.spans[i].1] == suite.digest(codes[i].1, blank')
      {
        DummiedIsBlanked(s, sad, |codes|, blank');
        assert parts[i] == suite.digest(codes[i].1, blank);
      }
    }
  }

  /** Main result: a document verifies exactly if it is scanned, every configured field is there, the
      declared size is its length, and every digest is that of the document with its digests dummied. */
  lemma VerifiedExact(suite: Suite, s: bytes, codes: SadCodes)
    ensures Verified(suite, s, codes) == Got(()) <==>
      && ScanSad(s, codes).Got?
      && var sad := ScanSad(s, codes).value;
      && (forall i | 0 <= i < |codes| :: i in sad.spans)
      && (sad.version.Some? ==> sad.version.value.1 == |s|)
      && InBounds(s, sad) && Digested(suite, codes, s, sad)
  {
    hide ScanSad, Blanked, Digests, Digested, Holds;
    SadInBounds(s, codes);
    if ScanSad(s, codes).Got? {
      HoldsIsDigested(suite, codes, s, ScanSad(s, codes).value);
    }
  }

  lemma {:induction false} WidthsExact(suite: Suite, s: bytes, codes: SadCodes, sad: Sad, i: nat)
    requires InBounds(s, sad) && Complete(codes, sad) && i <= |codes|
    ensures CheckWidths(suite, s, codes, sad, i).Got? <==>
      forall k | i <= k < |codes| :: sad.spans[k].1 - sad.spans[k].0 == suite.width(codes[k].1)
    decreases |codes| - i
  {
    if i < |codes| {
      WidthsExact(suite, s, codes, sad, i + 1);
    }
  }

  /** Main result: saidifying succeeds exactly if the document is scanned, every configured field is
      there in the width of its code, and a version string has room for the length. */
  lemma SaidifiesExactly(suite: Suite, s: bytes, codes: SadCodes)
    requires suite.Sound()
    ensures Saidified(suite, s, codes).Got? <==>
      && ScanSad(s, codes).Got?
      && var sad := ScanSad(s, codes).value;
      && (forall i | 0 <= i < |codes| :: i in sad.spans && sad.spans[i].1 == sad.spans[i].0 + suite.width(codes[i].1))
      && (sad.version.Some? ==> |s| <= 0xFF_FFFF)
  {
    hide ScanSad, Blanked, Filled, Digests, CheckWidths, Suite.Sound;
    SadInBounds(s, codes);
    if ScanSad(s, codes).Got? && Complete(codes, ScanSad(s, codes).value) {
      WidthsExact(suite, s, codes, ScanSad(s, codes).value, 0);
    }
  }

  /** Main result: of a document it accepts, saidifying keeps every byte outside the digests and the
      size field, writes the length there, and makes every digest that of what results. */
  lemma SaidifiedBytes(suite: Suite, s: bytes, codes: SadCodes, sad: Sad)
    requires suite.Sound() && |s| <= ISIZE_MAX && Saidified(suite, s, codes).Got? && ScanSad(s, codes) == Got(sad)
    ensures var done := Saidified(suite, s, codes).value;
            && |done| == |s| && InBounds(s, sad)
            && (forall k | 0 <= k < |s| && !InSlot(sad, |codes|, k) && !InSizeField(sad, k) :: done[k] == s[k])
            && (sad.version.Some? ==> SizeField(done, sad) == Hex6(|s|))
            && InBounds(done, sad) && Digested(suite, codes, done, sad)
  {
    hide ScanSad, Splice, Hex6, Digests, Blanked, Filled, CheckWidths, Digested, InSlot, Verified, Suite.Sound, Holds;
    SadInBounds(s, codes);
    var sized := Sized(s, sad);
    var blank := Blanked(sized, sad, |codes|);
    DigestsFit(suite, s, codes, sad, 0, blank);
    var done := Saidified(suite, s, codes).value;
    forall k | 0 <= k < |s| && !InSlot(sad, |codes|, k)
      ensures done[k] == sized[k]
    {
      FilledAt(blank, sad, Digests(suite, codes, blank), |codes|, k);
      BlankedAt(sized, sad, |codes|, k);
    }
    if sad.version.Some? {
      SaidifiedSize(suite, s, codes, sad);
      SpliceKeeps(s, sad.version.value.0 + SIZE_AT, Hex6(|s|));
    }
    SaidifyThenVerify(suite, s, codes);
    VerifiedExact(suite, done, codes);
    SaidifiedScan(suite, s, codes);
    SameDigested(suite, codes, done, ScanSad(done, codes).value, sad);
  }

  /** The byte at `k` is one of the six size digits. */
  predicate InSizeField(sad: Sad, k: nat) {
    sad.version.Some? && sad.version.value.0 + 10 <= k < sad.version.value.0 + 16
  }

  lemma SpliceKeeps(s: bytes, at: nat, part: bytes)
    requires at + |part| <= |s|
    ensures forall k | 0 <= k < |s| && !(at <= k < at + |part|) :: Splice(s, at, part)[k] == s[k]
  {
  }

  lemma SameDigested(suite: Suite, codes: SadCodes, s: bytes, sad: Sad, sad': Sad)
    requires InBounds(s, sad) && InBounds(s, sad') && sad.spans == sad'.spans && Digested(suite, codes, s, sad)
    ensures Digested(suite, codes, s, sad')
  {
    forall i, blank | 0 <= i < |codes| && i in sad'.spans && Dummied(s, sad', |codes|, blank)
      ensures s[sad'.spans[i].0..sad'.spans[i].1] == suite.digest(codes[i].1, blank)
    {
      SameSlot(sad, sad', |codes|);
      assert Dummied(s, sad, |codes|, blank);
    }
  }

  lemma SameSlot(sad: Sad, sad': Sad, n: nat)
    requires sad.spans == sad'.spans
    ensures forall k :: InSlot(sad, n, k) <==> InSlot(sad', n, k)
  {
  }
}
