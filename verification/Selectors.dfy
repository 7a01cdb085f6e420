/** Which code table an enclosed payload is read with. */
module Selectors {
  import opened Prelude
  import opened CounterCodes
  import opened Primitives
  import opened Enclosures
  import opened Forests

  /** `-_AAA`, the counter that selects a code table, before a version of three digits: the major
      version above twelve bits of the minor one. */
  function Selector(major: nat, minor: nat): bytes
    requires major < 64 && minor < 4096
  {
    Ascii("-_AAA") + SoftField(4096 * major + minor, 3)
  }

  /** The selectors of version 1.0 and version 2.0. */
  lemma SelectorsSpelled()
    ensures Selector(1, 0) == Ascii("-_AAABAA") && Selector(2, 0) == Ascii("-_AAACAA")
  {
    SelectorDigits(1);
    SelectorDigits(2);
  }

  lemma SelectorDigits(major: nat)
    requires major < 64
    ensures SoftField(4096 * major, 3) == [B64Char(major), 65, 65]
  {
    hide B64Char, SoftField;
    OneDigit(major);
    ZeroDigit(major, 1);
    ZeroDigit(64 * major, 2);
  }

  lemma OneDigit(n: nat)
    requires n < 64
    ensures SoftField(n, 1) == [B64Char(n)]
  {
    assert SoftField(n / 64, 0) == [];
  }

  lemma ZeroDigit(n: nat, width: nat)
    ensures SoftField(64 * n, width + 1) == SoftField(n, width) + [65]
  {
    hide SoftField;
    assert (64 * n) / 64 == n && (64 * n) % 64 == 0;
    LastSoftDigit(64 * n, width + 1);
  }

  lemma LastSoftDigit(n: nat, width: nat)
    requires width > 0
    ensures SoftField(n, width) == SoftField(n / 64, width - 1) + [B64Char(n % 64)]
  {
  }

  predicate BeginsLikeSelector(s: bytes) {
    |s| >= 2 && s[0] == '-' as int && s[1] == '_' as int
  }

  lemma SelectorIsCounter(major: nat, minor: nat, p: bytes)
    requires major < 64 && minor < 4096
    ensures |Selector(major, minor)| == 8 && BeginsLikeSelector(Selector(major, minor) + p)
    ensures ReadCounter(V2, Selector(major, minor) + p) == Ok(Counter(Genus, 4096 * major + minor))
  {
    hide SoftField, ReadCounter;
    var c := Counter(Genus, 4096 * major + minor);
    assert Pow64(3) == 0x4_0000;
    assert Print(c) == Selector(major, minor);
    ReadPrinted(V2, c, p);
  }

  lemma Versions(major: nat, minor: nat)
    requires minor < 4096
    ensures (4096 * major + minor) / 4096 == major
  {
  }

  lemma PlainPayload(p: bytes, outer: CesrVersion)
    requires !BeginsLikeSelector(p)
    ensures EnclosedVersion(p, outer) == Ok((outer, 0))
  {
  }

  lemma SelectedPayload(major: nat, minor: nat, p: bytes, outer: CesrVersion)
    requires major < 64 && minor < 4096
    ensures EnclosedVersion(Selector(major, minor) + p, outer) ==
      if major == 1 then Ok((V1, 8)) else if major == 2 then Ok((V2, 8)) else Err(UnsupportedGenusVersion(major))
  {
    hide ReadCounter, Selector;
    SelectorIsCounter(major, minor, p);
    Versions(major, minor);
  }

  /** A payload without a selector is walked with the table of the group around it. */
  lemma UnselectedScan(t: CodeTables, lim: FrameLimits, p: bytes, prior: nat, outer: CesrVersion)
    requires t.WellFormed() && !BeginsLikeSelector(p)
    ensures Scan(t, lim, p, prior, outer) ==
      if lim.maxNestingDepth == 0 then Err(LimitExceeded(NestingDepth, 0, 1))
      else
        var walk := Walk(t, lim, p, 1, outer, Tally(0, prior));
        if walk.Err? then Err(walk.error) else Ok(walk.value.sigs - prior)
    ensures PayloadForest(t, p, outer) == ParseForest(t, p, outer)
  {
    hide Walk, ParseForest;
    PlainPayload(p, outer);
    assert p[0..] == p;
  }

  /** Main result: a selector decides the table of what follows it by its major version alone,
      whatever the table of the group around it, and every other major version is refused. */
  lemma SelectedScan(t: CodeTables, lim: FrameLimits, major: nat, minor: nat, p: bytes, prior: nat, outer: CesrVersion)
    requires t.WellFormed() && major < 64 && minor < 4096 && !BeginsLikeSelector(p)
    ensures Scan(t, lim, Selector(major, minor) + p, prior, outer) ==
      if lim.maxNestingDepth == 0 then Err(LimitExceeded(NestingDepth, 0, 1))
      else if major == 1 then Scan(t, lim, p, prior, V1)
      else if major == 2 then Scan(t, lim, p, prior, V2)
      else Err(UnsupportedGenusVersion(major))
    ensures PayloadForest(t, Selector(major, minor) + p, outer) ==
      if major == 1 then PayloadForest(t, p, V1)
      else if major == 2 then PayloadForest(t, p, V2)
      else None
  {
    hide Walk, ParseForest, Selector;
    SelectedPayload(major, minor, p, outer);
    SelectorIsCounter(major, minor, p);
    assert (Selector(major, minor) + p)[8..] == p;
    PlainPayload(p, V1);
    PlainPayload(p, V2);
    assert p[0..] == p;
  }

  /** A selector that is cut short is refused, and a payload that only begins like one is read as it
      stands. */
  lemma BrokenSelector(t: CodeTables, lim: FrameLimits, p: bytes, prior: nat, outer: CesrVersion)
    requires t.WellFormed() && BeginsLikeSelector(p) && lim.maxNestingDepth > 0
    ensures |p| < 8 ==> Scan(t, lim, p, prior, outer) == Err(Truncated(8 - |p|)) && PayloadForest(t, p, outer) == None
    ensures |p| >= 8 && !(exists major: nat, minor: nat :: major < 64 && minor < 4096 && Selector(major, minor) <= p) ==>
      PayloadForest(t, p, outer) == ParseForest(t, p, outer)
  {
    hide Walk, ParseForest, ReadCounter;
    if |p| >= 8 && ReadCounter(V2, p).Ok? && ReadCounter(V2, p).value.code.Genus? {
      PrintRead(V2, p);
      SpelledSelector(p, ReadCounter(V2, p).value.count);
    }
    assert p[0..] == p;
  }

  lemma SpelledSelector(p: bytes, count: nat)
    requires |p| >= 8 && count < 0x4_0000 && Print(Counter(Genus, count)) == p[..8]
    ensures count / 4096 < 64 && count % 4096 < 4096 && Selector(count / 4096, count % 4096) <= p
  {
    assert 4096 * (count / 4096) + count % 4096 == count;
    assert Print(Counter(Genus, count)) == Selector(count / 4096, count % 4096);
  }
}
