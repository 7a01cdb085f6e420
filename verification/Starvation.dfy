/** Which calls ask for more bytes as an error, and why more bytes never help them. */
module Starvation {
  import opened Prelude
  import opened CounterCodes
  import opened Primitives
  import opened VersionHead
  import opened GroupGrammar
  import opened GroupCursors
  import opened GroupLimits
  import opened Enclosures
  import opened FrameGrammar
  import opened Events

  // ── Inside a payload ───────────────────────────────────────────────────

  /** The walk of `s` comes to stand in front of `x`: everything before `x` was accepted and counted
      within the limits. */
  ghost predicate Reaches(t: CodeTables, lim: FrameLimits, s: bytes, depth: nat, version: CesrVersion, tally: Tally, x: bytes)
    requires t.WellFormed()
    decreases |s|
  {
    x == s ||
    (s != [] &&
     if s[0] != DASH then
       && SkipAtom(t, lim, s).Ok?
       && var atom := SkipAtom(t, lim, s).value;
       && tally.sigs + atom.sigs <= lim.maxSignatures
       && Reaches(t, lim, s[atom.len..], depth, version, Tally(tally.groups, tally.sigs + atom.sigs), x)
     else
       && tally.groups + 1 <= lim.maxNestedGroups
       && NextGroup(t, lim, s, version, tally.sigs).Ok?
       && var (head, extent) := NextGroup(t, lim, s, version, tally.sigs).value;
       && BeyondHead(t, lim, s, depth, version, Tally(tally.groups + 1, tally.sigs + extent.sigs), head, extent, x))
  }

  /** The same behind the counter of a framed group: in its payload, or behind the whole group. */
  ghost predicate BeyondHead(t: CodeTables, lim: FrameLimits, s: bytes, depth: nat, version: CesrVersion, entered: Tally, head: GroupHead, extent: Extent, x: bytes)
    requires t.WellFormed() && 4 <= head.start <= extent.len <= |s|
    decreases |s|, 0
  {
    if !head.IsEnclosing() then Reaches(t, lim, s[extent.len..], depth, version, entered, x)
    else
      && depth + 1 <= lim.maxNestingDepth
      && var inner := s[head.start..extent.len];
      && EnclosedVersion(inner, version).Ok?
      && var (innerVersion, offset) := EnclosedVersion(inner, version).value;
      && var enclosed := Walk(t, lim, inner[offset..], depth + 1, innerVersion, entered);
      && (|| Reaches(t, lim, inner[offset..], depth + 1, innerVersion, entered, x)
          || (enclosed.Ok? && Reaches(t, lim, s[extent.len..], depth, version, enclosed.value, x)))
  }

  /** An embedded body or primitive that lacks `missing` bytes. */
  predicate PartialAtom(t: CodeTables, lim: FrameLimits, x: bytes, missing: nat)
    requires t.WellFormed()
  {
    x != [] && x[0] != DASH && SkipAtom(t, lim, x) == Err(NeedBytes(missing))
  }

  ghost predicate Strands(t: CodeTables, lim: FrameLimits, s: bytes, depth: nat, version: CesrVersion, tally: Tally, missing: nat)
    requires t.WellFormed()
  {
    exists x :: Reaches(t, lim, s, depth, version, tally, x) && PartialAtom(t, lim, x, missing)
  }

  /** Group heads, group spans and version selectors never ask for more bytes inside a payload. */
  lemma NextGroupIsClosed(t: CodeTables, lim: FrameLimits, s: bytes, version: CesrVersion, signatures: nat)
    requires t.WellFormed()
    ensures !NextGroup(t, lim, s, version, signatures).Starved()
    ensures !EnclosedVersion(s, version).Starved()
  {
    hide ReadHead, BoundedGroup;
  }

  lemma {:induction false} WalkStrands(t: CodeTables, lim: FrameLimits, s: bytes, depth: nat, version: CesrVersion, tally: Tally, missing: nat)
    requires t.WellFormed()
    ensures Walk(t, lim, s, depth, version, tally) == Err(NeedBytes(missing)) <==> Strands(t, lim, s, depth, version, tally, missing)
    decreases |s|
  {
    hide Walk, SkipAtom, NextGroup, EnclosedVersion;
    if s == [] {
      WalkEmpty(t, lim, s, depth, version, tally);
    } else if s[0] != DASH {
      var atom := SkipAtom(t, lim, s);
      WalkAtom(t, lim, s, depth, version, tally, atom);
      if atom.Ok? && tally.sigs + atom.value.sigs <= lim.maxSignatures {
        WalkStrands(t, lim, s[atom.value.len..], depth, version, Tally(tally.groups, tally.sigs + atom.value.sigs), missing);
      } else if atom == Err(NeedBytes(missing)) {
        assert Reaches(t, lim, s, depth, version, tally, s);
      }
    } else if tally.groups + 1 > lim.maxNestedGroups {
      WalkTooManyGroups(t, lim, s, depth, version, tally);
    } else {
      var group := NextGroup(t, lim, s, version, tally.sigs);
      NextGroupIsClosed(t, lim, s, version, tally.sigs);
      WalkGroup(t, lim, s, depth, version, tally, group);
      if group.Ok? {
        var (head, extent) := group.value;
        AfterGroupStrands(t, lim, s, depth, version, Tally(tally.groups + 1, tally.sigs + extent.sigs), head, extent, missing);
      }
    }
  }

  ghost predicate StrandsBeyond(t: CodeTables, lim: FrameLimits, s: bytes, depth: nat, version: CesrVersion, entered: Tally, head: GroupHead, extent: Extent, missing: nat)
    requires t.WellFormed() && 4 <= head.start <= extent.len <= |s|
  {
    exists x :: BeyondHead(t, lim, s, depth, version, entered, head, extent, x) && PartialAtom(t, lim, x, missing)
  }

  /** Beyond a counter, a walk strands in the payload, or behind the group once that has passed. */
  lemma BeyondEither(t: CodeTables, lim: FrameLimits, s: bytes, depth: nat, version: CesrVersion, entered: Tally, head: GroupHead, extent: Extent, missing: nat)
    requires t.WellFormed() && 4 <= head.start <= extent.len <= |s|
    ensures var inner := s[head.start..extent.len];
            StrandsBeyond(t, lim, s, depth, version, entered, head, extent, missing) <==>
              if !head.IsEnclosing() then Strands(t, lim, s[extent.len..], depth, version, entered, missing)
              else
                && depth + 1 <= lim.maxNestingDepth
                && EnclosedVersion(inner, version).Ok?
                && var (innerVersion, offset) := EnclosedVersion(inner, version).value;
                && var enclosed := Walk(t, lim, inner[offset..], depth + 1, innerVersion, entered);
                && (|| Strands(t, lim, inner[offset..], depth + 1, innerVersion, entered, missing)
                    || (enclosed.Ok? && Strands(t, lim, s[extent.len..], depth, version, enclosed.value, missing)))
  {
    hide Walk, PartialAtom, EnclosedVersion, Reaches;
  }

  /** The same of the walk's own answers. */
  lemma AfterGroupStarves(t: CodeTables, lim: FrameLimits, s: bytes, depth: nat, version: CesrVersion, entered: Tally, head: GroupHead, extent: Extent, missing: nat)
    requires t.WellFormed() && 4 <= head.start <= extent.len <= |s|
    ensures var inner := s[head.start..extent.len];
            AfterGroup(t, lim, s, depth, version, entered, head, extent) == Err(NeedBytes(missing)) <==>
              if !head.IsEnclosing() then Walk(t, lim, s[extent.len..], depth, version, entered) == Err(NeedBytes(missing))
              else
                && depth + 1 <= lim.maxNestingDepth
                && EnclosedVersion(inner, version).Ok?
                && var (innerVersion, offset) := EnclosedVersion(inner, version).value;
                && var enclosed := Walk(t, lim, inner[offset..], depth + 1, innerVersion, entered);
                && (|| enclosed == Err(NeedBytes(missing))
                    || (enclosed.Ok? && Walk(t, lim, s[extent.len..], depth, version, enclosed.value) == Err(NeedBytes(missing))))
  {
    hide Walk, EnclosedVersion;
    NextGroupIsClosed(t, lim, s[head.start..extent.len], version, 0);
  }

  lemma {:induction false} AfterGroupStrands(t: CodeTables, lim: FrameLimits, s: bytes, depth: nat, version: CesrVersion, entered: Tally, head: GroupHead, extent: Extent, missing: nat)
    requires t.WellFormed() && 4 <= head.start <= extent.len <= |s|
    ensures AfterGroup(t, lim, s, depth, version, entered, head, extent) == Err(NeedBytes(missing))
       <==> StrandsBeyond(t, lim, s, depth, version, entered, head, extent, missing)
    decreases |s|, 0
  {
    hide Walk, AfterGroup, EnclosedVersion, Strands, StrandsBeyond;
    BeyondEither(t, lim, s, depth, version, entered, head, extent, missing);
    AfterGroupStarves(t, lim, s, depth, version, entered, head, extent, missing);
    if !head.IsEnclosing() {
      WalkStrands(t, lim, s[extent.len..], depth, version, entered, missing);
    } else if depth + 1 <= lim.maxNestingDepth && EnclosedVersion(s[head.start..extent.len], version).Ok? {
      var inner := s[head.start..extent.len];
      var (innerVersion, offset) := EnclosedVersion(inner, version).value;
      WalkStrands(t, lim, inner[offset..], depth + 1, innerVersion, entered, missing);
      var enclosed := Walk(t, lim, inner[offset..], depth + 1, innerVersion, entered);
      if enclosed.Ok? {
        WalkStrands(t, lim, s[extent.len..], depth, version, enclosed.value, missing);
      }
    }
  }

  /** A payload whose scan comes to an atom that lacks `missing` bytes, with everything before it
      within the limits. */
  ghost predicate StrandsIn(t: CodeTables, lim: FrameLimits, payload: bytes, prior: nat, version: CesrVersion, missing: nat)
    requires t.WellFormed()
  {
    && lim.maxNestingDepth > 0
    && EnclosedVersion(payload, version).Ok?
    && var (innerVersion, offset) := EnclosedVersion(payload, version).value;
    && Strands(t, lim, payload[offset..], 1, innerVersion, Tally(0, prior), missing)
  }

  lemma ScanStrands(t: CodeTables, lim: FrameLimits, payload: bytes, prior: nat, version: CesrVersion, missing: nat)
    requires t.WellFormed()
    ensures Scan(t, lim, payload, prior, version) == Err(NeedBytes(missing)) <==> StrandsIn(t, lim, payload, prior, version, missing)
  {
    hide Walk, Strands, EnclosedVersion;
    NextGroupIsClosed(t, lim, payload, version, 0);
    var chosen := EnclosedVersion(payload, version);
    if chosen.Ok? {
      WalkStrands(t, lim, payload[chosen.value.1..], 1, chosen.value.0, Tally(0, prior), missing);
    }
  }

  // ── In a frame ─────────────────────────────────────────────────────────

  /** A whole group and the payload it encloses; `prior` counts the signatures before it. */
  predicate Encloses(t: CodeTables, g: GroupPos, tail: bytes, b: Bounds, sigs: nat, payload: bytes, prior: nat)
    requires t.WellFormed() && g.Fits(tail, b)
  {
    && RunFrom(t, g, tail, b).Ok?
    && g.head.IsEnclosing()
    && var extent := RunFrom(t, g, tail, b).value;
    && payload == tail[g.head.start..extent.len]
    && prior == sigs + extent.sigs
  }

  /** The attachment loop comes to a whole group that encloses `payload`, every group before it
      having passed. */
  ghost predicate Examines(t: CodeTables, lim: FrameLimits, s: bytes, eof: bool, ev: Event, payload: bytes, prior: nat)
    requires t.WellFormed() && ev.Fits(lim, s) && ev.cursor <= |s|
    decreases lim.maxAttachmentGroups - ev.groups, if ev.active.Some? then 0 else 1
  {
    || (ev.active.Some? && Encloses(t, ev.active.value, s[ev.cursor..], ev.Allowance(lim), ev.sigs, payload, prior))
    || (OneTurn(t, lim, s, eof, ev).Continue? && Examines(t, lim, s, eof, OneTurn(t, lim, s, eof, ev).next, payload, prior))
  }

  /** Framing `s` comes to a whole group that encloses `payload`: the standalone group, or one of
      the attachments of a complete body. */
  ghost predicate FrameExamines(t: CodeTables, lim: FrameLimits, s: bytes, eof: bool, payload: bytes, prior: nat)
    requires t.WellFormed()
  {
    s != [] && Detect(s[0]).Ok? &&
    var cold := Detect(s[0]).value;
    if cold == CesrBase64 then
      && OpenGroup(lim, s, 0, eof).Ok? && OpenGroup(lim, s, 0, eof).value.Some?
      && Encloses(t, StartOf(OpenGroup(lim, s, 0, eof).value.value), s, BareBounds(lim), 0, payload, prior)
    else
      && IsBody(cold)
      && var bodyLen := BodyLength(lim, |s|, eof, EventSize(s, cold));
      && bodyLen.Ok? && bodyLen.value.Some? && bodyLen.value.value <= |s|
      && Examines(t, lim, s, eof, BodyOnly(bodyLen.value.value), payload, prior)
  }

  lemma CloseStrands(t: CodeTables, lim: FrameLimits, s: bytes, eof: bool, ev: Event, missing: nat)
    requires t.WellFormed() && ev.Fits(lim, s) && ev.active.Some?
    ensures CloseGroup(t, lim, s, eof, ev) == Stop(Err(NeedBytes(missing)))
       <==> exists payload, prior ::
              && Encloses(t, ev.active.value, s[ev.cursor..], ev.Allowance(lim), ev.sigs, payload, prior)
              && StrandsIn(t, lim, payload, prior, V1, missing)
  {
    hide RunFrom, Scan, StrandsIn;
    var g, tail := ev.active.value, s[ev.cursor..];
    var r := RunFrom(t, g, tail, ev.Allowance(lim));
    if r.Ok? && g.head.IsEnclosing() {
      var payload, prior := tail[g.head.start..r.value.len], ev.sigs + r.value.sigs;
      assert Encloses(t, g, tail, ev.Allowance(lim), ev.sigs, payload, prior);
      ScanStrands(t, lim, payload, prior, V1, missing);
    }
  }

  lemma {:induction false} GroupsStrand(t: CodeTables, lim: FrameLimits, s: bytes, eof: bool, ev: Event, missing: nat)
    requires t.WellFormed() && ev.Fits(lim, s) && ev.cursor <= |s|
    ensures GroupsFrom(t, lim, s, eof, ev) == Err(NeedBytes(missing))
       <==> exists payload, prior :: Examines(t, lim, s, eof, ev, payload, prior) && StrandsIn(t, lim, payload, prior, V1, missing)
    decreases lim.maxAttachmentGroups - ev.groups, if ev.active.Some? then 0 else 1
  {
    hide CloseGroup, NextItem, GroupsFrom, StrandsIn, RunFrom;
    UnfoldGroups(t, lim, s, eof, ev);
    var turn := OneTurn(t, lim, s, eof, ev);
    if ev.active.Some? {
      CloseStrands(t, lim, s, eof, ev, missing);
    } else {
      ItemNeverStrands(t, lim, s, eof, ev);
    }
    if turn.Continue? {
      GroupsStrand(t, lim, s, eof, turn.next, missing);
    }
  }

  lemma ItemNeverStrands(t: CodeTables, lim: FrameLimits, s: bytes, eof: bool, ev: Event)
    requires t.WellFormed() && ev.Fits(lim, s) && ev.cursor <= |s| && ev.active.None?
    ensures NextItem(t, lim, s, eof, ev).Stop? ==> !NextItem(t, lim, s, eof, ev).outcome.Starved()
  {
    hide OpenGroup;
  }

  /** Main result: a frame's error is `NeedBytes` exactly when its current group is whole, encloses
      a payload, and the scan of the payload comes to a partial atom. */
  lemma FrameStrands(t: CodeTables, lim: FrameLimits, s: bytes, eof: bool, missing: nat)
    requires t.WellFormed()
    ensures Frame(t, lim, s, eof) == Err(NeedBytes(missing))
       <==> exists payload, prior :: FrameExamines(t, lim, s, eof, payload, prior) && StrandsIn(t, lim, payload, prior, V1, missing)
  {
    hide GroupsFrom, Examines, Encloses, BareFrom, OpenGroup, EventSize, StrandsIn;
    if s != [] && Detect(s[0]).Ok? {
      var cold := Detect(s[0]).value;
      if cold == CesrBase64 {
        var head := OpenGroup(lim, s, 0, eof);
        if head.Ok? && head.value.Some? {
          BareStrands(t, lim, s, eof, StartOf(head.value.value), missing);
        }
      } else if IsBody(cold) {
        SizeIsPositive(s, cold);
        var bodyLen := BodyLength(lim, |s|, eof, EventSize(s, cold));
        if bodyLen.Ok? && bodyLen.value.Some? && bodyLen.value.value <= |s| {
          GroupsStrand(t, lim, s, eof, BodyOnly(bodyLen.value.value), missing);
        }
      }
    }
  }

  lemma BareStrands(t: CodeTables, lim: FrameLimits, s: bytes, eof: bool, g: GroupPos, missing: nat)
    requires t.WellFormed() && g.Fits(s, BareBounds(lim))
    ensures BareFrom(t, lim, s, eof, g) == Err(NeedBytes(missing))
       <==> exists payload, prior :: Encloses(t, g, s, BareBounds(lim), 0, payload, prior) && StrandsIn(t, lim, payload, prior, V1, missing)
  {
    hide RunFrom, Scan, StrandsIn;
    var r := RunFrom(t, g, s, BareBounds(lim));
    if r.Ok? && g.head.IsEnclosing() {
      var payload, prior := s[g.head.start..r.value.len], r.value.sigs;
      assert Encloses(t, g, s, BareBounds(lim), 0, payload, prior);
      ScanStrands(t, lim, payload, prior, V1, missing);
    }
  }

  // ── More bytes never help ──────────────────────────────────────────────

  lemma EnclosesForGood(t: CodeTables, g: GroupPos, s: bytes, x: bytes, b: Bounds, sigs: nat, payload: bytes, prior: nat)
    requires t.WellFormed() && s <= x && g.Fits(s, b) && Encloses(t, g, s, b, sigs, payload, prior)
    ensures Encloses(t, g, x, b, sigs, payload, prior)
  {
    hide RunFrom;
    RunStable(t, g, s, x, b);
    SliceOfPrefix(s, x, g.head.start, RunFrom(t, g, s, b).value.len);
  }

  lemma {:induction false} ExaminesForGood(t: CodeTables, lim: FrameLimits, s: bytes, eof: bool, x: bytes, eof': bool, ev: Event, payload: bytes, prior: nat)
    requires t.WellFormed() && s <= x && ev.Fits(lim, s) && ev.cursor <= |s| && Examines(t, lim, s, eof, ev, payload, prior)
    ensures Examines(t, lim, x, eof', ev, payload, prior)
    decreases lim.maxAttachmentGroups - ev.groups, if ev.active.Some? then 0 else 1
  {
    hide CloseGroup, NextItem, Encloses, RunFrom;
    var turn := OneTurn(t, lim, s, eof, ev);
    SliceOfPrefix(s, x, ev.cursor, ev.cursor);
    if ev.active.Some? && Encloses(t, ev.active.value, s[ev.cursor..], ev.Allowance(lim), ev.sigs, payload, prior) {
      EnclosesForGood(t, ev.active.value, s[ev.cursor..], x[ev.cursor..], ev.Allowance(lim), ev.sigs, payload, prior);
    } else {
      ContinuesForGood(t, lim, s, eof, x, eof', ev);
      ExaminesForGood(t, lim, s, eof, x, eof', turn.next, payload, prior);
    }
  }

  lemma ContinuesForGood(t: CodeTables, lim: FrameLimits, s: bytes, eof: bool, x: bytes, eof': bool, ev: Event)
    requires t.WellFormed() && s <= x && ev.Fits(lim, s) && ev.cursor <= |s| && OneTurn(t, lim, s, eof, ev).Continue?
    ensures OneTurn(t, lim, x, eof', ev) == OneTurn(t, lim, s, eof, ev)
  {
    hide RunFrom, EnclosedSigs, ReadHead;
    SliceOfPrefix(s, x, ev.cursor, ev.cursor);
    if ev.active.Some? {
      ClosedForGood(t, lim, s, eof, ev, x, eof');
    } else {
      ReadHeadStable(V1, s[ev.cursor..], x[ev.cursor..]);
    }
  }

  lemma FrameExaminesForGood(t: CodeTables, lim: FrameLimits, s: bytes, eof: bool, x: bytes, eof': bool, payload: bytes, prior: nat)
    requires t.WellFormed() && s <= x && FrameExamines(t, lim, s, eof, payload, prior)
    ensures FrameExamines(t, lim, x, eof', payload, prior)
  {
    hide Examines, Encloses, ReadHead, EventSize;
    assert x[0] == s[0];
    var cold := Detect(s[0]).value;
    if cold == CesrBase64 {
      ReadHeadStable(V1, s, x);
      EnclosesForGood(t, StartOf(OpenGroup(lim, s, 0, eof).value.value), s, x, BareBounds(lim), 0, payload, prior);
    } else {
      HeadSizingIsFinal(s, x, cold);
      var bodyLen := BodyLength(lim, |s|, eof, EventSize(s, cold)).value.value;
      ExaminesForGood(t, lim, s, eof, x, eof', BodyOnly(bodyLen), payload, prior);
    }
  }

  /** Main result: the bytes that a stranded frame asks for never help it. Every longer input, open
      or ended, meets the same error. */
  lemma StrandedForGood(t: CodeTables, lim: FrameLimits, s: bytes, eof: bool, x: bytes, eof': bool, missing: nat)
    requires t.WellFormed() && s <= x && Frame(t, lim, s, eof) == Err(NeedBytes(missing))
    ensures Frame(t, lim, x, eof') == Err(NeedBytes(missing))
  {
    hide Frame, FrameExamines, StrandsIn;
    FrameStrands(t, lim, s, eof, missing);
    var payload, prior :| FrameExamines(t, lim, s, eof, payload, prior) && StrandsIn(t, lim, payload, prior, V1, missing);
    FrameExaminesForGood(t, lim, s, eof, x, eof', payload, prior);
    FrameStrands(t, lim, x, eof', missing);
  }

  // ── An input ───────────────────────────────────────────────────────────

  /** `-VAB{   `: an attachment envelope, whole, around the first four bytes of a JSON body. */
  const CUT_SHORT: bytes := [45, 86, 65, 66, 123, 32, 32, 32]

  lemma EnvelopeHead()
    ensures ReadHead(V1, CUT_SHORT) == Ok(GroupHead(V1, Quadlets(true, true), 1, 4))
  {
    hide ReadCounter, Print;
    EnvelopePrint();
    ReadPrinted(V1, Counter(Small(86), 1), CUT_SHORT[4..]);
  }

  lemma EnvelopePrint()
    ensures CUT_SHORT == Print(Counter(Small(86), 1)) + CUT_SHORT[4..]
  {
    assert SoftField(1, 1) == [66];
    assert SoftField(1, 2) == [65, 66];
    assert Print(Counter(Small(86), 1)) == [45, 86, 65, 66];
  }

  lemma PartialBody(t: CodeTables, lim: FrameLimits, x: bytes)
    requires t.WellFormed() && x == [123, 32, 32, 32]
    ensures SkipAtom(t, lim, x) == Err(NeedBytes(1))
    ensures EnclosedVersion(x, V1) == Ok((V1, 0))
  {
    assert JsonHeadFrom(x, 4, BeforeKey) == Err(NeedBytes(1));
    assert JsonHeadFrom(x, 2, BeforeKey) == JsonHeadFrom(x, 3, BeforeKey) == JsonHeadFrom(x, 4, BeforeKey);
    assert JsonHead(x) == Err(NeedBytes(1));
  }

  lemma EnvelopeIsWhole(t: CodeTables, lim: FrameLimits, eof: bool)
    requires t.WellFormed() && lim.maxAttachmentBytes >= 8
    ensures FrameExamines(t, lim, CUT_SHORT, eof, CUT_SHORT[4..8], 0)
  {
    hide ReadHead, RunFrom, Encloses, Examines, EventSize;
    EnvelopeHead();
    EnvelopeSpan(t, lim, StartOf(GroupHead(V1, Quadlets(true, true), 1, 4)));
    assert Detect(CUT_SHORT[0]) == Ok(CesrBase64);
  }

  lemma EnvelopeSpan(t: CodeTables, lim: FrameLimits, g: GroupPos)
    requires t.WellFormed() && lim.maxAttachmentBytes >= 8 && g == StartOf(GroupHead(V1, Quadlets(true, true), 1, 4))
    ensures g.Fits(CUT_SHORT, BareBounds(lim)) && Encloses(t, g, CUT_SHORT, BareBounds(lim), 0, CUT_SHORT[4..8], 0)
  {
    hide Detect, ReadHead;
  }

  /** It is refused for a missing byte before and at the end of input, and whatever follows it. */
  lemma CutShortStrands(t: CodeTables, lim: FrameLimits, more: bytes, eof: bool)
    requires t.WellFormed() && lim.maxAttachmentBytes >= 8 && lim.maxNestingDepth > 0
    ensures Frame(t, lim, CUT_SHORT + more, eof) == Err(NeedBytes(1))
  {
    hide Reaches, SkipAtom, EnclosedVersion, FrameExamines, Frame;
    var x := CUT_SHORT[4..8];
    PartialBody(t, lim, x);
    StandsAtStart(t, lim, x, 1, V1, Tally(0, 0));
    assert x[0..] == x && PartialAtom(t, lim, x, 1);
    assert Strands(t, lim, x, 1, V1, Tally(0, 0), 1);
    assert StrandsIn(t, lim, x, 0, V1, 1);
    EnvelopeIsWhole(t, lim, eof);
    FrameStrands(t, lim, CUT_SHORT, eof, 1);
    StrandedForGood(t, lim, CUT_SHORT, eof, CUT_SHORT + more, eof, 1);
  }

  lemma StandsAtStart(t: CodeTables, lim: FrameLimits, s: bytes, depth: nat, version: CesrVersion, tally: Tally)
    requires t.WellFormed()
    ensures Reaches(t, lim, s, depth, version, tally, s)
  {
  }
}
