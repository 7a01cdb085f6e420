/** Which limit a refusal names. */
module Refusals {
  import opened Prelude
  import opened CounterCodes
  import opened Primitives
  import opened VersionHead
  import opened GroupGrammar
  import opened Enclosures
  import opened FrameGrammar
  import opened Events
  import opened GroupCodec

  /** What the caller allows of a kind. */
  function LimitOf(lim: FrameLimits, kind: LimitKind): nat {
    match kind
    case BodyBytes => lim.maxBodyBytes
    case AttachmentBytes => lim.maxAttachmentBytes
    case AttachmentGroups => lim.maxAttachmentGroups
    case GroupElements => lim.maxGroupElements
    case Signatures => lim.maxSignatures
    case NestedGroups => lim.maxNestedGroups
    case NestingDepth => lim.maxNestingDepth
  }

  /** A refusal for a limit names the caller's limit of that kind; for attachment bytes, and unless
      `exact` for signatures, it may name what is left of it. */
  predicate NamesLimit(lim: FrameLimits, exact: bool, e: ParseError) {
    e.LimitExceeded? ==>
      && e.limit <= LimitOf(lim, e.kind)
      && (e.kind != AttachmentBytes && (exact || e.kind != Signatures) ==> e.limit == LimitOf(lim, e.kind))
  }

  predicate Names<T>(lim: FrameLimits, exact: bool, r: Result<T>) {
    r.Err? ==> NamesLimit(lim, exact, r.error)
  }

  /** No limit is the reason. */
  predicate Unlimited<T>(r: Result<T>) {
    r.Err? ==> !r.error.LimitExceeded?
  }

  // ── Below the limits ───────────────────────────────────────────────────

  lemma CountersUnlimited(version: CesrVersion, s: bytes)
    ensures Unlimited(ReadCounter(version, s)) && Unlimited(ReadHead(version, s))
  {
    if s != [] && CodeFromStream(version, s).Ok? {
      var code := CodeFromStream(version, s).value;
      if |s| >= code.FullSize() {
        DigitsUnlimited(s[code.HardSize()..code.FullSize()]);
      }
    }
  }

  lemma {:induction false} DigitsUnlimited(s: bytes)
    ensures Unlimited(DecodeInt(s))
    decreases |s|
  {
    if s != [] {
      DigitsUnlimited(s[..|s| - 1]);
    }
  }

  lemma SpansUnlimited(t: CodeTables, s: bytes)
    requires t.WellFormed()
    ensures Unlimited(MatterCode(t, s)) && Unlimited(MatterSpan(t, s)) && Unlimited(IndexerSpan(t, s))
  {
  }

  lemma {:induction false} RunsUnlimited(t: CodeTables, s: bytes, pos: nat, left: nat)
    requires t.WellFormed() && pos <= |s|
    ensures Unlimited(MattersFrom(t, s, pos, left)) && Unlimited(IndexersFrom(t, s, pos, left))
    decreases left
  {
    hide MatterSpan, IndexerSpan;
    if left > 0 {
      SpansUnlimited(t, s[pos..]);
      if MatterSpan(t, s[pos..]).Ok? {
        RunsUnlimited(t, s, pos + MatterSpan(t, s[pos..]).value, left - 1);
      }
      if IndexerSpan(t, s[pos..]).Ok? {
        RunsUnlimited(t, s, pos + IndexerSpan(t, s[pos..]).value, left - 1);
      }
    }
  }

  lemma SizesUnlimited(s: bytes, cold: ColdCode)
    ensures Unlimited(EventSize(s, cold))
  {
    hide JsonHeadFrom, ParseV1, ParsesAsV2, LooksLikeShortV2, BinaryVersionOffset;
    HeadUnlimited(s, 1, BeforeKey);
    BinaryUnlimited(s, cold);
    if VersionOffset(s, cold).Ok? {
      VersionUnlimited(s[VersionOffset(s, cold).value..]);
    }
  }

  lemma VersionUnlimited(s: bytes)
    ensures Unlimited(ParseV1(s))
  {
    hide HexSize;
  }

  lemma BinaryUnlimited(s: bytes, cold: ColdCode)
    ensures Unlimited(BinaryVersionOffset(s, cold))
  {
    hide BigEndian;
  }

  lemma {:induction false} HeadUnlimited(s: bytes, offset: nat, state: JsonHeadState)
    ensures Unlimited(JsonHeadFrom(s, offset, state))
    decreases |s| - offset
  {
    if offset < |s| && JsonStep(state, s[offset]).Some? {
      HeadUnlimited(s, offset + 1, JsonStep(state, s[offset]).value);
    }
  }

  lemma SelectorsUnlimited(payload: bytes, outer: CesrVersion)
    ensures Unlimited(EnclosedVersion(payload, outer))
  {
    hide ReadCounter;
  }

  // ── Groups ─────────────────────────────────────────────────────────────

  /** A refusal of a group under its bounds. */
  predicate NamesBound<T>(b: Bounds, r: Result<T>) {
    r.Err? && r.error.LimitExceeded? ==>
      || (r.error.kind == GroupElements && r.error.limit == b.maxElements)
      || (r.error.kind == Signatures && r.error.limit <= b.maxSignatures)
      || (r.error.kind == AttachmentBytes && r.error.limit == b.maxBytes)
  }

  lemma ElementNames(t: CodeTables, head: GroupHead, s: bytes, p: Partial, maxElements: nat, maxSignatures: nat)
    requires t.WellFormed() && p.pos <= |s| && Inside(head, p) && p.Declared() <= maxSignatures
    ensures var r := ElementFrom(t, head, s, p, maxElements, maxSignatures);
            r.Err? && r.error.LimitExceeded? ==>
              || (r.error.kind == GroupElements && r.error.limit == maxElements)
              || (r.error.kind == Signatures && r.error.limit == maxSignatures)
  {
    hide MattersFrom, IndexersFrom, ReadCounter, IndexerSpan;
    RunsUnlimited(t, s, p.pos, p.mattersLeft);
    var pos := MattersFrom(t, s, p.pos, p.mattersLeft);
    if pos.Ok? {
      CountersUnlimited(head.version, s[pos.value..]);
      SpansUnlimited(t, s[pos.value..]);
      if p.run.Some? {
        RunsUnlimited(t, s, pos.value, p.run.value.left);
      } else if head.layout.tail == NestedSigs && NestedCounter(head.version, s[pos.value..], maxElements, maxSignatures).Ok? {
        var c := NestedCounter(head.version, s[pos.value..], maxElements, maxSignatures).value;
        RunsUnlimited(t, s, pos.value + c.code.FullSize(), c.count);
      }
    }
  }

  lemma {:induction false} ElementsName(t: CodeTables, g: GroupPos, s: bytes, b: Bounds)
    requires t.WellFormed() && g.Fits(s, b) && g.end <= b.maxBytes && g.KnownSignatures() <= b.maxSignatures
    ensures NamesBound(b, ElementsFrom(t, g, s, b))
    decreases g.remaining
  {
    hide ElementFrom;
    if g.remaining > 0 {
      var w := Window(s, g.end, b.maxBytes);
      ElementNames(t, g.head, w, g.part, b.maxElements, b.maxSignatures - g.sigs);
      var element := ElementFrom(t, g.head, w, g.part, b.maxElements, b.maxSignatures - g.sigs);
      if element.Ok? {
        ElementsName(t, NextElement(g, element.value), s, b);
      }
    }
  }

  lemma RunNames(t: CodeTables, g: GroupPos, s: bytes, b: Bounds)
    requires t.WellFormed() && g.Fits(s, b)
    ensures NamesBound(b, RunFrom(t, g, s, b))
  {
    hide ElementsFrom;
    if g.KnownSignatures() <= b.maxSignatures && g.end <= b.maxBytes {
      ElementsName(t, g, s, b);
    }
  }

  // ── Payloads ───────────────────────────────────────────────────────────

  lemma AtomNames(t: CodeTables, lim: FrameLimits, s: bytes)
    requires t.WellFormed()
    ensures Names(lim, true, SkipAtom(t, lim, s))
  {
    hide EventSize, MatterCode, MatterSpan;
    SpansUnlimited(t, s);
    if s != [] && Detect(s[0]).Ok? {
      SizesUnlimited(s, Detect(s[0]).value);
    }
  }

  /** Inside a payload no byte budget applies, so none is named. */
  lemma NextNames(t: CodeTables, lim: FrameLimits, s: bytes, version: CesrVersion, signatures: nat)
    requires t.WellFormed() && |s| <= ISIZE_MAX
    ensures Names(lim, true, NextGroup(t, lim, s, version, signatures))
    ensures NextGroup(t, lim, s, version, signatures).Err? && NextGroup(t, lim, s, version, signatures).error.LimitExceeded? ==>
      NextGroup(t, lim, s, version, signatures).error.kind != AttachmentBytes
  {
    hide ReadHead, RunFrom;
    CountersUnlimited(version, s);
    var head := ReadHead(version, s);
    if head.Ok? {
      var b := Bounds(USIZE_MAX, lim.maxGroupElements, SaturatingSub(lim.maxSignatures, signatures));
      RunNames(t, StartOf(head.value), s, b);
      NoByteBudget(t, StartOf(head.value), s, b);
    }
  }

  lemma NoByteBudget(t: CodeTables, g: GroupPos, s: bytes, b: Bounds)
    requires t.WellFormed() && g.Fits(s, b) && b.maxBytes == USIZE_MAX && |s| <= ISIZE_MAX && g.end <= USIZE_MAX
    ensures RunFrom(t, g, s, b).Err? && RunFrom(t, g, s, b).error.LimitExceeded? ==> RunFrom(t, g, s, b).error.kind != AttachmentBytes
  {
    hide ElementsFrom;
    if g.KnownSignatures() <= b.maxSignatures {
      NoElementBudget(t, g, s, b);
    }
  }

  lemma {:induction false} NoElementBudget(t: CodeTables, g: GroupPos, s: bytes, b: Bounds)
    requires t.WellFormed() && g.Fits(s, b) && b.maxBytes == USIZE_MAX && |s| <= ISIZE_MAX && g.end <= USIZE_MAX
    requires g.KnownSignatures() <= b.maxSignatures
    ensures ElementsFrom(t, g, s, b).Err? && ElementsFrom(t, g, s, b).error.LimitExceeded? ==> ElementsFrom(t, g, s, b).error.kind != AttachmentBytes
    decreases g.remaining
  {
    hide ElementFrom;
    if g.remaining > 0 {
      var w := Window(s, g.end, b.maxBytes);
      ElementNames(t, g.head, w, g.part, b.maxElements, b.maxSignatures - g.sigs);
      var element := ElementFrom(t, g.head, w, g.part, b.maxElements, b.maxSignatures - g.sigs);
      if element.Ok? {
        NoElementBudget(t, NextElement(g, element.value), s, b);
      }
    }
  }

  lemma {:induction false} WalkNames(t: CodeTables, lim: FrameLimits, s: bytes, depth: nat, version: CesrVersion, tally: Tally)
    requires t.WellFormed() && |s| <= ISIZE_MAX
    ensures Names(lim, true, Walk(t, lim, s, depth, version, tally))
    decreases |s|
  {
    hide Walk, SkipAtom, NextGroup, EnclosedVersion;
    if s == [] {
      WalkEmpty(t, lim, s, depth, version, tally);
    } else if s[0] != DASH {
      var atom := SkipAtom(t, lim, s);
      AtomNames(t, lim, s);
      WalkAtom(t, lim, s, depth, version, tally, atom);
      if atom.Ok? {
        WalkNames(t, lim, s[atom.value.len..], depth, version, Tally(tally.groups, tally.sigs + atom.value.sigs));
      }
    } else if tally.groups + 1 > lim.maxNestedGroups {
      WalkTooManyGroups(t, lim, s, depth, version, tally);
    } else {
      var group := NextGroup(t, lim, s, version, tally.sigs);
      NextNames(t, lim, s, version, tally.sigs);
      WalkGroup(t, lim, s, depth, version, tally, group);
      if group.Ok? {
        AfterNames(t, lim, s, depth, version, Tally(tally.groups + 1, tally.sigs + group.value.1.sigs), group.value.0, group.value.1);
      }
    }
  }

  lemma {:induction false} AfterNames(t: CodeTables, lim: FrameLimits, s: bytes, depth: nat, version: CesrVersion, entered: Tally, head: GroupHead, extent: Extent)
    requires t.WellFormed() && |s| <= ISIZE_MAX && 4 <= head.start <= extent.len <= |s|
    ensures Names(lim, true, AfterGroup(t, lim, s, depth, version, entered, head, extent))
    decreases |s|, 0
  {
    hide Walk, EnclosedVersion;
    var inner := s[head.start..extent.len];
    SelectorsUnlimited(inner, version);
    if !head.IsEnclosing() {
      WalkNames(t, lim, s[extent.len..], depth, version, entered);
    } else if EnclosedVersion(inner, version).Ok? {
      var (innerVersion, offset) := EnclosedVersion(inner, version).value;
      WalkNames(t, lim, inner[offset..], depth + 1, innerVersion, entered);
      var enclosed := Walk(t, lim, inner[offset..], depth + 1, innerVersion, entered);
      if enclosed.Ok? {
        WalkNames(t, lim, s[extent.len..], depth, version, enclosed.value);
      }
    }
  }

  lemma ScanNames(t: CodeTables, lim: FrameLimits, payload: bytes, prior: nat, version: CesrVersion)
    requires t.WellFormed() && |payload| <= ISIZE_MAX
    ensures Names(lim, true, Scan(t, lim, payload, prior, version))
  {
    hide Walk, EnclosedVersion;
    SelectorsUnlimited(payload, version);
    if EnclosedVersion(payload, version).Ok? {
      var (innerVersion, offset) := EnclosedVersion(payload, version).value;
      WalkNames(t, lim, payload[offset..], 1, innerVersion, Tally(0, prior));
    }
  }

  // ── Frames ─────────────────────────────────────────────────────────────

  lemma CloseNames(t: CodeTables, lim: FrameLimits, s: bytes, eof: bool, ev: Event)
    requires t.WellFormed() && |s| <= ISIZE_MAX && ev.Fits(lim, s) && ev.active.Some?
    ensures CloseGroup(t, lim, s, eof, ev).Stop? ==> Names(lim, true, CloseGroup(t, lim, s, eof, ev).outcome)
  {
    hide RunFrom, Scan;
    var g, tail := ev.active.value, s[ev.cursor..];
    RunNames(t, g, tail, ev.Allowance(lim));
    var r := RunFrom(t, g, tail, ev.Allowance(lim));
    if r.Ok? && g.head.IsEnclosing() {
      ScanNames(t, lim, tail[g.head.start..r.value.len], ev.sigs + r.value.sigs, V1);
    }
  }

  lemma OpenNames(lim: FrameLimits, s: bytes, used: nat, eof: bool)
    ensures Names(lim, true, OpenGroup(lim, s, used, eof))
  {
    hide ReadHead;
    CountersUnlimited(V1, s);
  }

  lemma ItemNames(t: CodeTables, lim: FrameLimits, s: bytes, eof: bool, ev: Event)
    requires t.WellFormed() && ev.Fits(lim, s) && ev.cursor <= |s| && ev.active.None?
    ensures NextItem(t, lim, s, eof, ev).Stop? ==> Names(lim, true, NextItem(t, lim, s, eof, ev).outcome)
  {
    hide OpenGroup;
    OpenNames(lim, s[ev.cursor..], ev.cursor - ev.bodyLen, eof);
  }

  lemma {:induction false} GroupsName(t: CodeTables, lim: FrameLimits, s: bytes, eof: bool, ev: Event)
    requires t.WellFormed() && |s| <= ISIZE_MAX && ev.Fits(lim, s) && ev.cursor <= |s|
    ensures Names(lim, true, GroupsFrom(t, lim, s, eof, ev))
    decreases lim.maxAttachmentGroups - ev.groups, if ev.active.Some? then 0 else 1
  {
    hide GroupsFrom, CloseGroup, NextItem;
    UnfoldGroups(t, lim, s, eof, ev);
    if ev.active.Some? {
      CloseNames(t, lim, s, eof, ev);
    } else {
      ItemNames(t, lim, s, eof, ev);
    }
    var turn := OneTurn(t, lim, s, eof, ev);
    if turn.Continue? {
      GroupsName(t, lim, s, eof, turn.next);
    }
  }

  lemma BareNames(t: CodeTables, lim: FrameLimits, s: bytes, eof: bool, g: GroupPos)
    requires t.WellFormed() && |s| <= ISIZE_MAX && g.Fits(s, BareBounds(lim))
    ensures Names(lim, false, BareFrom(t, lim, s, eof, g))
  {
    hide RunFrom, Scan;
    RunNames(t, g, s, BareBounds(lim));
    var r := RunFrom(t, g, s, BareBounds(lim));
    if r.Ok? && g.head.IsEnclosing() {
      ScanNames(t, lim, s[g.head.start..r.value.len], r.value.sigs, V1);
    }
  }

  /** Main result: whatever limit a frame is refused for, the refusal names the caller's limit of that
      kind, over all groups of a message, and for the attachment bytes no more than that. A group
      without a body may name the signatures that are left of it. */
  lemma FrameNames(t: CodeTables, lim: FrameLimits, s: bytes, eof: bool)
    requires t.WellFormed() && |s| <= ISIZE_MAX
    ensures Names(lim, s != [] && Detect(s[0]) != Ok(CesrBase64), Frame(t, lim, s, eof))
  {
    hide GroupsFrom, EventSize, OpenGroup, BareFrom;
    if s != [] && Detect(s[0]).Ok? {
      var cold := Detect(s[0]).value;
      if cold == CesrBase64 {
        OpenNames(lim, s, 0, eof);
        var head := OpenGroup(lim, s, 0, eof);
        if head.Ok? && head.value.Some? {
          BareNames(t, lim, s, eof, StartOf(head.value.value));
        }
      } else if IsBody(cold) {
        SizesUnlimited(s, cold);
        SizeIsPositive(s, cold);
        var bodyLen := BodyLength(lim, |s|, eof, EventSize(s, cold));
        if bodyLen.Ok? && bodyLen.value.Some? && bodyLen.value.value <= |s| {
          GroupsName(t, lim, s, eof, BodyOnly(bodyLen.value.value));
        }
      }
    }
  }

  /** The same of the group codec. */
  lemma AttemptNames(t: CodeTables, lim: FrameLimits, version: CesrVersion, s: bytes)
    requires t.WellFormed() && |s| <= ISIZE_MAX
    ensures AttemptOn(t, lim, version, s).Refused? ==> NamesLimit(lim, false, AttemptOn(t, lim, version, s).error)
  {
    hide ReadHead, RunFrom, Scan;
    CountersUnlimited(version, s);
    var read := ReadHead(version, s);
    if read.Ok? {
      RunNames(t, StartOf(read.value), s, BareBounds(lim));
      var run := RunFrom(t, StartOf(read.value), s, BareBounds(lim));
      if run.Ok? && read.value.IsEnclosing() {
        ScanNames(t, lim, s[read.value.start..run.value.len], run.value.sigs, version);
      }
    }
  }
}
