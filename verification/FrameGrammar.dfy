/**
 The boundary of one message at the head of a byte string, as a function without memory.

 As in `GroupGrammar`, every function continues from a position, so an interrupted framing run
 and a fresh one are the same function at two positions.
 */
module FrameGrammar {
  import opened Prelude
  import opened CounterCodes
  import opened Primitives
  import opened VersionHead
  import opened GroupGrammar
  import opened Enclosures

  datatype FrameSpan = FrameSpan(bodyLen: Option<nat>, totalLen: nat)

  // ── Opening a group ────────────────────────────────────────────────────

  /** `check_pending_attachment` on a counter that lacks `missing` bytes. */
  function PendingCounter(lim: FrameLimits, used: nat, available: nat, missing: nat, eof: bool): Result<Option<GroupHead>> {
    if SaturatingAdd(used, available) >= lim.maxAttachmentBytes then
      Err(LimitExceeded(AttachmentBytes, lim.maxAttachmentBytes, SaturatingAdd(SaturatingAdd(used, available), missing)))
    else if eof then Err(Truncated(missing))
    else Ok(None)
  }

  function CheckElements(lim: FrameLimits, head: GroupHead): Result<Option<GroupHead>> {
    if head.ElementCount().Some? && head.count > lim.maxGroupElements
    then Err(LimitExceeded(GroupElements, lim.maxGroupElements, head.count))
    else Ok(Some(head))
  }

  /** The counter at the head of `s`; `None` while it is incomplete on an open stream. */
  function OpenGroup(lim: FrameLimits, s: bytes, used: nat, eof: bool): (r: Result<Option<GroupHead>>)
    ensures r.Ok? && r.value.Some? ==> r.value.value.layout.Solid() && 4 <= r.value.value.start <= |s|
    ensures r.Err? ==> !r.Starved()
  {
    match ReadHead(V1, s)
    case Ok(head) => CheckElements(lim, head)
    case Err(NeedBytes(missing)) => PendingCounter(lim, used, |s|, missing, eof)
    case Err(e) => Err(e)
  }

  // ── Attachments after a body ───────────────────────────────────────────

  /** Progress through one message with a body: `cursor` ends the last complete group. */
  datatype Event = Event(bodyLen: nat, cursor: nat, groups: nat, sigs: nat, active: Option<GroupPos>) {
    /** What the limits leave for the next group. */
    function Allowance(lim: FrameLimits): Bounds
      requires WithinLimits(lim)
    {
      Bounds(lim.maxAttachmentBytes - (cursor - bodyLen), lim.maxGroupElements, lim.maxSignatures - sigs)
    }

    /** Bytes, groups and signatures so far are within the limits, and every signature took a
        byte of the attachments. */
    predicate WithinLimits(lim: FrameLimits) {
      && bodyLen <= cursor
      && cursor - bodyLen <= lim.maxAttachmentBytes
      && groups <= lim.maxAttachmentGroups
      && sigs <= lim.maxSignatures
      && sigs <= cursor - bodyLen
    }

    predicate Fits(lim: FrameLimits, s: bytes) {
      && WithinLimits(lim)
      && (cursor == bodyLen || cursor <= |s|)
      && (active.Some? ==>
            && cursor <= |s|
            && groups < lim.maxAttachmentGroups
            && active.value.Fits(s[cursor..], Allowance(lim)))
    }
  }

  /** Refusals inside a group are reported against the limits of the whole message. */
  function Attributed(e: ParseError, lim: FrameLimits, sigs: nat): ParseError {
    match e
    case LimitExceeded(Signatures, _, actual) => LimitExceeded(Signatures, lim.maxSignatures, SaturatingAdd(sigs, actual))
    case _ => e
  }

  function Missing<T>(missing: nat, eof: bool): Result<Option<T>> {
    if eof then Err(Truncated(missing)) else Ok(None)
  }

  /** Signatures inside a framed group that encloses further groups. */
  function EnclosedSigs(t: CodeTables, lim: FrameLimits, head: GroupHead, s: bytes, extent: Extent, prior: nat, version: CesrVersion): (r: Result<nat>)
    requires t.WellFormed() && head.start <= extent.len <= |s|
    ensures r.Ok? && prior <= lim.maxSignatures ==> prior + r.value <= lim.maxSignatures
    ensures r.Ok? ==> r.value <= extent.len
  {
    if head.IsEnclosing() then
      ScanWithinPayload(t, lim, s[head.start..extent.len], prior, version);
      Scan(t, lim, s[head.start..extent.len], prior, version)
    else Ok(0)
  }

  /** The event after its active group turned out to be `extent` bytes with `nested` enclosed
      signatures. */
  function AfterActive(ev: Event, extent: Extent, nested: nat): Event {
    Event(ev.bodyLen, ev.cursor + extent.len, ev.groups + 1, ev.sigs + extent.sigs + nested, None)
  }

  function SpanOf(ev: Event): FrameSpan {
    FrameSpan(Some(ev.bodyLen), ev.cursor)
  }

  /** One turn of the attachment loop: an outcome, or the event to go on with. */
  datatype Turn = Stop(outcome: Result<Option<FrameSpan>>) | Continue(next: Event) {
    /** An emitted span starts with the body and ends inside the input; only an open stream is
        left pending; and the loop advances within the limits. */
    predicate Sound(lim: FrameLimits, s: bytes, eof: bool, ev: Event)
      requires ev.WithinLimits(lim)
    {
      match this
      case Stop(Ok(Some(span))) => span.bodyLen == Some(ev.bodyLen) && ev.cursor <= span.totalLen <= |s|
      case Stop(Ok(None)) => !eof
      case Stop(Err(_)) => true
      case Continue(next) =>
        && next.Fits(lim, s)
        && next.bodyLen == ev.bodyLen
        && ev.cursor <= next.cursor <= |s|
        && if ev.active.Some? then next.groups == ev.groups + 1 else next.groups == ev.groups && next.active.Some?
    }
  }

  /** `advance_group`: the active group is framed, or the message waits or fails in it. */
  function CloseGroup(t: CodeTables, lim: FrameLimits, s: bytes, eof: bool, ev: Event): (r: Turn)
    requires t.WellFormed() && ev.Fits(lim, s) && ev.active.Some?
    ensures r.Sound(lim, s, eof, ev)
  {
    var g := ev.active.value;
    var tail := s[ev.cursor..];
    match RunFrom(t, g, tail, ev.Allowance(lim))
    case Err(NeedBytes(missing)) => Stop(Missing(missing, eof))
    case Err(e) => Stop(Err(Attributed(e, lim, ev.sigs)))
    case Ok(extent) =>
      assert g.head.IsEnclosing() ==> extent.sigs == 0;
      (match EnclosedSigs(t, lim, g.head, tail, extent, ev.sigs + extent.sigs, V1)
       case Err(e) => Stop(Err(e))
       case Ok(nested) =>
         var next := AfterActive(ev, extent, nested);
         if g.head.IsEnvelope() then Stop(Ok(Some(SpanOf(next)))) else Continue(next))
  }

  /** Between groups: the next body or the end of the stream ends the message, and a counter
      opens a group. */
  function NextItem(t: CodeTables, lim: FrameLimits, s: bytes, eof: bool, ev: Event): (r: Turn)
    requires t.WellFormed() && ev.Fits(lim, s) && ev.cursor <= |s| && ev.active.None?
    ensures r.Sound(lim, s, eof, ev)
  {
    var tail := s[ev.cursor..];
    if tail == [] then Stop(if eof then Ok(Some(SpanOf(ev))) else Ok(None)) else
      match Detect(tail[0])
      case Err(e) => Stop(Err(e))
      case Ok(CesrBinary) => Stop(Err(UnsupportedColdStart(CesrBinary)))
      case Ok(CesrBase64) =>
        if ev.groups >= lim.maxAttachmentGroups then
          Stop(Err(LimitExceeded(AttachmentGroups, lim.maxAttachmentGroups, ev.groups + 1)))
        else
          (match OpenGroup(lim, tail, ev.cursor - ev.bodyLen, eof)
           case Err(e) => Stop(Err(e))
           case Ok(None) => Stop(Ok(None))
           case Ok(Some(head)) => Continue(ev.(active := Some(StartOf(head)))))
      case Ok(_) => Stop(Ok(Some(SpanOf(ev))))
  }

  function OneTurn(t: CodeTables, lim: FrameLimits, s: bytes, eof: bool, ev: Event): (r: Turn)
    requires t.WellFormed() && ev.Fits(lim, s) && ev.cursor <= |s|
    ensures r.Sound(lim, s, eof, ev)
  {
    if ev.active.Some? then CloseGroup(t, lim, s, eof, ev) else NextItem(t, lim, s, eof, ev)
  }

  /** The attachment loop of `EventProgress::advance`, once the body is complete. */
  function GroupsFrom(t: CodeTables, lim: FrameLimits, s: bytes, eof: bool, ev: Event): (r: Result<Option<FrameSpan>>)
    requires t.WellFormed() && ev.Fits(lim, s) && ev.cursor <= |s|
    ensures Stop(r).Sound(lim, s, eof, ev)
    decreases lim.maxAttachmentGroups - ev.groups, if ev.active.Some? then 0 else 1
  {
    match OneTurn(t, lim, s, eof, ev)
    case Stop(outcome) => outcome
    case Continue(next) => GroupsFrom(t, lim, s, eof, next)
  }

  /** `EventProgress::advance`. */
  function EventFrom(t: CodeTables, lim: FrameLimits, s: bytes, eof: bool, ev: Event): (r: Result<Option<FrameSpan>>)
    requires t.WellFormed() && ev.Fits(lim, s)
    ensures r.Ok? && r.value.Some? ==> r.value.value.bodyLen == Some(ev.bodyLen) && ev.cursor <= r.value.value.totalLen <= |s|
    ensures r.Ok? && r.value.None? ==> !eof
  {
    if |s| < ev.bodyLen then Missing(ev.bodyLen - |s|, eof)
    else GroupsFrom(t, lim, s, eof, ev)
  }

  // ── A group without a body ─────────────────────────────────────────────

  function BareBounds(lim: FrameLimits): Bounds {
    Bounds(lim.maxAttachmentBytes, lim.maxGroupElements, lim.maxSignatures)
  }

  function BareFrom(t: CodeTables, lim: FrameLimits, s: bytes, eof: bool, g: GroupPos): (r: Result<Option<FrameSpan>>)
    requires t.WellFormed() && g.Fits(s, BareBounds(lim))
    ensures r.Ok? && r.value.Some? ==> r.value.value.bodyLen == None && g.end <= r.value.value.totalLen <= |s|
    ensures r.Ok? && r.value.None? ==> !eof
  {
    match RunFrom(t, g, s, BareBounds(lim))
    case Err(NeedBytes(missing)) => Missing(missing, eof)
    case Err(e) => Err(e)
    case Ok(extent) =>
      var nested :- EnclosedSigs(t, lim, g.head, s, extent, extent.sigs, V1);
      Ok(Some(FrameSpan(None, extent.len)))
  }

  // ── A whole frame ──────────────────────────────────────────────────────

  /** The body length from a declared size, under the body limit. */
  function BodyLength(lim: FrameLimits, available: nat, eof: bool, declared: Result<nat>): (r: Result<Option<nat>>)
    ensures r.Ok? && r.value.None? ==> !eof
  {
    match declared
    case Ok(size) =>
      if size > lim.maxBodyBytes then Err(LimitExceeded(BodyBytes, lim.maxBodyBytes, size)) else Ok(Some(size))
    case Err(NeedBytes(missing)) =>
      if available >= lim.maxBodyBytes
      then Err(LimitExceeded(BodyBytes, lim.maxBodyBytes, SaturatingAdd(available, missing)))
      else Missing(missing, eof)
    case Err(e) => Err(e)
  }

  function BodyOnly(bodyLen: nat): Event {
    Event(bodyLen, bodyLen, 0, 0, None)
  }

  predicate IsBody(cold: ColdCode) {
    cold == Json || cold == Cbor || cold == MessagePack
  }

  /** What a call on `s` may answer: a span inside `s`, with a body exactly when the frame starts
      with one, or `None` on an open stream. */
  predicate Answers(s: bytes, eof: bool, hasBody: bool, r: Result<Option<FrameSpan>>) {
    match r
    case Ok(Some(span)) =>
      && 0 < span.totalLen <= |s|
      && span.bodyLen.Some? == hasBody
      && (hasBody ==> 0 < span.bodyLen.value <= span.totalLen)
    case Ok(None) => !eof
    case Err(_) => true
  }

  function BodyFrame(t: CodeTables, lim: FrameLimits, s: bytes, eof: bool, declared: Result<nat>): (r: Result<Option<FrameSpan>>)
    requires t.WellFormed() && (declared.Ok? ==> declared.value > 0)
    ensures Answers(s, eof, true, r)
  {
    var bodyLen :- BodyLength(lim, |s|, eof, declared);
    if bodyLen.None? then Ok(None) else EventFrom(t, lim, s, eof, BodyOnly(bodyLen.value))
  }

  function GroupFrame(t: CodeTables, lim: FrameLimits, s: bytes, eof: bool): (r: Result<Option<FrameSpan>>)
    requires t.WellFormed()
    ensures Answers(s, eof, false, r)
  {
    var head :- OpenGroup(lim, s, 0, eof);
    if head.None? then Ok(None) else BareFrom(t, lim, s, eof, StartOf(head.value))
  }

  /** The frame at the head of `s`: `None` while an open stream may still change it. */
  function Frame(t: CodeTables, lim: FrameLimits, s: bytes, eof: bool): (r: Result<Option<FrameSpan>>)
    requires t.WellFormed()
    ensures s != [] ==> Answers(s, eof, Detect(s[0]).Ok? && IsBody(Detect(s[0]).value), r)
    ensures s == [] ==> r == Ok(None)
  {
    if s == [] then Ok(None) else
      var cold :- Detect(s[0]);
      if cold == CesrBinary then Err(UnsupportedColdStart(cold))
      else if cold == CesrBase64 then GroupFrame(t, lim, s, eof)
      else
        SizeIsPositive(s, cold);
        BodyFrame(t, lim, s, eof, EventSize(s, cold))
  }

  // ── Facts used by the definitions ──────────────────────────────────────

  lemma SizeIsPositive(s: bytes, cold: ColdCode)
    requires s != []
    ensures EventSize(s, cold).Ok? ==> EventSize(s, cold).value > 0
  {
    hide VersionOffset;
    if EventSize(s, cold).Ok? {
      SizeCoversHead(s, VersionOffset(s, cold).value, cold);
    }
  }

  /** A scan never finds more signatures than the payload has bytes. */
  lemma ScanWithinPayload(t: CodeTables, lim: FrameLimits, payload: bytes, prior: nat, version: CesrVersion)
    requires t.WellFormed()
    ensures Scan(t, lim, payload, prior, version).Ok? ==> Scan(t, lim, payload, prior, version).value <= |payload|
  {
    hide Walk, EnclosedVersion;
    var chosen := EnclosedVersion(payload, version);
    if chosen.Ok? {
      WalkWithinBytes(t, lim, payload[chosen.value.1..], 1, chosen.value.0, Tally(0, prior));
    }
  }

  lemma {:induction false} WalkWithinBytes(t: CodeTables, lim: FrameLimits, s: bytes, depth: nat, version: CesrVersion, tally: Tally)
    requires t.WellFormed()
    ensures Walk(t, lim, s, depth, version, tally).Ok? ==> Walk(t, lim, s, depth, version, tally).value.sigs <= tally.sigs + |s|
    decreases |s|
  {
    hide NextGroup, SkipAtom, EnclosedVersion, Walk;
    UnfoldWalk(t, lim, s, depth, version, tally);
    if s != [] && s[0] != DASH && SkipAtom(t, lim, s).Ok? {
      var atom := SkipAtom(t, lim, s).value;
      WalkWithinBytes(t, lim, s[atom.len..], depth, version, Tally(tally.groups, tally.sigs + atom.sigs));
    } else if s != [] && s[0] == DASH && NextGroup(t, lim, s, version, tally.sigs).Ok? {
      var (head, extent) := NextGroup(t, lim, s, version, tally.sigs).value;
      var entered := Tally(tally.groups + 1, tally.sigs + extent.sigs);
      WalkWithinBytes(t, lim, s[extent.len..], depth, version, entered);
      var inner := s[head.start..extent.len];
      if head.IsEnclosing() && EnclosedVersion(inner, version).Ok? {
        var (innerVersion, offset) := EnclosedVersion(inner, version).value;
        WalkWithinBytes(t, lim, inner[offset..], depth + 1, innerVersion, entered);
        var enclosed := Walk(t, lim, inner[offset..], depth + 1, innerVersion, entered);
        if enclosed.Ok? {
          WalkWithinBytes(t, lim, s[extent.len..], depth, version, enclosed.value);
        }
      }
    }
  }

  /** The unfolding of one step of a walk. */
  lemma UnfoldWalk(t: CodeTables, lim: FrameLimits, s: bytes, depth: nat, version: CesrVersion, tally: Tally)
    requires t.WellFormed()
    ensures s == [] ==> Walk(t, lim, s, depth, version, tally) == Ok(tally)
    ensures s != [] && s[0] != DASH && Walk(t, lim, s, depth, version, tally).Ok? ==>
      && SkipAtom(t, lim, s).Ok?
      && var atom := SkipAtom(t, lim, s).value;
         Walk(t, lim, s, depth, version, tally) == Walk(t, lim, s[atom.len..], depth, version, Tally(tally.groups, tally.sigs + atom.sigs))
    ensures s != [] && s[0] == DASH && Walk(t, lim, s, depth, version, tally).Ok? ==>
      && NextGroup(t, lim, s, version, tally.sigs).Ok?
      && var (head, extent) := NextGroup(t, lim, s, version, tally.sigs).value;
         && extent.sigs <= extent.len
         && (head.IsEnclosing() ==> extent.sigs == 0)
         && Walk(t, lim, s, depth, version, tally) == AfterGroup(t, lim, s, depth, version, Tally(tally.groups + 1, tally.sigs + extent.sigs), head, extent)
  {
    hide Walk, SkipAtom, NextGroup;
    if s == [] {
      WalkEmpty(t, lim, s, depth, version, tally);
    } else if s[0] != DASH {
      WalkAtom(t, lim, s, depth, version, tally, SkipAtom(t, lim, s));
    } else if tally.groups + 1 > lim.maxNestedGroups {
      WalkTooManyGroups(t, lim, s, depth, version, tally);
    } else {
      WalkGroup(t, lim, s, depth, version, tally, NextGroup(t, lim, s, version, tally.sigs));
    }
  }
}
