/** What the framer emits: exactly the in-limit messages. */
module FrameAcceptance {
  import opened Prelude
  import opened CounterCodes
  import opened Primitives
  import opened VersionHead
  import opened GroupGrammar
  import opened GroupLimits
  import opened Enclosures
  import opened Forests
  import opened FrameGrammar
  import opened Events
  import opened Rendering

  // ── What is framed is framed alone ─────────────────────────────────────

  /** A body with nothing behind it declares the size it declares with more behind it. */
  lemma BodyAlone(s: bytes, cold: ColdCode, size: nat)
    requires EventSize(s, cold) == Ok(size) && 0 < size <= |s|
    ensures EventSize(s[..size], cold) == Ok(size)
  {
    hide EventSize;
    HeadSizingIsFinal(s[..size], s, cold);
  }

  lemma {:induction false} ElementsAlone(t: CodeTables, g: GroupPos, s: bytes, b: Bounds, total: nat)
    requires Fresh(t, g, s, b) && ElementsFrom(t, g, s, b).Ok? && ElementsFrom(t, g, s, b).value.len <= total <= |s|
    ensures Fresh(t, g, s[..total], b) && ElementsFrom(t, g, s[..total], b) == ElementsFrom(t, g, s, b)
    decreases g.remaining
  {
    hide ElementFrom, ElementsFrom, Window;
    var cut := s[..total];
    if g.remaining == 0 {
      NoneAhead(t, g, s, b);
      NoneAhead(t, g, cut, b);
    } else {
      UnfoldElements(t, g, s, b);
      var w := Window(s, g.end, b.maxBytes);
      var element := ElementFrom(t, g.head, w, g.part, b.maxElements, b.maxSignatures - g.sigs).value;
      ElementsAlone(t, NextElement(g, element), s, b, total);
      CutWindow(s, g.end, b.maxBytes, total);
      ElementExact(t, g.head, w, w, b.maxElements, b.maxElements, b.maxSignatures - g.sigs, b.maxSignatures - g.sigs);
      ElementExact(t, g.head, Window(cut, g.end, b.maxBytes), w, b.maxElements, b.maxElements, b.maxSignatures - g.sigs, b.maxSignatures - g.sigs);
      UnfoldElements(t, g, cut, b);
    }
  }

  lemma NoneAhead(t: CodeTables, g: GroupPos, s: bytes, b: Bounds)
    requires Fresh(t, g, s, b) && g.remaining == 0
    ensures ElementsFrom(t, g, s, b) == if |s| < g.end then Err(NeedBytes(g.end - |s|)) else Ok(Extent(g.end, g.sigs))
  {
  }

  lemma CutWindow(s: bytes, end: nat, maxBytes: nat, total: nat)
    requires end <= total <= |s| && end <= maxBytes
    ensures Window(s[..total], end, maxBytes) <= Window(s, end, maxBytes)
  {
  }

  lemma GroupAlone(t: CodeTables, head: GroupHead, s: bytes, b: Bounds)
    requires t.WellFormed() && head.layout.Solid() && 4 <= head.start <= |s| && BoundedGroup(t, head, s, b).Ok?
    ensures BoundedGroup(t, head, s[..BoundedGroup(t, head, s, b).value.len], b) == BoundedGroup(t, head, s, b)
  {
    hide ElementsFrom;
    ElementsAlone(t, StartOf(head), s, b, BoundedGroup(t, head, s, b).value.len);
  }

  /** A group that was framed and scanned is sane, and holds what was counted. */
  lemma FramedIsSane(t: CodeTables, lim: FrameLimits, s: bytes, head: GroupHead, b: Bounds, extent: Extent, prior: nat, nested: nat)
    requires t.WellFormed() && ReadHead(V1, s) == Ok(head) && CheckElements(lim, head).Ok?
    requires b.Finite() && b.maxElements == lim.maxGroupElements && |s| <= USIZE_MAX
    requires RunFrom(t, StartOf(head), s, b) == Ok(extent) && head.start <= extent.len
    requires prior + extent.sigs <= lim.maxSignatures && EnclosedSigs(t, lim, head, s, extent, prior + extent.sigs, V1) == Ok(nested)
    ensures Sane(t, lim, s[..extent.len])
    ensures var load := LoadOf(t, s[..extent.len]).value; load.head == head && load.Sigs() == extent.sigs + nested
  {
    hide ReadHead, RunFrom, FreeGroup, PayloadForest, Scan, SigsIn, GroupsIn, Height, PeakIn, BodyIn;
    var group := s[..extent.len];
    HeadAlone(s, head, extent.len);
    GroupAlone(t, head, s, b);
    GroupExact(t, head, group, b);
    assert group[head.start..] == s[head.start..extent.len];
    if head.IsEnclosing() {
      ScanExact(t, lim, group[head.start..], prior + extent.sigs, V1);
    } else {
      EmptyForest();
    }
  }

  lemma HeadAlone(s: bytes, head: GroupHead, len: nat)
    requires ReadHead(V1, s) == Ok(head) && head.start <= len <= |s|
    ensures ReadHead(V1, s[..len]) == Ok(head)
  {
    hide ReadCounter;
    ReadCounterLocal(V1, s[..len], s);
  }

  // ── The attachments ────────────────────────────────────────────────────

  /** The groups of a message from `ev` on: whole, within the limits, and ended by what follows. */
  ghost predicate Attached(t: CodeTables, lim: FrameLimits, s: bytes, eof: bool, ev: Event, end: nat, groups: seq<bytes>, enveloped: bool)
    requires t.WellFormed() && ev.WithinLimits(lim) && ev.cursor <= |s|
  {
    && ev.cursor <= end <= |s|
    && SaneGroups(t, lim, groups, enveloped)
    && Flatten(groups) == s[ev.cursor..end]
    && ev.groups + |groups| <= lim.maxAttachmentGroups
    && end - ev.bodyLen <= lim.maxAttachmentBytes
    && ev.sigs + SigsOf(t, groups) <= lim.maxSignatures
    && (!enveloped ==> if s[end..] == [] then eof else Detect(s[end]).Ok? && IsBody(Detect(s[end]).value))
  }

  /** One group of the loop, opened and closed. */
  ghost predicate OneGroup(t: CodeTables, lim: FrameLimits, s: bytes, ev: Event, next: Event)
    requires t.WellFormed() && ev.WithinLimits(lim) && ev.cursor <= |s|
  {
    && ev.cursor <= next.cursor <= |s|
    && var group := s[ev.cursor..next.cursor];
    && Sane(t, lim, group)
    && next == Event(ev.bodyLen, next.cursor, ev.groups + 1, ev.sigs + LoadOf(t, group).value.Sigs(), None)
    && next.WithinLimits(lim)
  }

  lemma ClosedGroup(t: CodeTables, lim: FrameLimits, s: bytes, eof: bool, ev: Event, head: GroupHead) returns (next: Event)
    requires t.WellFormed() && |s| <= USIZE_MAX && ev.Fits(lim, s) && ev.cursor <= |s| && ev.active.None?
    requires ReadHead(V1, s[ev.cursor..]) == Ok(head) && CheckElements(lim, head).Ok?
    requires ev.(active := Some(StartOf(head))).Fits(lim, s)
    requires var turn := CloseGroup(t, lim, s, eof, ev.(active := Some(StartOf(head))));
             turn.Continue? || (turn.outcome.Ok? && turn.outcome.value.Some?)
    ensures OneGroup(t, lim, s, ev, next)
    ensures LoadOf(t, s[ev.cursor..next.cursor]).value.head == head
    ensures CloseGroup(t, lim, s, eof, ev.(active := Some(StartOf(head)))) ==
            if head.IsEnvelope() then Stop(Ok(Some(SpanOf(next)))) else Continue(next)
  {
    hide ReadHead, RunFrom, EnclosedSigs, LoadOf, Load.Within;
    var tail := s[ev.cursor..];
    var b := ev.Allowance(lim);
    var extent := RunFrom(t, StartOf(head), tail, b).value;
    var nested := EnclosedSigs(t, lim, head, tail, extent, ev.sigs + extent.sigs, V1).value;
    FramedIsSane(t, lim, tail, head, b, extent, ev.sigs, nested);
    next := AfterActive(ev, extent, nested);
    assert s[ev.cursor..next.cursor] == tail[..extent.len];
    CloseFramed(t, lim, s, eof, ev.(active := Some(StartOf(head))), extent, nested);
  }

  lemma NoGroups(t: CodeTables)
    requires t.WellFormed()
    ensures SigsOf(t, []) == 0 && Flatten([]) == []
  {
  }

  lemma AttachLast(t: CodeTables, lim: FrameLimits, s: bytes, eof: bool, ev: Event, next: Event)
    requires t.WellFormed() && ev.WithinLimits(lim) && ev.cursor <= |s| && OneGroup(t, lim, s, ev, next)
    requires LoadOf(t, s[ev.cursor..next.cursor]).value.head.IsEnvelope() && next.groups <= lim.maxAttachmentGroups
    ensures Attached(t, lim, s, eof, ev, next.cursor, [s[ev.cursor..next.cursor]], true)
  {
    hide LoadOf, Load.Sigs, Load.Within;
    var group := s[ev.cursor..next.cursor];
    var groups: seq<bytes> := [group];
    assert groups[1..] == [];
    NoGroups(t);
    assert group + Flatten([]) == group;
  }

  lemma AttachOne(t: CodeTables, lim: FrameLimits, s: bytes, eof: bool, ev: Event, next: Event, end: nat, more: seq<bytes>, enveloped: bool)
    requires t.WellFormed() && ev.WithinLimits(lim) && ev.cursor <= |s| && OneGroup(t, lim, s, ev, next)
    requires !LoadOf(t, s[ev.cursor..next.cursor]).value.head.IsEnvelope()
    requires Attached(t, lim, s, eof, next, end, more, enveloped)
    ensures Attached(t, lim, s, eof, ev, end, [s[ev.cursor..next.cursor]] + more, enveloped)
  {
    hide LoadOf, Load.Sigs, Load.Within;
    var group := s[ev.cursor..next.cursor];
    assert ([group] + more)[1..] == more;
    assert s[ev.cursor..end] == group + s[next.cursor..end];
  }

  /** The attachments of an emitted message are in-limit groups. */
  lemma {:induction false} GroupsAreSane(t: CodeTables, lim: FrameLimits, s: bytes, eof: bool, ev: Event) returns (groups: seq<bytes>, enveloped: bool)
    requires t.WellFormed() && |s| <= USIZE_MAX && ev.Fits(lim, s) && ev.cursor <= |s| && ev.active.None?
    requires GroupsFrom(t, lim, s, eof, ev).Ok? && GroupsFrom(t, lim, s, eof, ev).value.Some?
    ensures GroupsFrom(t, lim, s, eof, ev).value.value.bodyLen == Some(ev.bodyLen)
    ensures Attached(t, lim, s, eof, ev, GroupsFrom(t, lim, s, eof, ev).value.value.totalLen, groups, enveloped)
    decreases lim.maxAttachmentGroups - ev.groups
  {
    hide GroupsFrom, CloseGroup, NextItem, OneGroup, LoadOf, Attached;
    UnfoldGroups(t, lim, s, eof, ev);
    var turn := NextItem(t, lim, s, eof, ev);
    if turn.Stop? {
      NothingAttached(t, lim, s, eof, ev);
      return [], false;
    }
    var head := OpenedHead(t, lim, s, eof, ev);
    UnfoldGroups(t, lim, s, eof, turn.next);
    var next := ClosedGroup(t, lim, s, eof, ev, head);
    GroupGoesOn(t, lim, s, eof, ev, next, head);
    if head.IsEnvelope() {
      AttachLast(t, lim, s, eof, ev, next);
      return [s[ev.cursor..next.cursor]], true;
    }
    var more: seq<bytes>;
    more, enveloped := GroupsAreSane(t, lim, s, eof, next);
    AttachOne(t, lim, s, eof, ev, next, GroupsFrom(t, lim, s, eof, ev).value.value.totalLen, more, enveloped);
    groups := [s[ev.cursor..next.cursor]] + more;
  }

  lemma NothingAttached(t: CodeTables, lim: FrameLimits, s: bytes, eof: bool, ev: Event)
    requires t.WellFormed() && ev.Fits(lim, s) && ev.cursor <= |s| && ev.active.None?
    requires NextItem(t, lim, s, eof, ev).Stop? && NextItem(t, lim, s, eof, ev).outcome.Ok? && NextItem(t, lim, s, eof, ev).outcome.value.Some?
    ensures NextItem(t, lim, s, eof, ev).outcome.value.value == SpanOf(ev)
    ensures Attached(t, lim, s, eof, ev, ev.cursor, [], false)
  {
    hide OpenGroup, Detect;
    NoGroups(t);
    assert s[ev.cursor..ev.cursor] == [];
  }

  lemma OpenedHead(t: CodeTables, lim: FrameLimits, s: bytes, eof: bool, ev: Event) returns (head: GroupHead)
    requires t.WellFormed() && ev.Fits(lim, s) && ev.cursor <= |s| && ev.active.None? && NextItem(t, lim, s, eof, ev).Continue?
    ensures ReadHead(V1, s[ev.cursor..]) == Ok(head) && CheckElements(lim, head).Ok? && ev.groups < lim.maxAttachmentGroups
    ensures NextItem(t, lim, s, eof, ev).next == ev.(active := Some(StartOf(head)))
  {
    hide ReadHead, Detect;
    head := ReadHead(V1, s[ev.cursor..]).value;
  }

  lemma GroupGoesOn(t: CodeTables, lim: FrameLimits, s: bytes, eof: bool, ev: Event, next: Event, head: GroupHead)
    requires t.WellFormed() && ev.WithinLimits(lim) && ev.cursor <= |s| && OneGroup(t, lim, s, ev, next)
    ensures next.Fits(lim, s) && next.cursor <= |s| && next.active.None? && next.groups == ev.groups + 1
    ensures next.groups <= lim.maxAttachmentGroups && ev.bodyLen == next.bodyLen
  {
    hide LoadOf, Sane;
  }

  // ── Whole frames ───────────────────────────────────────────────────────

  /** The message `m` begins `s` and ends there as `span` says. */
  ghost predicate Begun(t: CodeTables, lim: FrameLimits, s: bytes, eof: bool, span: FrameSpan, m: Message)
    requires t.WellFormed()
  {
    && InLimits(t, lim, m)
    && Render(m) <= s
    && SpanFor(m) == span
    && Ends(m, s[|Render(m)|..], eof)
  }

  lemma BodyIsMessage(t: CodeTables, lim: FrameLimits, s: bytes, eof: bool, cold: ColdCode) returns (m: Message)
    requires t.WellFormed() && |s| <= USIZE_MAX && s != [] && Detect(s[0]) == Ok(cold) && IsBody(cold)
    requires Frame(t, lim, s, eof).Ok? && Frame(t, lim, s, eof).value.Some?
    ensures Begun(t, lim, s, eof, Frame(t, lim, s, eof).value.value, m)
  {
    hide GroupsFrom, EventSize, SaneGroups, Detect, SigsOf;
    SizeIsPositive(s, cold);
    var size := EventSize(s, cold).value;
    var ev := BodyOnly(size);
    BodyAlone(s, cold, size);
    var groups, enveloped := GroupsAreSane(t, lim, s, eof, ev);
    var end := GroupsFrom(t, lim, s, eof, ev).value.value.totalLen;
    m := WithBody(s[..size], groups, enveloped);
    assert Render(m) == s[..end];
    FlattenLength(groups, s[size..end]);
  }

  lemma FlattenLength(groups: seq<bytes>, s: bytes)
    requires Flatten(groups) == s
    ensures |Flatten(groups)| == |s|
  {
  }

  lemma GroupIsMessage(t: CodeTables, lim: FrameLimits, s: bytes, eof: bool) returns (m: Message)
    requires t.WellFormed() && |s| <= USIZE_MAX && s != [] && Detect(s[0]) == Ok(CesrBase64)
    requires Frame(t, lim, s, eof).Ok? && Frame(t, lim, s, eof).value.Some?
    ensures Begun(t, lim, s, eof, Frame(t, lim, s, eof).value.value, m)
  {
    hide Frame, ReadHead, RunFrom, EnclosedSigs, Sane, LoadOf, Load.Sigs;
    var head, extent, nested := GroupParts(t, lim, s, eof);
    FramedIsSane(t, lim, s, head, BareBounds(lim), extent, 0, nested);
    m := Standalone(s[..extent.len]);
  }

  /** The head of a standalone group, its extent and the signatures inside its payload. */
  ghost predicate GroupRead(t: CodeTables, lim: FrameLimits, s: bytes, head: GroupHead, extent: Extent, nested: nat)
    requires t.WellFormed()
  {
    && ReadHead(V1, s) == Ok(head) && CheckElements(lim, head).Ok?
    && StartOf(head).Fits(s, BareBounds(lim))
    && RunFrom(t, StartOf(head), s, BareBounds(lim)) == Ok(extent)
    && head.start <= extent.len <= |s| && extent.sigs <= lim.maxSignatures
    && EnclosedSigs(t, lim, head, s, extent, extent.sigs, V1) == Ok(nested)
  }

  /** A standalone group that was emitted was opened, framed and scanned. */
  lemma GroupParts(t: CodeTables, lim: FrameLimits, s: bytes, eof: bool) returns (head: GroupHead, extent: Extent, nested: nat)
    requires t.WellFormed() && s != [] && Detect(s[0]) == Ok(CesrBase64)
    requires Frame(t, lim, s, eof).Ok? && Frame(t, lim, s, eof).value.Some?
    ensures GroupRead(t, lim, s, head, extent, nested)
    ensures Frame(t, lim, s, eof).value.value == FrameSpan(None, extent.len)
  {
    hide ReadHead, RunFrom, EnclosedSigs, BodyFrame, EventSize;
    head := ReadHead(V1, s).value;
    extent := RunFrom(t, StartOf(head), s, BareBounds(lim)).value;
    nested := EnclosedSigs(t, lim, head, s, extent, extent.sigs, V1).value;
  }

  /** Main result: on an open stream and at its end, the framer emits a span exactly if an in-limit
      message of that body length and length begins the input, and what follows it ends it. */
  lemma FrameExact(t: CodeTables, lim: FrameLimits, s: bytes, eof: bool, span: FrameSpan)
    requires t.WellFormed() && |s| <= USIZE_MAX
    ensures Frame(t, lim, s, eof) == Ok(Some(span)) <==> exists m :: Begun(t, lim, s, eof, span, m)
  {
    hide Frame, InLimits, Ends, Render, SpanFor;
    if Frame(t, lim, s, eof) == Ok(Some(span)) {
      Begins(t, lim, s, eof);
      if Detect(s[0]).value == CesrBase64 {
        var m := GroupIsMessage(t, lim, s, eof);
      } else {
        var m := BodyIsMessage(t, lim, s, eof, Detect(s[0]).value);
      }
    }
    forall m | Begun(t, lim, s, eof, span, m)
      ensures Frame(t, lim, s, eof) == Ok(Some(span))
    {
      if m.WithBody? {
        BodyMessageFramed(t, lim, m, s, eof);
      } else {
        GroupMessageFramed(t, lim, m, s, eof);
      }
    }
  }

  lemma Begins(t: CodeTables, lim: FrameLimits, s: bytes, eof: bool)
    requires t.WellFormed() && Frame(t, lim, s, eof).Ok? && Frame(t, lim, s, eof).value.Some?
    ensures s != [] && Detect(s[0]).Ok? && (Detect(s[0]).value == CesrBase64 || IsBody(Detect(s[0]).value))
  {
    hide GroupFrame, BodyFrame, Detect;
  }

  // ── Waiting is bounded ─────────────────────────────────────────────────

  lemma {:induction false} PendingGroups(t: CodeTables, lim: FrameLimits, s: bytes, ev: Event)
    requires t.WellFormed() && |s| <= USIZE_MAX && ev.Fits(lim, s) && ev.cursor <= |s| && GroupsFrom(t, lim, s, false, ev) == Ok(None)
    ensures |s| <= ev.bodyLen + lim.maxAttachmentBytes
    decreases lim.maxAttachmentGroups - ev.groups, if ev.active.Some? then 0 else 1
  {
    hide GroupsFrom, CloseGroup, NextItem;
    UnfoldGroups(t, lim, s, false, ev);
    if ev.active.Some? {
      PendingClose(t, lim, s, ev);
    } else {
      PendingItem(t, lim, s, ev);
    }
    var turn := OneTurn(t, lim, s, false, ev);
    if turn.Continue? {
      PendingGroups(t, lim, s, turn.next);
    }
  }

  lemma PendingClose(t: CodeTables, lim: FrameLimits, s: bytes, ev: Event)
    requires t.WellFormed() && ev.Fits(lim, s) && ev.active.Some?
    ensures CloseGroup(t, lim, s, false, ev) == Stop(Ok(None)) ==> |s| <= ev.bodyLen + lim.maxAttachmentBytes
  {
    hide RunFrom, EnclosedSigs;
    if CloseGroup(t, lim, s, false, ev) == Stop(Ok(None)) {
      StarvedWithin(t, ev.active.value, s[ev.cursor..], ev.Allowance(lim));
    }
  }

  lemma PendingItem(t: CodeTables, lim: FrameLimits, s: bytes, ev: Event)
    requires t.WellFormed() && |s| <= USIZE_MAX && ev.Fits(lim, s) && ev.cursor <= |s| && ev.active.None?
    ensures NextItem(t, lim, s, false, ev) == Stop(Ok(None)) ==> |s| <= ev.bodyLen + lim.maxAttachmentBytes
  {
    hide ReadHead, Detect;
  }

  /** Main result: a frame is left pending only while what has arrived is within the limits on one
      body and its attachments, so what a caller has to buffer is bounded by them. */
  lemma PendingIsBounded(t: CodeTables, lim: FrameLimits, s: bytes)
    requires t.WellFormed() && |s| <= USIZE_MAX && Frame(t, lim, s, false) == Ok(None)
    ensures |s| <= lim.maxBodyBytes + lim.maxAttachmentBytes
  {
    hide GroupsFrom, EventSize, RunFrom, EnclosedSigs, ReadHead;
    if s != [] {
      var cold := Detect(s[0]).value;
      if cold == CesrBase64 {
        var head := OpenGroup(lim, s, 0, false);
        if head.Ok? && head.value.Some? {
          StarvedWithin(t, StartOf(head.value.value), s, BareBounds(lim));
        }
      } else {
        SizeIsPositive(s, cold);
        var bodyLen := BodyLength(lim, |s|, false, EventSize(s, cold));
        if bodyLen.Ok? && bodyLen.value.Some? && bodyLen.value.value <= |s| {
          PendingGroups(t, lim, s, BodyOnly(bodyLen.value.value));
        }
      }
    }
  }

  /** A body that has not all arrived is pending, and at the end of input lacks exactly the rest. */
  lemma MissingIsExact(t: CodeTables, lim: FrameLimits, s: bytes, eof: bool, cold: ColdCode, size: nat)
    requires t.WellFormed() && s != [] && Detect(s[0]) == Ok(cold) && IsBody(cold)
    requires EventSize(s, cold) == Ok(size) && |s| < size <= lim.maxBodyBytes
    ensures Frame(t, lim, s, eof) == if eof then Err(Truncated(size - |s|)) else Ok(None)
  {
    hide EventSize, Detect, GroupsFrom;
  }
}
