/** A frame does not depend on how its bytes arrived. */
module Chunking {
  import opened Prelude
  import opened CounterCodes
  import opened Primitives
  import opened VersionHead
  import opened GroupGrammar
  import opened GroupCursors
  import opened GroupLimits
  import opened Enclosures
  import opened FrameGrammar
  import opened Events
  import opened Framers

  /** An answer on an open prefix, and the answer to any call on a longer input: a span stays that
      span and a refusal stays a refusal; a pending frame promises nothing. */
  predicate Final(r: Result<Option<FrameSpan>>, r': Result<Option<FrameSpan>>) {
    match r
    case Ok(Some(_)) => r' == r
    case Ok(None) => true
    case Err(_) => r'.Err?
  }

  // ── Group heads ────────────────────────────────────────────────────────

  /** A counter refused while incomplete heads a group that can never fit the byte budget. */
  lemma OpenFinal(lim: FrameLimits, s: bytes, x: bytes, used: nat, eof: bool)
    requires s <= x && used <= lim.maxAttachmentBytes
    ensures var r, r' := OpenGroup(lim, s, used, false), OpenGroup(lim, x, used, eof);
            && (r.Ok? && r.value.Some? ==> r' == r)
            && (r.Err? ==> r'.Err? || (r'.value.Some? && r'.value.value.start > lim.maxAttachmentBytes - used))
  {
    hide ReadCounter;
    var head := ReadHead(V1, s);
    if head.Starved() {
      if ReadHead(V1, x).Ok? {
        CounterNeedIsSound(V1, s, x);
      }
    } else {
      ReadHeadStable(V1, s, x);
    }
  }

  lemma OversizedStart(t: CodeTables, lim: FrameLimits, s: bytes, head: GroupHead, b: Bounds)
    requires t.WellFormed() && head.layout.Solid() && head.start <= |s| && head.start > b.maxBytes
    ensures StartOf(head).Fits(s, b) && RunFrom(t, StartOf(head), s, b).Err? && !RunFrom(t, StartOf(head), s, b).Starved()
  {
    hide ElementsFrom;
  }

  // ── Frames ─────────────────────────────────────────────────────────────

  lemma {:induction false} GroupsFinal(t: CodeTables, lim: FrameLimits, s: bytes, x: bytes, eof: bool, ev: Event)
    requires t.WellFormed() && s <= x && ev.Fits(lim, s) && ev.cursor <= |s|
    ensures Final(GroupsFrom(t, lim, s, false, ev), GroupsFrom(t, lim, x, eof, ev))
    decreases lim.maxAttachmentGroups - ev.groups, if ev.active.Some? then 0 else 1
  {
    hide GroupsFrom, CloseGroup, NextItem;
    UnfoldGroups(t, lim, s, false, ev);
    UnfoldGroups(t, lim, x, eof, ev);
    if ev.active.Some? {
      CloseFinal(t, lim, s, x, eof, ev);
      var turn := CloseGroup(t, lim, s, false, ev);
      if turn.Continue? {
        GroupsFinal(t, lim, s, x, eof, turn.next);
      }
    } else {
      NextFinal(t, lim, s, x, eof, ev);
      var turn := NextItem(t, lim, s, false, ev);
      if turn.Continue? {
        GroupsFinal(t, lim, s, x, eof, turn.next);
      }
    }
  }

  lemma CloseFinal(t: CodeTables, lim: FrameLimits, s: bytes, x: bytes, eof: bool, ev: Event)
    requires t.WellFormed() && s <= x && ev.Fits(lim, s) && ev.active.Some?
    ensures var turn, turn' := CloseGroup(t, lim, s, false, ev), CloseGroup(t, lim, x, eof, ev);
            if turn == Stop(Ok(None)) then true
            else if turn.Stop? && turn.outcome.Err? then turn'.Stop? && turn'.outcome.Err?
            else turn' == turn
  {
    hide RunFrom, EnclosedSigs;
    var g := ev.active.value;
    SliceOfPrefix(s, x, ev.cursor, ev.cursor);
    var r := RunFrom(t, g, s[ev.cursor..], ev.Allowance(lim));
    if r.Ok? {
      ClosedForGood(t, lim, s, false, ev, x, eof);
    } else if !r.Starved() {
      RunStable(t, g, s[ev.cursor..], x[ev.cursor..], ev.Allowance(lim));
    }
  }

  lemma NextFinal(t: CodeTables, lim: FrameLimits, s: bytes, x: bytes, eof: bool, ev: Event)
    requires t.WellFormed() && s <= x && ev.Fits(lim, s) && ev.cursor <= |s| && ev.active.None?
    ensures var turn, turn' := NextItem(t, lim, s, false, ev), NextItem(t, lim, x, eof, ev);
            if turn == Stop(Ok(None)) then true
            else if turn.Stop? && turn.outcome.Err?
            then if turn'.Stop? then turn'.outcome.Err? else GroupsFrom(t, lim, x, eof, turn'.next).Err?
            else turn' == turn
  {
    hide OpenGroup, GroupsFrom;
    if ev.cursor < |s| {
      SliceOfPrefix(s, x, ev.cursor, ev.cursor);
      assert x[ev.cursor..][0] == s[ev.cursor..][0];
      if Detect(s[ev.cursor]) == Ok(CesrBase64) && ev.groups < lim.maxAttachmentGroups {
        OpenFinal(lim, s[ev.cursor..], x[ev.cursor..], ev.cursor - ev.bodyLen, eof);
        var r' := OpenGroup(lim, x[ev.cursor..], ev.cursor - ev.bodyLen, eof);
        if OpenGroup(lim, s[ev.cursor..], ev.cursor - ev.bodyLen, false).Err? && r'.Ok? {
          OversizedGroupRefused(t, lim, x, eof, ev, r'.value.value);
        }
      }
    }
  }

  lemma OversizedGroupRefused(t: CodeTables, lim: FrameLimits, s: bytes, eof: bool, ev: Event, head: GroupHead)
    requires t.WellFormed() && ev.Fits(lim, s) && ev.cursor <= |s| && ev.active.None? && ev.groups < lim.maxAttachmentGroups
    requires head.layout.Solid() && head.start <= |s[ev.cursor..]| && head.start > ev.Allowance(lim).maxBytes
    ensures ev.(active := Some(StartOf(head))).Fits(lim, s)
    ensures GroupsFrom(t, lim, s, eof, ev.(active := Some(StartOf(head)))).Err?
  {
    hide RunFrom, GroupsFrom;
    OversizedStart(t, lim, s[ev.cursor..], head, ev.Allowance(lim));
    UnfoldGroups(t, lim, s, eof, ev.(active := Some(StartOf(head))));
  }

  lemma BareFinal(t: CodeTables, lim: FrameLimits, s: bytes, x: bytes, eof: bool, g: GroupPos)
    requires t.WellFormed() && s <= x && g.Fits(s, BareBounds(lim))
    ensures Final(BareFrom(t, lim, s, false, g), BareFrom(t, lim, x, eof, g))
  {
    hide RunFrom, Scan;
    var r := RunFrom(t, g, s, BareBounds(lim));
    if !r.Starved() {
      RunStable(t, g, s, x, BareBounds(lim));
      if r.Ok? {
        SliceOfPrefix(s, x, g.head.start, r.value.len);
      }
    }
  }

  lemma GroupFrameFinal(t: CodeTables, lim: FrameLimits, s: bytes, x: bytes, eof: bool)
    requires t.WellFormed() && s <= x
    ensures Final(GroupFrame(t, lim, s, false), GroupFrame(t, lim, x, eof))
  {
    hide OpenGroup, BareFrom;
    OpenFinal(lim, s, x, 0, eof);
    var head, head' := OpenGroup(lim, s, 0, false), OpenGroup(lim, x, 0, eof);
    if head.Ok? && head.value.Some? {
      BareFinal(t, lim, s, x, eof, StartOf(head.value.value));
    } else if head.Err? && head'.Ok? {
      OversizedBareRefused(t, lim, x, eof, head'.value.value);
    }
  }

  lemma OversizedBareRefused(t: CodeTables, lim: FrameLimits, s: bytes, eof: bool, head: GroupHead)
    requires t.WellFormed() && head.layout.Solid() && head.start <= |s| && head.start > lim.maxAttachmentBytes
    ensures StartOf(head).Fits(s, BareBounds(lim)) && BareFrom(t, lim, s, eof, StartOf(head)).Err?
  {
    hide RunFrom;
    OversizedStart(t, lim, s, head, BareBounds(lim));
  }

  /** A body head that is still incomplete when the body limit has been buffered declares a size
      beyond that limit, if it ever declares one. */
  lemma BodyFrameFinal(t: CodeTables, lim: FrameLimits, s: bytes, x: bytes, eof: bool, cold: ColdCode)
    requires t.WellFormed() && s <= x && s != [] && IsBody(cold)
    requires (EventSize(s, cold).Ok? ==> EventSize(s, cold).value > 0) && (EventSize(x, cold).Ok? ==> EventSize(x, cold).value > 0)
    ensures Final(BodyFrame(t, lim, s, false, EventSize(s, cold)), BodyFrame(t, lim, x, eof, EventSize(x, cold)))
  {
    hide EventSize, GroupsFrom;
    HeadSizingIsFinal(s, x, cold);
    var size := EventSize(s, cold);
    if size.Ok? && |s| >= size.value {
      GroupsFinal(t, lim, s, x, eof, BodyOnly(size.value));
    }
  }

  /** Main result: what an open prefix is framed as, every longer input is framed as. */
  lemma FrameFinal(t: CodeTables, lim: FrameLimits, s: bytes, x: bytes, eof: bool)
    requires t.WellFormed() && s <= x
    ensures Final(Frame(t, lim, s, false), Frame(t, lim, x, eof))
  {
    hide GroupFrame, BodyFrame, EventSize;
    if s != [] {
      assert x[0] == s[0];
      var cold := Detect(s[0]);
      if cold == Ok(CesrBase64) {
        GroupFrameFinal(t, lim, s, x, eof);
      } else if cold.Ok? && IsBody(cold.value) {
        SizeIsPositive(s, cold.value);
        SizeIsPositive(x, cold.value);
        BodyFrameFinal(t, lim, s, x, eof, cold.value);
      }
    }
  }

  // ── Schedules ──────────────────────────────────────────────────────────

  /** Growing prefixes of one input, by their lengths. */
  predicate Schedule(cuts: seq<nat>, total: nat) {
    && (forall i | 0 <= i < |cuts| :: cuts[i] <= total)
    && (forall i, j | 0 <= i < j < |cuts| :: cuts[i] <= cuts[j])
  }

  /** One delivery, possibly preceded by an end-of-input call that finds the frame incomplete. */
  method Offer(f: MessageFramer, prefix: bytes, probe: bool) returns (r: Result<Option<FrameSpan>>)
    requires f.Valid() && f.seen <= prefix && |prefix| <= ISIZE_MAX
    requires probe ==> Frame(f.t, f.limits, prefix, true).Err?
    modifies f.Repr
    ensures f.Valid() && fresh(f.Repr - old(f.Repr))
    ensures r == Frame(f.t, f.limits, prefix, false)
    ensures f.seen == if r.Ok? && r.value.Some? then [] else prefix
  {
    hide Frame, MessageFramer.Owns, MessageFramer.Begins, MessageFramer.HeadKept;
    if probe {
      var truncated := f.Advance(prefix, true);
    }
    r := f.Advance(prefix, false);
  }

  /** Chunking independence: feed any schedule of growing prefixes to one retained framer until it
      answers, calling it at will with an end of input that does not yet complete the frame. The
      first answer is the span that a fresh framer finds in the whole input, a refusal if that is
      refused, and pending only if that is pending. */
  method FrameInChunks(t: CodeTables, lim: FrameLimits, whole: bytes, cuts: seq<nat>, probed: seq<bool>)
    returns (r: Result<Option<FrameSpan>>)
    requires t.WellFormed() && |whole| <= ISIZE_MAX && Schedule(cuts, |whole|) && |probed| == |cuts|
    requires forall i | 0 <= i < |cuts| && probed[i] :: Frame(t, lim, whole[..cuts[i]], true).Err?
    ensures r.Ok? ==> Frame(t, lim, whole, false) == r
    ensures r.Err? ==> Frame(t, lim, whole, false).Err?
  {
    hide Frame, MessageFramer.Valid;
    var f := new MessageFramer(t, lim);
    var i := 0;
    while i < |cuts|
      invariant i <= |cuts| && f.Valid() && fresh(f.Repr)
      invariant f.seen == if i == 0 then [] else whole[..cuts[i - 1]]
    {
      var prefix := whole[..cuts[i]];
      if i > 0 {
        assert f.seen == prefix[..cuts[i - 1]];
      }
      r := Offer(f, prefix, probed[i]);
      FrameFinal(t, lim, prefix, whole, false);
      if r.Err? || r.value.Some? {
        return;
      }
      i := i + 1;
    }
    r := f.Advance(whole, false);
  }

  // ── One standalone group, scanned at once ──────────────────────────────

  /** `scan_group_v1`: the span of one complete group and its bounded signature count. */
  function GroupScan(t: CodeTables, lim: FrameLimits, s: bytes): (r: Result<Extent>)
    requires t.WellFormed()
  {
    var head :- ReadHead(V1, s);
    var extent :- BoundedGroup(t, head, s, BareBounds(lim));
    var nested :- EnclosedSigs(t, lim, head, s, extent, extent.sigs, V1);
    Ok(Extent(extent.len, extent.sigs + nested))
  }

  method ScanGroupV1(t: CodeTables, lim: FrameLimits, input: bytes) returns (r: Result<Extent>)
    requires t.WellFormed() && |input| <= ISIZE_MAX
    ensures r == GroupScan(t, lim, input)
  {
    hide ReadHead, RunFrom, Scan;
    var head := ReadHead(V1, input);
    if head.Err? {
      return Err(head.error);
    }
    var checked := CheckElements(lim, head.value);
    if checked.Err? {
      return Err(checked.error);
    }
    var group := new GroupFrameCursor(head.value);
    var len := group.AdvanceLimited(t, input, BareBounds(lim));
    if len.Err? {
      return Err(len.error);
    }
    var direct := group.signatureTotal;
    var nested := 0;
    var payload := group.EnclosingPayload(input);
    if payload.Some? {
      var scanned := ScanEnclosure(t, lim, payload.value, direct, V1);
      if scanned.Err? {
        return Err(scanned.error);
      }
      nested := scanned.value;
    }
    r := Ok(Extent(len.value, SaturatingAdd(direct, nested)));
  }

  /** The one-shot scan succeeds exactly when the framer emits a standalone group at the end of
      the input, and then with the same length. */
  lemma ScanMatchesFrame(t: CodeTables, lim: FrameLimits, s: bytes)
    requires t.WellFormed() && s != [] && Detect(s[0]) == Ok(CesrBase64)
    ensures GroupScan(t, lim, s).Ok? <==> Frame(t, lim, s, true).Ok?
    ensures GroupScan(t, lim, s).Ok? ==> Frame(t, lim, s, true) == Ok(Some(FrameSpan(None, GroupScan(t, lim, s).value.len)))
  {
    hide ReadHead, RunFrom, EnclosedSigs;
  }
}
