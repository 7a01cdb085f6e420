/** The attachments after one body, framed across calls. */
module Events {
  import opened Prelude
  import opened Primitives
  import opened GroupGrammar
  import opened GroupCursors
  import opened Enclosures
  import opened FrameGrammar

  // ── Finished work is never done again ──────────────────────────────────

  /** Both positions lead every extension of `s`, open or ended, to the same outcome. */
  ghost predicate SameTurns(t: CodeTables, lim: FrameLimits, s: bytes, ev: Event, ev': Event)
    requires t.WellFormed() && ev.Fits(lim, s) && ev'.Fits(lim, s) && ev.cursor <= |s| && ev'.cursor <= |s|
  {
    forall x, eof | s <= x :: GroupsFrom(t, lim, x, eof, ev) == GroupsFrom(t, lim, x, eof, ev')
  }

  /** A counter that was read opens the same group in every extension. */
  lemma OpenStep(t: CodeTables, lim: FrameLimits, s: bytes, ev: Event, head: GroupHead)
    requires t.WellFormed() && ev.Fits(lim, s) && ev.cursor < |s| && ev.active.None? && ev.groups < lim.maxAttachmentGroups
    requires Detect(s[ev.cursor]) == Ok(CesrBase64)
    requires ReadHead(V1, s[ev.cursor..]) == Ok(head) && CheckElements(lim, head).Ok?
    ensures ev.(active := Some(StartOf(head))).Fits(lim, s)
    ensures SameTurns(t, lim, s, ev.(active := Some(StartOf(head))), ev)
  {
    hide GroupsFrom, RunFrom, ReadHead;
    var ev' := ev.(active := Some(StartOf(head)));
    forall x, eof | s <= x
      ensures GroupsFrom(t, lim, x, eof, ev') == GroupsFrom(t, lim, x, eof, ev)
    {
      SliceOfPrefix(s, x, ev.cursor, ev.cursor);
      ReadHeadStable(V1, s[ev.cursor..], x[ev.cursor..]);
      assert x[ev.cursor..][0] == s[ev.cursor];
      assert NextItem(t, lim, x, eof, ev) == Continue(ev');
      UnfoldGroups(t, lim, x, eof, ev);
    }
  }

  lemma UnfoldGroups(t: CodeTables, lim: FrameLimits, s: bytes, eof: bool, ev: Event)
    requires t.WellFormed() && ev.Fits(lim, s) && ev.cursor <= |s|
    ensures var turn := if ev.active.Some? then CloseGroup(t, lim, s, eof, ev) else NextItem(t, lim, s, eof, ev);
            GroupsFrom(t, lim, s, eof, ev) == if turn.Stop? then turn.outcome else GroupsFrom(t, lim, s, eof, turn.next)
  {
    hide CloseGroup, NextItem;
  }

  /** What the active cursor retains changes no outcome. */
  lemma RetainStep(t: CodeTables, lim: FrameLimits, s: bytes, ev: Event, g: GroupPos)
    requires t.WellFormed() && ev.Fits(lim, s) && ev.active.Some? && ev.(active := Some(g)).Fits(lim, s)
    requires g.head == ev.active.value.head
    requires forall x | s[ev.cursor..] <= x :: RunFrom(t, g, x, ev.Allowance(lim)) == RunFrom(t, ev.active.value, x, ev.Allowance(lim))
    ensures SameTurns(t, lim, s, ev.(active := Some(g)), ev)
  {
    hide GroupsFrom, RunFrom, EnclosedSigs;
    var ev' := ev.(active := Some(g));
    forall x, eof | s <= x
      ensures GroupsFrom(t, lim, x, eof, ev') == GroupsFrom(t, lim, x, eof, ev)
    {
      SliceOfPrefix(s, x, ev.cursor, ev.cursor);
      assert CloseGroup(t, lim, x, eof, ev') == CloseGroup(t, lim, x, eof, ev);
      UnfoldGroups(t, lim, x, eof, ev);
      UnfoldGroups(t, lim, x, eof, ev');
    }
  }

  /** A framed group is framed, and its enclosure scanned, the same way in every extension. */
  lemma ClosedForGood(t: CodeTables, lim: FrameLimits, s: bytes, eof: bool, ev: Event, x: bytes, eof': bool)
    requires t.WellFormed() && ev.Fits(lim, s) && ev.active.Some? && s <= x
    requires RunFrom(t, ev.active.value, s[ev.cursor..], ev.Allowance(lim)).Ok?
    ensures CloseGroup(t, lim, x, eof', ev) == CloseGroup(t, lim, s, eof, ev)
  {
    hide RunFrom, Scan;
    var g := ev.active.value;
    SliceOfPrefix(s, x, ev.cursor, ev.cursor);
    RunStable(t, g, s[ev.cursor..], x[ev.cursor..], ev.Allowance(lim));
    var extent := RunFrom(t, g, s[ev.cursor..], ev.Allowance(lim)).value;
    SliceOfPrefix(s[ev.cursor..], x[ev.cursor..], g.head.start, extent.len);
  }

  lemma CloseStep(t: CodeTables, lim: FrameLimits, s: bytes, eof: bool, ev: Event, next: Event)
    requires t.WellFormed() && ev.Fits(lim, s) && ev.active.Some?
    requires CloseGroup(t, lim, s, eof, ev) == Continue(next)
    ensures SameTurns(t, lim, s, next, ev)
  {
    hide GroupsFrom, RunFrom, EnclosedSigs;
    forall x, eof' | s <= x
      ensures GroupsFrom(t, lim, x, eof', next) == GroupsFrom(t, lim, x, eof', ev)
    {
      ClosedForGood(t, lim, s, eof, ev, x, eof');
      UnfoldGroups(t, lim, x, eof', ev);
    }
  }

  // ── Where a pending message stands ─────────────────────────────────────

  /** A pending message stands as far as it could get: at the end of the input, on an incomplete
      counter, or on the piece of its active group that is incomplete. */
  ghost predicate EventWaits(t: CodeTables, lim: FrameLimits, s: bytes, ev: Event)
    requires ev.Fits(lim, s)
  {
    if |s| < ev.bodyLen then true
    else if ev.active.Some? then Waiting(t, ev.active.value, s[ev.cursor..], ev.Allowance(lim))
    else ev.cursor == |s| || ReadHead(V1, s[ev.cursor..]).Starved()
  }

  // ── The progress record ────────────────────────────────────────────────

  function TotalLen(done: seq<Extent>): nat {
    if done == [] then 0 else TotalLen(done[..|done| - 1]) + done[|done| - 1].len
  }

  function TotalSigs(done: seq<Extent>): nat {
    if done == [] then 0 else TotalSigs(done[..|done| - 1]) + done[|done| - 1].sigs
  }

  class EventProgress {
    const bodyLen: nat
    var cursor: nat
    var groups: nat
    var signatures: nat
    var group: GroupFrameCursor?

    /** The completed groups: their lengths, and their direct and enclosed signatures. */
    ghost var done: seq<Extent>

    ghost var Repr: set<object>

    ghost predicate Owns()
      reads this, Repr
    {
      && this in Repr
      && if group == null then Repr == {this} else group in Repr && Repr == {this} + group.Repr && group.Valid()
    }

    /** The counters are the sums over the completed groups, and respect the limits. */
    ghost predicate Valid(lim: FrameLimits)
      reads this, Repr
      ensures Valid(lim) ==> this in Repr
    {
      && Owns()
      && cursor == bodyLen + TotalLen(done)
      && groups == |done|
      && signatures == TotalSigs(done)
      && Ev().WithinLimits(lim)
    }

    ghost function Ev(): Event
      reads this, Repr
      requires Owns()
    {
      Event(bodyLen, cursor, groups, signatures, if group == null then None else Some(group.Pos()))
    }

    constructor (bodyLen: nat, ghost lim: FrameLimits)
      ensures Valid(lim) && Ev() == BodyOnly(bodyLen) && fresh(Repr)
    {
      this.bodyLen, cursor, groups, signatures, group := bodyLen, bodyLen, 0, 0, null;
      done, Repr := [], {this};
    }

    /** Advance the active group under what the limits leave for it. */
    method FrameActive(t: CodeTables, lim: FrameLimits, input: bytes) returns (r: Result<nat>)
      requires t.WellFormed() && Valid(lim) && group != null && |input| <= ISIZE_MAX && Ev().Fits(lim, input)
      modifies group.Repr
      ensures Valid(lim) && group != null && Ev().Fits(lim, input) && Ev() == old(Ev()).(active := Some(group.Pos()))
      ensures group.head == old(group.head) && SameTurns(t, lim, input, Ev(), old(Ev()))
      ensures r.Err? && r.error.NeedBytes? ==> Waiting(t, group.Pos(), input[cursor..], Ev().Allowance(lim))
      ensures match RunFrom(t, old(group.Pos()), input[cursor..], Ev().Allowance(lim))
        case Ok(extent) => r == Ok(extent.len) && group.end == extent.len && group.signatureTotal == extent.sigs
        case Err(e) => r == Err(e)
    {
      hide RunFrom, GroupsFrom, TotalLen, TotalSigs;
      ghost var ev := Ev();
      var used := cursor - bodyLen;
      if used > lim.maxAttachmentBytes {
        assert false;
      }
      var allowance := Bounds(lim.maxAttachmentBytes - used, lim.maxGroupElements, SaturatingSub(lim.maxSignatures, signatures));
      r := group.AdvanceLimited(t, input[cursor..], allowance);
      RetainStep(t, lim, input, ev, group.Pos());
      if r.Err? && r.error.NeedBytes? {
        StarvedWaits(t, group.Pos(), input[cursor..], allowance, r.error.missing);
      }
    }

    /** Scan the enclosure of the active group, if it is one. */
    method ScanActive(t: CodeTables, lim: FrameLimits, tail: bytes, ghost extent: Extent) returns (r: Result<nat>)
      requires t.WellFormed() && group != null && group.Valid() && |tail| <= ISIZE_MAX && signatures <= |tail| + cursor <= ISIZE_MAX
      requires group.head.IsEnclosing() ==> extent.sigs == 0
      requires group.head.start <= extent.len <= |tail| && group.end == extent.len && group.signatureTotal == extent.sigs <= extent.len
      ensures r == EnclosedSigs(t, lim, group.head, tail, extent, signatures + extent.sigs, V1)
    {
      hide Scan;
      var payload := group.EnclosingPayload(tail);
      if payload.None? {
        return Ok(0);
      }
      r := ScanEnclosure(t, lim, payload.value, SaturatingAdd(signatures, group.signatureTotal), V1);
    }

    /** `None`: the active group is incomplete; otherwise whether the completed group is the
        envelope that ends the message. The checked subtraction and additions never fail. */
    method AdvanceGroup(t: CodeTables, lim: FrameLimits, input: bytes, eof: bool) returns (r: Result<Option<bool>>)
      requires t.WellFormed() && Valid(lim) && group != null && |input| <= ISIZE_MAX && Ev().Fits(lim, input)
      modifies Repr
      ensures Valid(lim) && fresh(Repr - old(Repr)) && cursor <= |input|
      ensures r.Err? ==> CloseGroup(t, lim, input, eof, old(Ev())) == Stop(Err(r.error))
      ensures r == Ok(None) ==> CloseGroup(t, lim, input, eof, old(Ev())) == Stop(Ok(None))
      ensures r == Ok(Some(true)) ==> CloseGroup(t, lim, input, eof, old(Ev())) == Stop(Ok(Some(SpanOf(Ev()))))
      ensures r == Ok(Some(false)) ==> CloseGroup(t, lim, input, eof, old(Ev())) == Continue(Ev())
      ensures r != Ok(Some(true)) ==> Ev().Fits(lim, input) && SameTurns(t, lim, input, Ev(), old(Ev()))
      ensures r == Ok(None) ==> EventWaits(t, lim, input, Ev())
    {
      hide RunFrom, GroupsFrom, EnclosedSigs, TotalLen, TotalSigs;
      ghost var ev := Ev();
      var end := FrameActive(t, lim, input);
      if end.Err? {
        match end.error {
          case NeedBytes(missing) => return Missing(missing, eof);
          case e => return Err(Attributed(e, lim, signatures));
        }
      }
      var direct := group.signatureTotal;
      var nested := ScanActive(t, lim, input[cursor..], Extent(end.value, direct));
      if nested.Err? {
        return Err(nested.error);
      }
      if signatures + direct + nested.value > USIZE_MAX {
        assert false;
      }
      var envelope := group.head.IsEnvelope();
      Finish(Extent(end.value, direct + nested.value));
      assert Ev() == AfterActive(ev, Extent(end.value, direct), nested.value);
      if !envelope {
        CloseStep(t, lim, input, eof, ev, Ev());
      }
      r := Ok(Some(envelope));
    }

    /** Count a completed group. */
    method Finish(extent: Extent)
      requires cursor == bodyLen + TotalLen(done) && groups == |done| && signatures == TotalSigs(done)
      modifies this
      ensures cursor == old(cursor) + extent.len && groups == old(groups) + 1 && signatures == old(signatures) + extent.sigs
      ensures group == null && done == old(done) + [extent] && Repr == {this}
      ensures cursor == bodyLen + TotalLen(done) && groups == |done| && signatures == TotalSigs(done)
    {
      cursor, groups, signatures, group := cursor + extent.len, groups + 1, signatures + extent.sigs, null;
      done, Repr := done + [extent], {this};
      assert done[..|done| - 1] == old(done);
    }

    /** Open the group at the cursor; `false` while its counter is incomplete. */
    method BeginGroup(t: CodeTables, lim: FrameLimits, input: bytes, eof: bool) returns (r: Result<bool>)
      requires t.WellFormed() && Valid(lim) && group == null && |input| <= ISIZE_MAX && Ev().Fits(lim, input)
      requires cursor < |input| && Detect(input[cursor]) == Ok(CesrBase64)
      modifies this
      ensures Valid(lim) && fresh(Repr - old(Repr)) && Ev().Fits(lim, input) && cursor == old(cursor)
      ensures r.Err? ==> NextItem(t, lim, input, eof, old(Ev())) == Stop(Err(r.error)) && Ev() == old(Ev())
      ensures r == Ok(false) ==> NextItem(t, lim, input, eof, old(Ev())) == Stop(Ok(None)) && Ev() == old(Ev())
      ensures r == Ok(false) ==> EventWaits(t, lim, input, Ev())
      ensures r == Ok(true) ==> NextItem(t, lim, input, eof, old(Ev())) == Continue(Ev()) && SameTurns(t, lim, input, Ev(), old(Ev()))
    {
      hide RunFrom, GroupsFrom, ReadHead, TotalLen, TotalSigs;
      if groups >= lim.maxAttachmentGroups {
        return Err(LimitExceeded(AttachmentGroups, lim.maxAttachmentGroups, groups + 1));
      }
      var tail := input[cursor..];
      assert tail[0] == input[cursor];
      var head := ReadHead(V1, tail);
      if head.Err? {
        if !head.error.NeedBytes? {
          return Err(head.error);
        }
        var pending := PendingCounter(lim, cursor - bodyLen, |tail|, head.error.missing, eof);
        if pending.Err? {
          return Err(pending.error);
        }
        return Ok(false);
      }
      var checked := CheckElements(lim, head.value);
      if checked.Err? {
        return Err(checked.error);
      }
      ghost var ev := Ev();
      OpenStep(t, lim, input, ev, head.value);
      group := new GroupFrameCursor(head.value);
      Repr := {this} + group.Repr;
      r := Ok(true);
    }

    /** `advance`: the outcome is that of framing the whole input from the position before the
        call; unless a span was emitted, the position after it leads every longer input to the
        same outcome as the position before. While the message is pending, everything complete
        lies behind the position. */
    method Advance(t: CodeTables, lim: FrameLimits, input: bytes, eof: bool) returns (r: Result<Option<FrameSpan>>)
      requires t.WellFormed() && Valid(lim) && |input| <= ISIZE_MAX && Ev().Fits(lim, input)
      modifies Repr
      ensures Valid(lim) && fresh(Repr - old(Repr))
      ensures r == EventFrom(t, lim, input, eof, old(Ev()))
      ensures !(r.Ok? && r.value.Some?) ==>
        && Ev().Fits(lim, input)
        && forall x, e | input <= x :: EventFrom(t, lim, x, e, Ev()) == EventFrom(t, lim, x, e, old(Ev()))
      ensures r == Ok(None) ==> EventWaits(t, lim, input, Ev())
    {
      hide GroupsFrom, CloseGroup, RunFrom, TotalLen, TotalSigs;
      if |input| < bodyLen {
        return Missing(bodyLen - |input|, eof);
      }
      if |input| < cursor {
        assert false;
      }
      ghost var ev := Ev();
      while true
        invariant Valid(lim) && fresh(Repr - old(Repr)) && Ev().Fits(lim, input)
        invariant cursor <= |input| && SameTurns(t, lim, input, Ev(), ev)
        decreases lim.maxAttachmentGroups - groups, if group != null then 0 else 1
      {
        UnfoldGroups(t, lim, input, eof, Ev());
        if group != null {
          var envelope := AdvanceGroup(t, lim, input, eof);
          if envelope.Err? {
            return Err(envelope.error);
          }
          if envelope.value.None? {
            return Ok(None);
          }
          if envelope.value.value {
            return Ok(Some(FrameSpan(Some(bodyLen), cursor)));
          }
          continue;
        }
        if cursor == |input| {
          r := if eof then Ok(Some(FrameSpan(Some(bodyLen), cursor))) else Ok(None);
          return;
        }
        assert input[cursor..][0] == input[cursor];
        var cold := Detect(input[cursor]);
        if cold.Err? {
          return Err(cold.error);
        }
        if IsBody(cold.value) {
          return Ok(Some(FrameSpan(Some(bodyLen), cursor)));
        }
        if cold.value == CesrBinary {
          return Err(UnsupportedColdStart(cold.value));
        }
        var begun := BeginGroup(t, lim, input, eof);
        if begun.Err? {
          return Err(begun.error);
        }
        if !begun.value {
          return Ok(None);
        }
      }
    }
  }
}
