/** The incremental message framer. */
module Framers {
  import opened Prelude
  import opened Primitives
  import opened VersionHead
  import opened GroupGrammar
  import opened GroupCursors
  import opened Enclosures
  import opened FrameGrammar
  import opened Events

  // ── What the first bytes decide ────────────────────────────────────────

  /** Once the declared size is known, every extension is framed as that event. */
  lemma BodyDecided(t: CodeTables, lim: FrameLimits, s: bytes, x: bytes, eof: bool, cold: ColdCode, size: nat)
    requires t.WellFormed() && s != [] && s <= x && Detect(s[0]) == Ok(cold) && IsBody(cold)
    requires EventSize(s, cold) == Ok(size) && size <= lim.maxBodyBytes
    ensures Frame(t, lim, x, eof) == EventFrom(t, lim, x, eof, BodyOnly(size))
  {
    hide EventFrom, EventSize;
    assert x[0] == s[0];
    HeadSizingIsFinal(s, x, cold);
  }

  /** Once the first counter is known, every extension is framed as that group. */
  lemma GroupDecided(t: CodeTables, lim: FrameLimits, s: bytes, x: bytes, eof: bool, head: GroupHead)
    requires t.WellFormed() && s != [] && s <= x && Detect(s[0]) == Ok(CesrBase64)
    requires ReadHead(V1, s) == Ok(head) && CheckElements(lim, head).Ok?
    ensures Frame(t, lim, x, eof) == BareFrom(t, lim, x, eof, StartOf(head))
  {
    hide BareFrom, ReadHead;
    assert x[0] == s[0];
    ReadHeadStable(V1, s, x);
  }

  /** A framed bare group, and the scan of its enclosure, are the same in every extension. */
  lemma BareRetain(t: CodeTables, lim: FrameLimits, s: bytes, g: GroupPos, g': GroupPos)
    requires t.WellFormed() && g.Fits(s, BareBounds(lim)) && g'.Fits(s, BareBounds(lim)) && g'.head == g.head
    requires forall x | s <= x :: RunFrom(t, g', x, BareBounds(lim)) == RunFrom(t, g, x, BareBounds(lim))
    ensures forall x, eof | s <= x :: BareFrom(t, lim, x, eof, g') == BareFrom(t, lim, x, eof, g)
  {
    hide RunFrom, EnclosedSigs;
  }

  // ── The framer ─────────────────────────────────────────────────────────

  datatype State = Idle | InEvent(event: EventProgress) | InBare(group: GroupFrameCursor)

  class MessageFramer {
    const t: CodeTables
    const limits: FrameLimits
    var state: State
    var jsonHead: JsonVersionHead

    /** The prefix that the calls for the current frame have seen. */
    ghost var seen: bytes

    ghost var Repr: set<object>

    /** The objects a state is made of. */
    static ghost function OwnedBy(st: State): set<object>
      reads if st.InEvent? then {st.event} else {}
    {
      match st
      case Idle => {}
      case InEvent(event) => {event} + event.Repr
      case InBare(group) => {group} + group.Repr
    }

    /** The head scan resumed on any extension of `s` equals a scan from the start. */
    ghost predicate HeadKept(s: bytes)
      reads this, jsonHead
    {
      && (jsonHead.offset == 1 || jsonHead.offset <= |s|)
      && forall x | s <= x :: JsonHeadFrom(x, jsonHead.offset, jsonHead.state) == JsonHead(x)
    }

    /** A running state that answers for every extension of `s` what a fresh framer answers. */
    ghost predicate Begins(s: bytes, st: State)
      requires t.WellFormed()
      reads OwnedBy(st), if st.InEvent? then {st.event} else {}
    {
      match st
      case Idle => false
      case InEvent(event) =>
        && event.Valid(limits)
        && event.Ev().Fits(limits, s)
        && forall x, eof | s <= x :: EventFrom(t, limits, x, eof, event.Ev()) == Frame(t, limits, x, eof)
      case InBare(group) =>
        && group.Valid()
        && group.Pos().Fits(s, BareBounds(limits))
        && forall x, eof | s <= x :: BareFrom(t, limits, x, eof, group.Pos()) == Frame(t, limits, x, eof)
    }

    /** The objects this framer is made of. */
    ghost predicate Owns()
      reads this, Repr
    {
      && this in Repr
      && jsonHead in Repr
      && (state.InEvent? ==> state.event in Repr)
      && Repr == {this, jsonHead} + OwnedBy(state)
    }

    ghost predicate Valid()
      reads this, Repr
      ensures Valid() ==> this in Repr
    {
      && Owns()
      && t.WellFormed()
      && if state.Idle? then HeadKept(seen) else Begins(seen, state)
    }

    /** The head scan stands at its end or at the end of the input. */
    ghost predicate HeadStands(s: bytes)
      reads this, jsonHead
    {
      s != [] && Detect(s[0]) == Ok(Json) ==> jsonHead.offset == |s| || JsonHead(s) == Ok(jsonHead.offset)
    }

    /** A pending frame has left everything complete behind. */
    ghost predicate Waits()
      requires Valid()
      reads this, Repr
    {
      match state
      case Idle => HeadStands(seen)
      case InEvent(event) => EventWaits(t, limits, seen, event.Ev())
      case InBare(group) => Waiting(t, group.Pos(), seen, BareBounds(limits))
    }

    constructor (t: CodeTables, limits: FrameLimits)
      requires t.WellFormed()
      ensures Valid() && fresh(Repr) && seen == [] && this.t == t && this.limits == limits
    {
      this.t, this.limits, state, seen := t, limits, Idle, [];
      var head := new JsonVersionHead();
      jsonHead := head;
      Repr := {this, head};
    }

    /** The declared size of the body at the head of `input`; the JSON head is resumed. */
    method DeclaredSize(input: bytes, cold: ColdCode) returns (r: Result<nat>)
      requires t.WellFormed() && state.Idle? && HeadKept(seen) && seen <= input && input != [] && |input| <= ISIZE_MAX
      requires IsBody(cold)
      modifies jsonHead
      ensures r == EventSize(input, cold) && HeadKept(input)
      ensures cold == Json && (r.Ok? || r.Starved()) ==> jsonHead.offset == |input| || JsonHead(input) == Ok(jsonHead.offset)
    {
      hide BinaryVersionOffset, EventSizeAt;
      if cold != Json {
        return EventSize(input, cold);
      }
      var offset := jsonHead.Advance(input);
      assert offset == JsonHead(input);
      if offset.Err? {
        return Err(offset.error);
      }
      r := EventSizeAt(input, offset.value, cold);
    }

    /** `start`: the state that the first bytes lead to. */
    method Start(input: bytes, eof: bool) returns (r: Result<Option<State>>)
      requires Valid() && state.Idle? && seen <= input && |input| <= ISIZE_MAX
      modifies jsonHead
      ensures HeadKept(input)
      ensures r.Err? ==> Frame(t, limits, input, eof) == Err(r.error)
      ensures r == Ok(None) ==> Frame(t, limits, input, eof) == Ok(None) && HeadStands(input)
      ensures r.Ok? && r.value.Some? ==> Begins(input, r.value.value) && fresh(OwnedBy(r.value.value))
    {
      hide EventFrom, BareFrom, EventSize, JsonHead, ReadHead;
      if input == [] {
        return Ok(None);
      }
      var cold := Detect(input[0]);
      if cold.Err? {
        return Err(cold.error);
      }
      match cold.value {
        case CesrBinary =>
          return Err(UnsupportedColdStart(cold.value));
        case CesrBase64 =>
          r := StartBare(input, eof);
        case _ =>
          var declared := DeclaredSize(input, cold.value);
          var size := BodyLength(limits, |input|, eof, declared);
          if size.Err? {
            return Err(size.error);
          }
          if size.value.None? {
            return Ok(None);
          }
          var event := new EventProgress(size.value.value, limits);
          forall x, e | input <= x
            ensures EventFrom(t, limits, x, e, BodyOnly(size.value.value)) == Frame(t, limits, x, e)
          {
            BodyDecided(t, limits, input, x, e, cold.value, size.value.value);
          }
          r := Ok(Some(InEvent(event)));
      }
    }

    method StartBare(input: bytes, eof: bool) returns (r: Result<Option<State>>)
      requires t.WellFormed() && input != [] && Detect(input[0]) == Ok(CesrBase64)
      ensures r.Err? ==> Frame(t, limits, input, eof) == Err(r.error)
      ensures r == Ok(None) ==> Frame(t, limits, input, eof) == Ok(None)
      ensures r.Ok? && r.value.Some? ==> Begins(input, r.value.value) && fresh(OwnedBy(r.value.value))
    {
      hide BareFrom, ReadHead;
      var head := ReadHead(V1, input);
      if head.Err? {
        if !head.error.NeedBytes? {
          return Err(head.error);
        }
        var pending := PendingCounter(limits, 0, |input|, head.error.missing, eof);
        return if pending.Err? then Err(pending.error) else Ok(None);
      }
      var checked := CheckElements(limits, head.value);
      if checked.Err? {
        return Err(checked.error);
      }
      var group := new GroupFrameCursor(head.value);
      forall x, e | input <= x
        ensures BareFrom(t, limits, x, e, StartOf(head.value)) == Frame(t, limits, x, e)
      {
        GroupDecided(t, limits, input, x, e, head.value);
      }
      r := Ok(Some(InBare(group)));
    }

    /** What answers for every extension of a prefix answers for every extension of a longer one. */
    lemma BeginsLater(s: bytes, st: State)
      requires t.WellFormed() && Begins(seen, st) && seen <= s
      ensures Begins(s, st) && this !in OwnedBy(st) && jsonHead !in OwnedBy(st)
    {
      hide Frame, EventFrom, BareFrom;
    }

    /** `advance` on a complete or growing bare group. */
    method AdvanceBare(group: GroupFrameCursor, input: bytes, eof: bool) returns (r: Result<Option<FrameSpan>>)
      requires t.WellFormed() && Begins(input, InBare(group)) && |input| <= ISIZE_MAX
      modifies group.Repr
      ensures Begins(input, InBare(group)) && r == Frame(t, limits, input, eof)
      ensures r == Ok(None) ==> Waiting(t, group.Pos(), input, BareBounds(limits))
    {
      hide RunFrom, Scan, Frame;
      ghost var g := group.Pos();
      var total := group.AdvanceLimited(t, input, BareBounds(limits));
      BareRetain(t, limits, input, g, group.Pos());
      if total.Err? {
        match total.error {
          case NeedBytes(missing) =>
            StarvedWaits(t, group.Pos(), input, BareBounds(limits), missing);
            return Missing(missing, eof);
          case e => return Err(e);
        }
      }
      var payload := group.EnclosingPayload(input);
      if payload.Some? {
        var scanned := ScanEnclosure(t, limits, payload.value, group.signatureTotal, V1);
        if scanned.Err? {
          return Err(scanned.error);
        }
      }
      r := Ok(Some(FrameSpan(None, total.value)));
    }

    /** The retained framer is indistinguishable from a fresh one: whatever earlier calls on
        shorter prefixes returned, errors and end-of-input calls included, this call answers
        exactly what framing the whole input from the start answers. A span resets the framer
        for the next frame; a pending frame leaves everything complete behind. */
    method Advance(input: bytes, eof: bool) returns (r: Result<Option<FrameSpan>>)
      requires Valid() && seen <= input && |input| <= ISIZE_MAX
      modifies Repr
      ensures Valid() && fresh(Repr - old(Repr))
      ensures r == Frame(t, limits, input, eof)
      ensures seen == if r.Ok? && r.value.Some? then [] else input
      ensures r == Ok(None) ==> Waits()
    {
      hide Frame, EventFrom, BareFrom, JsonHead;
      if state.Idle? {
        var begun := Start(input, eof);
        seen := input;
        if begun.Err? {
          return Err(begun.error);
        }
        if begun.value.None? {
          return Ok(None);
        }
        state := begun.value.value;
        Repr := {this, jsonHead} + OwnedBy(state);
      }
      r := Resume(input, eof);
      if r.Ok? && r.value.Some? {
        Reset();
      }
    }

    method AdvanceEvent(event: EventProgress, input: bytes, eof: bool) returns (r: Result<Option<FrameSpan>>)
      requires t.WellFormed() && Begins(input, InEvent(event)) && |input| <= ISIZE_MAX
      modifies event.Repr
      ensures r == Frame(t, limits, input, eof)
      ensures event in event.Repr && this !in event.Repr && jsonHead !in event.Repr && fresh(event.Repr - old(event.Repr))
      ensures !(r.Ok? && r.value.Some?) ==> Begins(input, InEvent(event))
      ensures r == Ok(None) ==> EventWaits(t, limits, input, event.Ev())
    {
      hide Frame, EventFrom;
      r := event.Advance(t, limits, input, eof);
    }

    /** `advance` on a state that was begun by this call or an earlier one. */
    method Resume(input: bytes, eof: bool) returns (r: Result<Option<FrameSpan>>)
      requires Valid() && !state.Idle? && seen <= input && |input| <= ISIZE_MAX
      modifies Repr
      ensures r == Frame(t, limits, input, eof)
      ensures this in Repr && fresh(Repr - old(Repr))
      ensures !(r.Ok? && r.value.Some?) ==> Valid() && seen == input
      ensures r == Ok(None) ==> Waits()
    {
      hide Frame, EventFrom, BareFrom, Begins;
      BeginsLater(input, state);
      seen := input;
      match state {
        case InEvent(event) => r := AdvanceEvent(event, input, eof);
        case InBare(group) => r := AdvanceBare(group, input, eof);
      }
      Repr := {this, jsonHead} + OwnedBy(state);
    }

    /** Ready for the next frame. */
    method Reset()
      requires t.WellFormed()
      modifies this
      ensures Valid() && seen == [] && fresh(Repr - {this})
    {
      var head := new JsonVersionHead();
      state, seen, jsonHead, Repr := Idle, [], head, {this, head};
    }
  }
}
