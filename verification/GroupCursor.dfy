/** Framing one group from a growing prefix: answers are final, and the retained cursor agrees
    with a scan from the start. */
module GroupCursors {
  import opened Prelude
  import opened CounterCodes
  import opened Primitives
  import opened GroupGrammar
  import opened NestedSigCursors

  // ── Answers survive the arrival of more bytes ──────────────────────────

  lemma ReadHeadStable(version: CesrVersion, s: bytes, x: bytes)
    requires s <= x && !ReadHead(version, s).Starved()
    ensures ReadHead(version, x) == ReadHead(version, s)
  {
    hide ReadCounter;
    ReadCounterStable(version, s, x);
  }

  lemma NestedStable(t: CodeTables, version: CesrVersion, s: bytes, x: bytes, p: Partial, maxElements: nat, maxSignatures: nat)
    requires t.WellFormed() && s <= x && p.pos <= |s|
    requires !NestedFrom(t, version, s, p, maxElements, maxSignatures).Starved()
    ensures NestedFrom(t, version, x, p, maxElements, maxSignatures) == NestedFrom(t, version, s, p, maxElements, maxSignatures)
  {
    hide MattersFrom, IndexersFrom, ReadCounter;
    MattersStable(t, s, x, p.pos, p.mattersLeft);
    var pos := MattersFrom(t, s, p.pos, p.mattersLeft);
    if pos.Ok? {
      if p.run.Some? {
        IndexersStable(t, s, x, pos.value, p.run.value.left);
      } else {
        SliceOfPrefix(s, x, pos.value, pos.value);
        ReadCounterStable(version, s[pos.value..], x[pos.value..]);
        var c := NestedCounter(version, s[pos.value..], maxElements, maxSignatures);
        if c.Ok? {
          IndexersStable(t, s, x, pos.value + c.value.code.FullSize(), c.value.count);
        }
      }
    }
  }

  lemma FlatStable(t: CodeTables, layout: Layout, s: bytes, x: bytes)
    requires t.WellFormed() && layout.Elements? && s <= x && !FlatSpan(t, layout, s).Starved()
    ensures FlatSpan(t, layout, x) == FlatSpan(t, layout, s)
  {
    hide MattersFrom, IndexerSpan;
    MattersStable(t, s, x, 0, layout.matters);
    var pos := MattersFrom(t, s, 0, layout.matters);
    if pos.Ok? && layout.tail == OneIndexer {
      SliceOfPrefix(s, x, pos.value, pos.value);
      IndexerSpanStable(t, s[pos.value..], x[pos.value..]);
    }
  }

  lemma ElementStable(t: CodeTables, head: GroupHead, s: bytes, x: bytes, p: Partial, maxElements: nat, maxSignatures: nat)
    requires t.WellFormed() && s <= x && p.pos <= |s| && Inside(head, p) && p.Declared() <= maxSignatures
    requires !ElementFrom(t, head, s, p, maxElements, maxSignatures).Starved()
    ensures ElementFrom(t, head, x, p, maxElements, maxSignatures) == ElementFrom(t, head, s, p, maxElements, maxSignatures)
  {
    hide NestedFrom, FlatSpan;
    if head.layout.tail == NestedSigs {
      NestedStable(t, head.version, s, x, p, maxElements, maxSignatures);
    } else {
      FlatStable(t, head.layout, s, x);
    }
  }

  /** Two runs that a longer input cannot tell apart: the same extent, or both refused for good. */
  predicate SameFate<T(==)>(r: Result<T>, r': Result<T>) {
    if r.Ok? then r' == r else r'.Err? && !r'.Starved()
  }

  lemma WindowGrows(s: bytes, x: bytes, end: nat, maxBytes: nat)
    requires s <= x && end <= |s| && end <= maxBytes
    ensures Window(s, end, maxBytes) <= Window(x, end, maxBytes)
    ensures |s| >= maxBytes ==> Window(s, end, maxBytes) == Window(x, end, maxBytes)
  {
    var a, b := Min(|s|, maxBytes), Min(|x|, maxBytes);
    SliceOfPrefix(s, x, end, a);
    assert x[end..a] <= x[end..b];
  }

  lemma {:induction false} ElementsStable(t: CodeTables, g: GroupPos, s: bytes, x: bytes, b: Bounds)
    requires t.WellFormed() && s <= x && g.Fits(s, b) && g.end <= b.maxBytes && g.KnownSignatures() <= b.maxSignatures
    requires !ElementsFrom(t, g, s, b).Starved()
    ensures SameFate(ElementsFrom(t, g, s, b), ElementsFrom(t, g, x, b))
    decreases g.remaining
  {
    hide ElementFrom;
    if g.remaining > 0 {
      var w, w' := Window(s, g.end, b.maxBytes), Window(x, g.end, b.maxBytes);
      WindowGrows(s, x, g.end, b.maxBytes);
      var element := ElementFrom(t, g.head, w, g.part, b.maxElements, b.maxSignatures - g.sigs);
      if !element.Starved() {
        ElementStable(t, g.head, w, w', g.part, b.maxElements, b.maxSignatures - g.sigs);
        if element.Ok? {
          ElementsStable(t, NextElement(g, element.value), s, x, b);
        }
      }
    }
  }

  lemma RunStable(t: CodeTables, g: GroupPos, s: bytes, x: bytes, b: Bounds)
    requires t.WellFormed() && s <= x && g.Fits(s, b) && !RunFrom(t, g, s, b).Starved()
    ensures SameFate(RunFrom(t, g, s, b), RunFrom(t, g, x, b))
  {
    hide ElementsFrom;
    if g.KnownSignatures() <= b.maxSignatures && g.end <= b.maxBytes {
      ElementsStable(t, g, s, x, b);
    }
  }

  // ── Steps of the cursor ────────────────────────────────────────────────

  ghost predicate SameElement(t: CodeTables, head: GroupHead, s: bytes, p: Partial, q: Partial, maxElements: nat, maxSignatures: nat)
    requires t.WellFormed() && p.pos <= |s| && q.pos <= |s| && Inside(head, p) && Inside(head, q)
    requires p.Declared() <= maxSignatures && q.Declared() <= maxSignatures
  {
    forall x | s <= x ::
      ElementFrom(t, head, x, p, maxElements, maxSignatures) == ElementFrom(t, head, x, q, maxElements, maxSignatures)
  }

  ghost predicate Ready(t: CodeTables, g: GroupPos, s: bytes, b: Bounds) {
    t.WellFormed() && g.Fits(s, b) && g.end <= b.maxBytes && g.KnownSignatures() <= b.maxSignatures
  }

  /** Both positions lead every extension of `s` to the same result. */
  ghost predicate SameElements(t: CodeTables, s: bytes, g: GroupPos, g': GroupPos, b: Bounds)
    requires Ready(t, g, s, b) && Ready(t, g', s, b)
  {
    forall x | s <= x :: ElementsFrom(t, g, x, b) == ElementsFrom(t, g', x, b)
  }

  /** Progress inside an element changes no answer. */
  lemma PartStep(t: CodeTables, s: bytes, g: GroupPos, part: Partial, b: Bounds)
    requires Ready(t, g, s, b) && Ready(t, g.(part := part), s, b) && g.remaining > 0
    requires SameElement(t, g.head, Window(s, g.end, b.maxBytes), part, g.part, b.maxElements, b.maxSignatures - g.sigs)
    ensures SameElements(t, s, g.(part := part), g, b)
  {
    hide ElementFrom;
    forall x | s <= x
      ensures ElementsFrom(t, g.(part := part), x, b) == ElementsFrom(t, g, x, b)
    {
      WindowGrows(s, x, g.end, b.maxBytes);
    }
  }

  /** Neither does stepping over a complete element. */
  lemma ElementStep(t: CodeTables, s: bytes, g: GroupPos, element: Extent, b: Bounds)
    requires Ready(t, g, s, b) && g.remaining > 0
    requires ElementFrom(t, g.head, Window(s, g.end, b.maxBytes), g.part, b.maxElements, b.maxSignatures - g.sigs) == Ok(element)
    ensures Ready(t, NextElement(g, element), s, b)
    ensures SameElements(t, s, NextElement(g, element), g, b)
  {
    hide ElementFrom;
    forall x | s <= x
      ensures ElementsFrom(t, NextElement(g, element), x, b) == ElementsFrom(t, g, x, b)
    {
      WindowGrows(s, x, g.end, b.maxBytes);
      ElementStable(t, g.head, Window(s, g.end, b.maxBytes), Window(x, g.end, b.maxBytes), g.part, b.maxElements, b.maxSignatures - g.sigs);
    }
  }

  lemma CountedRunIgnoresBudget(t: CodeTables, version: CesrVersion, s: bytes, p: Partial, maxElements: nat, m: nat, m': nat)
    requires t.WellFormed() && p.pos <= |s| && p.run.Some?
    ensures NestedFrom(t, version, s, p, maxElements, m) == NestedFrom(t, version, s, p, maxElements, m')
  {
    hide MattersFrom, IndexersFrom;
  }

  // ── Where a scan stops ─────────────────────────────────────────────────

  /** The current element fails at its retained position, not before it. */
  ghost predicate ElementStuck(t: CodeTables, head: GroupHead, s: bytes, p: Partial, maxElements: nat, maxSignatures: nat, e: ParseError)
    requires t.WellFormed() && p.pos <= |s| && Inside(head, p)
  {
    if head.layout.tail == NestedSigs then Stuck(t, head.version, s, p, maxElements, maxSignatures, e)
    else FlatSpan(t, head.layout, s) == Err(e)
  }

  /** A scan that failed with `e` stands as far as it could get: at the end of a payload that is not
      all there, or on the failing piece of the element it could not complete. */
  ghost predicate Stalled(t: CodeTables, g: GroupPos, s: bytes, b: Bounds, e: ParseError)
    requires Ready(t, g, s, b)
  {
    if g.remaining == 0 then |s| < g.end && e == NeedBytes(g.end - |s|)
    else exists inner :: ElementStuck(t, g.head, Window(s, g.end, b.maxBytes), g.part, b.maxElements, b.maxSignatures - g.sigs, inner)
                         && e == Budgeted(inner, |s|, b.maxBytes)
  }

  /** As `Stalled`, or the position was beyond the limits from the start. */
  ghost predicate Halted(t: CodeTables, g: GroupPos, s: bytes, b: Bounds, e: ParseError)
    requires t.WellFormed() && g.Fits(s, b)
  {
    g.KnownSignatures() > b.maxSignatures || g.end > b.maxBytes || Stalled(t, g, s, b, e)
  }

  /** A scan waits for bytes: nothing complete is ahead of its position. */
  ghost predicate Waiting(t: CodeTables, g: GroupPos, s: bytes, b: Bounds) {
    Ready(t, g, s, b) && exists missing :: Stalled(t, g, s, b, NeedBytes(missing))
  }

  lemma StarvedWaits(t: CodeTables, g: GroupPos, s: bytes, b: Bounds, missing: nat)
    requires t.WellFormed() && g.Fits(s, b) && RunFrom(t, g, s, b) == Err(NeedBytes(missing)) && Halted(t, g, s, b, NeedBytes(missing))
    ensures Waiting(t, g, s, b) && Stalled(t, g, s, b, NeedBytes(missing))
  {
    hide ElementsFrom, ElementStuck;
  }

  // ── The cursor ─────────────────────────────────────────────────────────

  class GroupFrameCursor {
    const head: GroupHead
    const nested: NestedSigCursor?
    var end: nat
    var remaining: nat
    var nestedCounted: bool
    var signatureTotal: nat

    ghost const Repr: set<object>

    ghost predicate Valid()
      reads this, Repr
      ensures Valid() ==> this in Repr
    {
      && Repr == {this} + (if nested == null then {} else {nested})
      && head.layout.Solid()
      && (nested != null <==> head.layout.Elements? && head.layout.tail == NestedSigs)
      && (remaining > 0 ==> head.layout.Elements?)
      && if nested == null then !nestedCounted else
           && nested.Valid()
           && nested.initialMatters == head.layout.matters
           && (nestedCounted <==> nested.declaredSigs.Some?)
           && (nestedCounted ==> nested.declaredSigs.value <= signatureTotal)
           && (remaining == 0 ==> nested.Part() == FreshElement(head))
    }

    ghost function Part(): Partial
      reads this, Repr
      requires Valid()
    {
      if nested == null then FreshElement(head) else nested.Part()
    }

    /** Where this cursor stands. */
    ghost function Pos(): GroupPos
      reads this, Repr
      requires Valid()
    {
      GroupPos(head, end, remaining, signatureTotal - Part().Declared(), Part())
    }

    /** The cursor of a group whose counter has just been read. */
    constructor (head: GroupHead)
      requires head.layout.Solid()
      ensures Valid() && fresh(Repr) && Pos() == StartOf(head)
    {
      this.head := head;
      end := head.FirstEnd();
      remaining := if head.layout.Elements? then head.count else 0;
      nestedCounted := false;
      signatureTotal := if head.layout.Elements? then head.count * head.layout.sigsEach else 0;
      ghost var owned: set<object> := {};
      if head.layout.Elements? && head.layout.tail == NestedSigs {
        var inner := new NestedSigCursor(head.layout.matters);
        nested, owned := inner, {inner};
      } else {
        nested := null;
      }
      Repr := {this} + owned;
    }

    /** `K::skip` of an element without a nested list. */
    method SkipFlat(t: CodeTables, tail: bytes) returns (r: Result<nat>)
      requires Valid() && t.WellFormed() && |tail| <= ISIZE_MAX && head.layout.Elements?
      ensures r == FlatSpan(t, head.layout, tail)
    {
      hide MatterSpan, IndexerSpan, MattersFrom;
      var ts := new TextStream(tail);
      var matters := ts.SkipMatters(t, head.layout.matters);
      if matters.Err? {
        return Err(matters.error);
      }
      if head.layout.tail == OneIndexer {
        var last := ts.SkipIndexer(t);
        if last.Err? {
          return Err(last.error);
        }
      }
      r := Ok(ts.pos);
    }

    /** One attempt at the current element. */
    method AdvanceElement(t: CodeTables, tail: bytes, maxElements: nat, maxSignatures: usize) returns (r: Result<nat>)
      requires Valid() && t.WellFormed() && remaining > 0
      requires Part().pos <= |tail| <= ISIZE_MAX && Pos().KnownSignatures() <= maxSignatures
      modifies Repr
      ensures Valid() && Part().pos <= |tail|
      ensures Pos() == old(Pos()).(part := Part()) && Pos().KnownSignatures() <= maxSignatures
      ensures match ElementFrom(t, head, tail, old(Part()), maxElements, maxSignatures - old(Pos()).sigs)
        case Ok(element) => r == Ok(element.len) && signatureTotal == old(Pos()).sigs + element.sigs
        case Err(e) => r == Err(e)
      ensures SameElement(t, head, tail, Part(), old(Part()), maxElements, maxSignatures - old(Pos()).sigs)
      ensures r.Err? ==> ElementStuck(t, head, tail, Part(), maxElements, maxSignatures - old(Pos()).sigs, r.error)
    {
      hide NestedFrom, FlatSpan;
      if nested == null {
        r := SkipFlat(t, tail);
        return;
      }
      ghost var p := Part();
      ghost var budget := maxSignatures - Pos().sigs;
      r := nested.AdvanceBounded(t, tail, head.version, maxElements, maxSignatures - signatureTotal);
      if p.run.Some? {
        forall x | tail <= x
          ensures NestedFrom(t, head.version, x, p, maxElements, maxSignatures - signatureTotal)
               == NestedFrom(t, head.version, x, p, maxElements, budget)
          ensures NestedFrom(t, head.version, x, nested.Part(), maxElements, maxSignatures - signatureTotal)
               == NestedFrom(t, head.version, x, nested.Part(), maxElements, budget)
        {
          CountedRunIgnoresBudget(t, head.version, x, p, maxElements, maxSignatures - signatureTotal, budget);
          CountedRunIgnoresBudget(t, head.version, x, nested.Part(), maxElements, maxSignatures - signatureTotal, budget);
        }
      }
      if !nestedCounted && nested.declaredSigs.Some? {
        if signatureTotal + nested.declaredSigs.value > USIZE_MAX {
          assert false;
        }
        signatureTotal, nestedCounted := signatureTotal + nested.declaredSigs.value, true;
      }
    }

    /** `advance_limited`: the answer is that of a scan from the start of the group, and what is
        retained never changes any later answer, whatever this call returned. Completed elements,
        and completed pieces of the current one, are left behind for good. */
    method AdvanceLimited(t: CodeTables, input: bytes, b: Bounds) returns (r: Result<nat>)
      requires Valid() && t.WellFormed() && |input| <= ISIZE_MAX && b.maxSignatures <= USIZE_MAX
      requires Pos().Fits(input, b)
      modifies Repr
      ensures Valid() && Pos().Fits(input, b)
      ensures match RunFrom(t, old(Pos()), input, b)
        case Ok(extent) => r == Ok(extent.len) && end == extent.len && signatureTotal == extent.sigs
        case Err(e) => r == Err(e)
      ensures forall x | input <= x :: RunFrom(t, Pos(), x, b) == RunFrom(t, old(Pos()), x, b)
      ensures old(end) <= end && remaining <= old(remaining)
      ensures r.Err? ==> Halted(t, Pos(), input, b, r.error)
    {
      hide ElementsFrom;
      if signatureTotal > b.maxSignatures {
        return Err(LimitExceeded(Signatures, b.maxSignatures, signatureTotal));
      }
      if end > b.maxBytes {
        return Err(LimitExceeded(AttachmentBytes, b.maxBytes, end));
      }
      r := AdvanceElements(t, input, b);
    }

    /** Step over a complete element; the next one starts afresh. */
    method PassElement(size: nat)
      requires Valid() && remaining > 0
      modifies Repr
      ensures Valid()
      ensures Pos() == GroupPos(head, old(end) + size, old(remaining) - 1, old(signatureTotal), FreshElement(head))
    {
      end, remaining := end + size, remaining - 1;
      if nested != null {
        nested.Reset();
        nestedCounted := false;
      }
    }

    /** One attempt at the current element, and on success the step past it. */
    method PassCurrent(t: CodeTables, input: bytes, b: Bounds) returns (r: Result<()>)
      requires Valid() && Ready(t, Pos(), input, b) && |input| <= ISIZE_MAX && b.maxSignatures <= USIZE_MAX && remaining > 0
      modifies Repr
      ensures Valid() && Ready(t, Pos(), input, b)
      ensures SameElements(t, input, Pos(), old(Pos()), b)
      ensures r.Ok? ==> remaining == old(remaining) - 1 && old(end) < end
      ensures r.Err? ==> remaining == old(remaining) && end == old(end)
      ensures r.Err? ==> ElementsFrom(t, old(Pos()), input, b) == Err(r.error) && Stalled(t, Pos(), input, b, r.error)
    {
      hide ElementsFrom, ElementFrom, Window, ElementStuck;
      if end > Min(|input|, b.maxBytes) {
        assert false;
      }
      var tail := Window(input, end, b.maxBytes);
      ghost var q := Pos();
      var result := AdvanceElement(t, tail, b.maxElements, b.maxSignatures);
      PartStep(t, input, q, Part(), b);
      if result.Err? {
        ElementFails(t, q, input, b, result.error);
        if result.error.NeedBytes? && |input| >= b.maxBytes {
          return Err(LimitExceeded(AttachmentBytes, b.maxBytes, SaturatingAdd(|input|, result.error.missing)));
        }
        return Err(result.error);
      }
      var size := result.value;
      if size == 0 || end + size > USIZE_MAX || end + size > b.maxBytes {
        assert false;
      }
      ElementStep(t, input, q, Extent(size, signatureTotal - q.sigs), b);
      PassElement(size);
      r := Ok(());
    }

    /** The loop over the elements that are still ahead. */
    method AdvanceElements(t: CodeTables, input: bytes, b: Bounds) returns (r: Result<nat>)
      requires Valid() && Ready(t, Pos(), input, b) && |input| <= ISIZE_MAX && b.maxSignatures <= USIZE_MAX
      modifies Repr
      ensures Valid() && Ready(t, Pos(), input, b)
      ensures match ElementsFrom(t, old(Pos()), input, b)
        case Ok(extent) => r == Ok(extent.len) && end == extent.len && signatureTotal == extent.sigs
        case Err(e) => r == Err(e)
      ensures SameElements(t, input, Pos(), old(Pos()), b)
      ensures old(end) <= end && remaining <= old(remaining)
      ensures r.Err? ==> Stalled(t, Pos(), input, b, r.error)
    {
      hide ElementsFrom, ElementStuck;
      while remaining > 0
        invariant Valid() && Ready(t, Pos(), input, b)
        invariant SameElements(t, input, Pos(), old(Pos()), b)
        invariant old(end) <= end && remaining <= old(remaining)
        decreases remaining
      {
        var passed := PassCurrent(t, input, b);
        if passed.Err? {
          return Err(passed.error);
        }
      }
      GroupDone(t, Pos(), input, b);
      if |input| < end {
        return Err(NeedBytes(end - |input|));
      }
      r := Ok(end);
    }

    /** The enclosed bytes of a framed group that encloses further groups. */
    method EnclosingPayload(input: bytes) returns (r: Option<bytes>)
      requires Valid() && head.start <= end <= |input|
      ensures r == if head.IsEnclosing() then Some(input[head.start..end]) else None
    {
      if !head.IsEnclosing() {
        return None;
      }
      r := Some(input[head.start..end]);
    }
  }

  lemma ElementFails(t: CodeTables, g: GroupPos, s: bytes, b: Bounds, e: ParseError)
    requires Ready(t, g, s, b) && g.remaining > 0
    requires ElementFrom(t, g.head, Window(s, g.end, b.maxBytes), g.part, b.maxElements, b.maxSignatures - g.sigs) == Err(e)
    ensures ElementsFrom(t, g, s, b) == Err(Budgeted(e, |s|, b.maxBytes))
  {
    hide ElementFrom;
  }

  lemma GroupDone(t: CodeTables, g: GroupPos, s: bytes, b: Bounds)
    requires Ready(t, g, s, b) && g.remaining == 0
    ensures ElementsFrom(t, g, s, b) == if |s| < g.end then Err(NeedBytes(g.end - |s|)) else Ok(Extent(g.end, g.sigs))
  {
  }
}
