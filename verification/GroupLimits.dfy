/** What the limits of a group scan mean: a bounded scan succeeds exactly when the unbounded one
    does and its result is within the bounds. */
module GroupLimits {
  import opened Prelude
  import opened CounterCodes
  import opened Primitives
  import opened GroupGrammar
  import opened GroupCursors

  /** No limits: what `GroupFrameCursor::advance` passes. */
  const FREE := Bounds(USIZE_MAX, USIZE_MAX, USIZE_MAX)

  // ── One element ────────────────────────────────────────────────────────

  lemma NestedExact(t: CodeTables, version: CesrVersion, s: bytes, x: bytes, matters: nat,
                    maxElements: nat, maxElements': nat, maxSignatures: nat, maxSignatures': nat)
    requires t.WellFormed() && s <= x && maxElements <= maxElements' && maxSignatures <= maxSignatures'
    ensures var r := NestedFrom(t, version, s, Partial(0, matters, None), maxElements, maxSignatures);
            var free := NestedFrom(t, version, x, Partial(0, matters, None), maxElements', maxSignatures');
            && (r.Ok? <==> free.Ok? && free.value.len <= |s| && free.value.sigs <= Min(maxElements, maxSignatures))
            && (r.Ok? ==> r == free)
  {
    hide NestedFrom;
    var p := Partial(0, matters, None);
    var r := NestedFrom(t, version, s, p, maxElements, maxSignatures);
    var free := NestedFrom(t, version, x, p, maxElements', maxSignatures');
    if r.Ok? {
      NestedStable(t, version, s, x, p, maxElements, maxSignatures);
      NestedLoosen(t, version, x, p, maxElements, maxElements', maxSignatures, maxSignatures');
    }
    if free.Ok? && free.value.len <= |s| && free.value.sigs <= Min(maxElements, maxSignatures) {
      NestedLocal(t, version, s, x, p, maxElements', maxSignatures');
      NestedTighten(t, version, s, p, maxElements, maxElements', maxSignatures, maxSignatures');
    }
  }

  lemma NestedLoosen(t: CodeTables, version: CesrVersion, s: bytes, p: Partial, maxElements: nat, maxElements': nat, maxSignatures: nat, maxSignatures': nat)
    requires t.WellFormed() && p.pos <= |s| && p.run.None? && maxElements <= maxElements' && maxSignatures <= maxSignatures'
    requires NestedFrom(t, version, s, p, maxElements, maxSignatures).Ok?
    ensures NestedFrom(t, version, s, p, maxElements', maxSignatures') == NestedFrom(t, version, s, p, maxElements, maxSignatures)
    ensures NestedFrom(t, version, s, p, maxElements, maxSignatures).value.sigs <= Min(maxElements, maxSignatures)
  {
    hide MattersFrom, IndexersFrom, ReadCounter;
  }

  lemma NestedTighten(t: CodeTables, version: CesrVersion, s: bytes, p: Partial, maxElements: nat, maxElements': nat, maxSignatures: nat, maxSignatures': nat)
    requires t.WellFormed() && p.pos <= |s| && p.run.None?
    requires NestedFrom(t, version, s, p, maxElements', maxSignatures').Ok?
    requires NestedFrom(t, version, s, p, maxElements', maxSignatures').value.sigs <= Min(maxElements, maxSignatures)
    ensures NestedFrom(t, version, s, p, maxElements, maxSignatures) == NestedFrom(t, version, s, p, maxElements', maxSignatures')
  {
    hide MattersFrom, IndexersFrom, ReadCounter;
  }

  lemma NestedLocal(t: CodeTables, version: CesrVersion, s: bytes, x: bytes, p: Partial, maxElements: nat, maxSignatures: nat)
    requires t.WellFormed() && s <= x && p.pos <= |s| && p.run.None?
    requires NestedFrom(t, version, x, p, maxElements, maxSignatures).Ok?
    requires NestedFrom(t, version, x, p, maxElements, maxSignatures).value.len <= |s|
    ensures NestedFrom(t, version, s, p, maxElements, maxSignatures) == NestedFrom(t, version, x, p, maxElements, maxSignatures)
  {
    hide MattersFrom, IndexersFrom, ReadCounter;
    var pos := MattersFrom(t, x, p.pos, p.mattersLeft).value;
    MattersLocal(t, s, x, p.pos, p.mattersLeft);
    SliceOfPrefix(s, x, pos, pos);
    var c := ReadCounter(version, x[pos..]).value;
    ReadCounterLocal(version, s[pos..], x[pos..]);
    IndexersLocal(t, s, x, pos + c.code.FullSize(), c.count);
  }

  lemma FlatExact(t: CodeTables, layout: Layout, s: bytes, x: bytes)
    requires t.WellFormed() && layout.Elements? && s <= x
    ensures var r, free := FlatSpan(t, layout, s), FlatSpan(t, layout, x);
            && (r.Ok? <==> free.Ok? && free.value <= |s|)
            && (r.Ok? ==> r == free)
  {
    hide MattersFrom, IndexerSpan;
    var r, free := FlatSpan(t, layout, s), FlatSpan(t, layout, x);
    if r.Ok? {
      FlatStable(t, layout, s, x);
    }
    if free.Ok? && free.value <= |s| {
      var pos := MattersFrom(t, x, 0, layout.matters).value;
      MattersLocal(t, s, x, 0, layout.matters);
      if layout.tail == OneIndexer {
        SliceOfPrefix(s, x, pos, pos);
        IndexerSpanLocal(t, s[pos..], x[pos..]);
      }
    }
  }

  /** The element count that one element's nested list declares. */
  function DeclaredList(head: GroupHead, element: Extent): nat {
    if head.layout.Elements? && head.layout.tail == NestedSigs then element.sigs else 0
  }

  lemma ElementExact(t: CodeTables, head: GroupHead, s: bytes, x: bytes,
                     maxElements: nat, maxElements': nat, maxSignatures: nat, maxSignatures': nat)
    requires t.WellFormed() && s <= x && Inside(head, FreshElement(head))
    requires maxElements <= maxElements' && maxSignatures <= maxSignatures'
    ensures var r := ElementFrom(t, head, s, FreshElement(head), maxElements, maxSignatures);
            var free := ElementFrom(t, head, x, FreshElement(head), maxElements', maxSignatures');
            && (r.Ok? <==> free.Ok? && free.value.len <= |s| && DeclaredList(head, free.value) <= maxElements && free.value.sigs <= maxSignatures)
            && (r.Ok? ==> r == free)
  {
    hide NestedFrom, FlatSpan;
    if head.layout.tail == NestedSigs {
      NestedExact(t, head.version, s, x, head.layout.matters, maxElements, maxElements', maxSignatures, maxSignatures');
    } else {
      FlatExact(t, head.layout, s, x);
    }
  }

  // ── A whole group ──────────────────────────────────────────────────────

  /** A framed group: its length, its own signatures, and the largest list it declares. */
  datatype Framed = Framed(len: nat, sigs: nat, peak: nat) {
    predicate Within(b: Bounds) {
      len <= b.maxBytes && sigs <= b.maxSignatures && peak <= b.maxElements
    }
  }

  ghost predicate Fresh(t: CodeTables, g: GroupPos, s: bytes, b: Bounds) {
    Ready(t, g, s, b) && g.part == FreshElement(g.head)
  }

  /** The largest list that an element still ahead declares. */
  ghost function PeakFrom(t: CodeTables, g: GroupPos, s: bytes): nat
    requires Fresh(t, g, s, FREE)
    decreases g.remaining
  {
    if g.remaining == 0 then 0 else
      match ElementFrom(t, g.head, Window(s, g.end, USIZE_MAX), g.part, USIZE_MAX, USIZE_MAX - g.sigs)
      case Err(_) => 0
      case Ok(element) => Max(DeclaredList(g.head, element), PeakFrom(t, NextElement(g, element), s))
  }

  lemma WindowWidens(s: bytes, end: nat, maxBytes: nat, maxBytes': nat)
    requires end <= |s| && end <= maxBytes <= maxBytes'
    ensures Window(s, end, maxBytes) <= Window(s, end, maxBytes')
  {
  }

  /** The unfolding of one element. */
  lemma UnfoldElements(t: CodeTables, g: GroupPos, s: bytes, b: Bounds)
    requires Fresh(t, g, s, b) && g.remaining > 0
    ensures var element := ElementFrom(t, g.head, Window(s, g.end, b.maxBytes), g.part, b.maxElements, b.maxSignatures - g.sigs);
            if element.Ok?
            then Fresh(t, NextElement(g, element.value), s, b) && ElementsFrom(t, g, s, b) == ElementsFrom(t, NextElement(g, element.value), s, b)
            else ElementsFrom(t, g, s, b).Err?
  {
    hide ElementFrom;
  }

  lemma UnfoldPeak(t: CodeTables, g: GroupPos, s: bytes)
    requires Fresh(t, g, s, FREE) && g.remaining > 0
    ensures var element := ElementFrom(t, g.head, Window(s, g.end, USIZE_MAX), g.part, USIZE_MAX, USIZE_MAX - g.sigs);
            element.Ok? ==>
              && Fresh(t, NextElement(g, element.value), s, FREE)
              && PeakFrom(t, g, s) == Max(DeclaredList(g.head, element.value), PeakFrom(t, NextElement(g, element.value), s))
  {
    hide ElementFrom;
  }

  /** A bounded outcome is the unbounded one when that is within the bounds, else a refusal. */
  predicate Exactly(r: Result<Extent>, free: Result<Extent>, peak: nat, b: Bounds) {
    if free.Ok? && Framed(free.value.len, free.value.sigs, peak).Within(b) then r == free else r.Err?
  }

  lemma NoElementsExact(t: CodeTables, g: GroupPos, s: bytes, b: Bounds)
    requires Fresh(t, g, s, FREE) && Fresh(t, g, s, b) && g.remaining == 0
    ensures Exactly(ElementsFrom(t, g, s, b), ElementsFrom(t, g, s, FREE), PeakFrom(t, g, s), b)
  {
  }

  lemma {:induction false} ElementsExact(t: CodeTables, g: GroupPos, s: bytes, b: Bounds)
    requires Fresh(t, g, s, FREE) && Fresh(t, g, s, b) && |s| <= USIZE_MAX && b.Finite()
    ensures Exactly(ElementsFrom(t, g, s, b), ElementsFrom(t, g, s, FREE), PeakFrom(t, g, s), b)
    decreases g.remaining
  {
    hide ElementFrom, ElementsFrom, Window, PeakFrom;
    if g.remaining == 0 {
      NoElementsExact(t, g, s, b);
      return;
    }
    UnfoldPeak(t, g, s);
    var w, w' := Window(s, g.end, b.maxBytes), Window(s, g.end, USIZE_MAX);
    WindowWidens(s, g.end, b.maxBytes, USIZE_MAX);
    ElementExact(t, g.head, w, w', b.maxElements, USIZE_MAX, b.maxSignatures - g.sigs, USIZE_MAX - g.sigs);
    UnfoldElements(t, g, s, b);
    UnfoldElements(t, g, s, FREE);
    var element := ElementFrom(t, g.head, w', g.part, USIZE_MAX, USIZE_MAX - g.sigs);
    if element.Err? {
      return;
    }
    var next := NextElement(g, element.value);
    if next.end <= b.maxBytes && next.sigs <= b.maxSignatures {
      ElementsExact(t, next, s, b);
    } else if ElementsFrom(t, next, s, FREE).Ok? {
      ElementsKeepSigs(t, next, s, FREE);
    }
  }

  lemma {:induction false} ElementsKeepSigs(t: CodeTables, g: GroupPos, s: bytes, b: Bounds)
    requires Fresh(t, g, s, b) && ElementsFrom(t, g, s, b).Ok?
    ensures ElementsFrom(t, g, s, b).value.sigs >= g.sigs
    decreases g.remaining
  {
    hide ElementFrom;
    if g.remaining > 0 {
      var element := ElementFrom(t, g.head, Window(s, g.end, b.maxBytes), g.part, b.maxElements, b.maxSignatures - g.sigs).value;
      ElementsKeepSigs(t, NextElement(g, element), s, b);
    }
  }

  /** Framing without limits. */
  ghost function FreeGroup(t: CodeTables, head: GroupHead, s: bytes): (r: Option<Framed>)
    requires t.WellFormed() && head.layout.Solid() && head.start <= |s|
    ensures r.Some? ==> head.start <= r.value.len <= |s|
  {
    match RunFrom(t, StartOf(head), s, FREE)
    case Err(_) => None
    case Ok(extent) =>
      var peak := PeakFrom(t, StartOf(head), s);
      Some(Framed(extent.len, extent.sigs, if head.ElementCount().Some? then Max(head.count, peak) else peak))
  }

  /** `check_elements` followed by `advance_limited` from the start of a group. */
  function BoundedGroup(t: CodeTables, head: GroupHead, s: bytes, b: Bounds): (r: Result<Extent>)
    requires t.WellFormed() && head.layout.Solid() && head.start <= |s|
    ensures r.Ok? ==> head.start <= r.value.len <= |s| && r.value.len <= b.maxBytes
    ensures r.Ok? ==> r.value.sigs <= b.maxSignatures && r.value.sigs <= r.value.len
  {
    if head.ElementCount().Some? && head.count > b.maxElements
    then Err(LimitExceeded(GroupElements, b.maxElements, head.count))
    else RunFrom(t, StartOf(head), s, b)
  }

  /** The limits are exact. */
  lemma GroupExact(t: CodeTables, head: GroupHead, s: bytes, b: Bounds)
    requires t.WellFormed() && head.layout.Solid() && head.start <= |s| <= USIZE_MAX
    requires b.Finite()
    ensures BoundedGroup(t, head, s, b).Ok? <==> FreeGroup(t, head, s).Some? && FreeGroup(t, head, s).value.Within(b)
    ensures BoundedGroup(t, head, s, b).Ok? ==>
      BoundedGroup(t, head, s, b).value == Extent(FreeGroup(t, head, s).value.len, FreeGroup(t, head, s).value.sigs)
  {
    hide ElementsFrom;
    var g := StartOf(head);
    if g.sigs <= b.maxSignatures && g.end <= b.maxBytes {
      ElementsExact(t, g, s, b);
    } else if RunFrom(t, g, s, FREE).Ok? {
      ElementsKeepSigs(t, g, s, FREE);
    }
  }

  // ── Waiting is bounded ─────────────────────────────────────────────────

  /** A group asks for more bytes only while less than its byte budget has arrived. */
  lemma {:induction false} StarvedWithin(t: CodeTables, g: GroupPos, s: bytes, b: Bounds)
    requires t.WellFormed() && g.Fits(s, b) && RunFrom(t, g, s, b).Starved()
    ensures |s| < b.maxBytes
  {
    hide ElementsFrom;
    StarvedElements(t, g, s, b);
  }

  lemma {:induction false} StarvedElements(t: CodeTables, g: GroupPos, s: bytes, b: Bounds)
    requires Ready(t, g, s, b) && ElementsFrom(t, g, s, b).Starved()
    ensures |s| < b.maxBytes
    decreases g.remaining
  {
    hide ElementFrom;
    if g.remaining > 0 {
      var element := ElementFrom(t, g.head, Window(s, g.end, b.maxBytes), g.part, b.maxElements, b.maxSignatures - g.sigs);
      if element.Ok? {
        StarvedElements(t, NextElement(g, element.value), s, b);
      }
    }
  }
}
