/** The group codec: one attachment group after another off a growing buffer. */
module GroupCodec {
  import opened Prelude
  import opened CounterCodes
  import opened Primitives
  import opened GroupGrammar
  import opened GroupCursors
  import opened GroupLimits
  import opened Enclosures
  import opened FrameGrammar
  import opened Chunking

  // ── The group at the head of a buffer ──────────────────────────────────

  /** What a buffer holds: a whole group, a refusal, or the start of a group. */
  datatype Attempt =
    | Whole(head: GroupHead, extent: Extent)
    | Refused(error: ParseError)
    | Pending(missing: nat)

  function AttemptGroup(t: CodeTables, lim: FrameLimits, head: GroupHead, s: bytes): (a: Attempt)
    requires t.WellFormed() && head.layout.Solid() && 4 <= head.start <= |s|
    ensures a.Whole? ==> a.head == head && head.start <= a.extent.len <= |s|
  {
    match RunFrom(t, StartOf(head), s, BareBounds(lim))
    case Err(NeedBytes(missing)) => Pending(missing)
    case Err(e) => Refused(e)
    case Ok(extent) =>
      var nested := EnclosedSigs(t, lim, head, s, extent, extent.sigs, head.version);
      if nested.Err? then Refused(nested.error) else Whole(head, extent)
  }

  /** What a codec without history makes of `s`. */
  function AttemptOn(t: CodeTables, lim: FrameLimits, version: CesrVersion, s: bytes): (a: Attempt)
    requires t.WellFormed()
    ensures a.Whole? ==> 4 <= a.head.start <= a.extent.len <= |s|
  {
    match ReadHead(version, s)
    case Err(NeedBytes(missing)) =>
      var pending := PendingCounter(lim, 0, |s|, missing, false);
      if pending.Err? then Refused(pending.error) else Pending(missing)
    case Err(e) => Refused(e)
    case Ok(head) =>
      var checked := CheckElements(lim, head);
      if checked.Err? then Refused(checked.error) else AttemptGroup(t, lim, head, s)
  }

  // ── Parsing a framed group ─────────────────────────────────────────────

  /** A parsed group: its counter and the bytes of its elements. */
  datatype CesrGroup = CesrGroup(head: GroupHead, raw: bytes)

  /** The end of `left` more elements from `pos`, each stepped over without limits. */
  function ElementsEnd(t: CodeTables, head: GroupHead, s: bytes, pos: nat, left: nat): (r: Result<nat>)
    requires t.WellFormed() && pos <= |s| && Inside(head, FreshElement(head))
    ensures r.Ok? ==> pos <= r.value <= |s|
    decreases left
  {
    if left == 0 then Ok(pos) else
      var element :- ElementFrom(t, head, s[pos..], FreshElement(head), USIZE_MAX, USIZE_MAX);
      ElementsEnd(t, head, s, pos + element.len, left - 1)
  }

  /** `CesrGroup::parse_bytes`: the end of the group at the head of `s`, without limits. */
  function ParseEnd(t: CodeTables, head: GroupHead, s: bytes): (r: Result<nat>)
    requires t.WellFormed() && head.layout.Solid() && head.start <= |s|
    ensures r.Ok? ==> head.start <= r.value <= |s|
  {
    if head.layout.Elements? then ElementsEnd(t, head, s, head.start, head.count)
    else if |s| < head.FirstEnd() then Err(NeedBytes(head.FirstEnd() - |s|))
    else Ok(head.FirstEnd())
  }

  /** The element loop of `Group::parse`. */
  method ParseElements(t: CodeTables, head: GroupHead, s: bytes) returns (r: Result<nat>)
    requires t.WellFormed() && head.layout.Solid() && head.layout.Elements? && head.start <= |s| <= ISIZE_MAX
    ensures r == ElementsEnd(t, head, s, head.start, head.count)
  {
    hide ElementFrom, ElementsEnd;
    var offset: nat, i: nat := head.start, 0;
    while i < head.count
      invariant i <= head.count && offset <= |s|
      invariant ElementsEnd(t, head, s, head.start, head.count) == ElementsEnd(t, head, s, offset, head.count - i)
    {
      var size := SkipElement(t, head, s[offset..]);
      UnfoldElementsEnd(t, head, s, offset, head.count - i);
      if size.Err? {
        return Err(size.error);
      }
      offset, i := offset + size.value, i + 1;
    }
    UnfoldElementsEnd(t, head, s, offset, 0);
    r := Ok(offset);
  }

  lemma UnfoldElementsEnd(t: CodeTables, head: GroupHead, s: bytes, pos: nat, left: nat)
    requires t.WellFormed() && pos <= |s| && Inside(head, FreshElement(head))
    ensures left == 0 ==> ElementsEnd(t, head, s, pos, left) == Ok(pos)
    ensures left > 0 ==>
      var element := ElementFrom(t, head, s[pos..], FreshElement(head), USIZE_MAX, USIZE_MAX);
      ElementsEnd(t, head, s, pos, left) == if element.Err? then Err(element.error) else ElementsEnd(t, head, s, pos + element.value.len, left - 1)
  {
    hide ElementFrom;
  }

  /** `GroupKind::skip`, by a cursor that is used once. */
  method SkipElement(t: CodeTables, head: GroupHead, input: bytes) returns (r: Result<nat>)
    requires t.WellFormed() && Inside(head, FreshElement(head)) && |input| <= ISIZE_MAX
    ensures var element := ElementFrom(t, head, input, FreshElement(head), USIZE_MAX, USIZE_MAX);
            r == if element.Err? then Err(element.error) else Ok(element.value.len)
  {
    hide ElementFrom;
    var once := new GroupFrameCursor(GroupHead(head.version, head.layout.(sigsEach := 0), 1, head.start));
    r := once.AdvanceElement(t, input, USIZE_MAX, USIZE_MAX);
    SigsEachInert(t, head, once.head, input);
  }

  lemma SigsEachInert(t: CodeTables, head: GroupHead, head': GroupHead, s: bytes)
    requires t.WellFormed() && Inside(head, FreshElement(head)) && Inside(head', FreshElement(head'))
    requires head'.layout == head.layout.(sigsEach := 0) && head'.version == head.version
    ensures ElementFrom(t, head', s, FreshElement(head'), USIZE_MAX, USIZE_MAX) == ElementFrom(t, head, s, FreshElement(head), USIZE_MAX, USIZE_MAX)
  {
    hide NestedFrom, MattersFrom, IndexerSpan;
  }

  method ParseBytes(t: CodeTables, version: CesrVersion, framed: bytes) returns (r: Result<(CesrGroup, bytes)>)
    requires t.WellFormed() && |framed| <= ISIZE_MAX
    ensures var head := ReadHead(version, framed);
            if head.Err? then r == Err(head.error)
            else
              var end := ParseEnd(t, head.value, framed);
              r == if end.Err? then Err(end.error) else Ok((CesrGroup(head.value, framed[head.value.start..end.value]), framed[end.value..]))
  {
    hide ReadHead, ElementsEnd;
    var head := ReadHead(version, framed);
    if head.Err? {
      return Err(head.error);
    }
    var start := head.value.start;
    var end: nat;
    if head.value.layout.Elements? {
      var parsed := ParseElements(t, head.value, framed);
      if parsed.Err? {
        return Err(parsed.error);
      }
      end := parsed.value;
    } else {
      end := start + 4 * head.value.count;
      if |framed| < end {
        return Err(NeedBytes(end - |framed|));
      }
    }
    r := Ok((CesrGroup(head.value, framed[start..end]), framed[end..]));
  }

  // ── Framed bytes always parse, and to the last byte ────────────────────

  /** An element framed inside a budgeted window parses without limits once the rest is cut off. */
  lemma ElementParses(t: CodeTables, head: GroupHead, w: bytes, cut: bytes, maxElements: nat, maxSignatures: nat)
    requires t.WellFormed() && cut <= w && Inside(head, FreshElement(head)) && maxElements <= USIZE_MAX && maxSignatures <= USIZE_MAX
    requires ElementFrom(t, head, w, FreshElement(head), maxElements, maxSignatures).Ok?
    requires ElementFrom(t, head, w, FreshElement(head), maxElements, maxSignatures).value.len <= |cut|
    ensures ElementFrom(t, head, cut, FreshElement(head), USIZE_MAX, USIZE_MAX) == ElementFrom(t, head, w, FreshElement(head), maxElements, maxSignatures)
  {
    hide ElementFrom;
    ElementExact(t, head, w, w, maxElements, maxElements, maxSignatures, maxSignatures);
    ElementExact(t, head, cut, w, maxElements, maxElements, maxSignatures, maxSignatures);
    ElementExact(t, head, cut, cut, maxElements, USIZE_MAX, maxSignatures, USIZE_MAX);
  }

  lemma {:induction false} ElementsParse(t: CodeTables, g: GroupPos, s: bytes, b: Bounds, total: nat)
    requires Ready(t, g, s, b) && g.part == FreshElement(g.head) && b.Finite()
    requires ElementsFrom(t, g, s, b).Ok? && ElementsFrom(t, g, s, b).value.len == total
    requires g.head.layout.Elements? && g.end <= total <= |s|
    ensures ElementsEnd(t, g.head, s[..total], g.end, g.remaining) == Ok(total)
    decreases g.remaining
  {
    hide ElementFrom, ElementsFrom, ElementsEnd, Window;
    if g.remaining == 0 {
      GroupDone(t, g, s, b);
      UnfoldElementsEnd(t, g.head, s[..total], g.end, 0);
    } else {
      UnfoldElements(t, g, s, b);
      var w := Window(s, g.end, b.maxBytes);
      var element := ElementFrom(t, g.head, w, g.part, b.maxElements, b.maxSignatures - g.sigs).value;
      ElementsParse(t, NextElement(g, element), s, b, total);
      CutOfWindow(s, g.end, b.maxBytes, total);
      ElementParses(t, g.head, w, s[..total][g.end..], b.maxElements, b.maxSignatures - g.sigs);
      UnfoldElementsEnd(t, g.head, s[..total], g.end, g.remaining);
    }
  }

  lemma CutOfWindow(s: bytes, end: nat, maxBytes: nat, total: nat)
    requires end <= total <= |s| && total <= maxBytes
    ensures s[..total][end..] <= Window(s, end, maxBytes)
  {
  }

  /** Reading the counter again off the framed bytes gives the same group, whole. */
  lemma FramedParses(t: CodeTables, lim: FrameLimits, version: CesrVersion, s: bytes)
    requires t.WellFormed() && AttemptOn(t, lim, version, s).Whole?
    ensures var a := AttemptOn(t, lim, version, s);
            var framed := s[..a.extent.len];
            ReadHead(version, framed) == Ok(a.head) && a.head.layout.Solid() && ParseEnd(t, a.head, framed) == Ok(|framed|)
  {
    hide ReadCounter, ElementsFrom, ElementsEnd, Scan;
    var a := AttemptOn(t, lim, version, s);
    var framed := s[..a.extent.len];
    ReadCounterLocal(version, framed, s);
    var g := StartOf(a.head);
    if a.head.layout.Elements? {
      ElementsParse(t, g, s, BareBounds(lim), a.extent.len);
    } else {
      GroupDone(t, g, s, BareBounds(lim));
    }
  }

  // ── Decisions are final ────────────────────────────────────────────────

  /** A whole group stays that group and a refusal stays a refusal, whatever arrives later. */
  predicate FinalAttempt(a: Attempt, a': Attempt) {
    match a
    case Whole(_, _) => a' == a
    case Refused(_) => a'.Refused?
    case Pending(_) => true
  }

  lemma AttemptGroupFinal(t: CodeTables, lim: FrameLimits, head: GroupHead, s: bytes, x: bytes)
    requires t.WellFormed() && s <= x && head.layout.Solid() && 4 <= head.start <= |s|
    ensures FinalAttempt(AttemptGroup(t, lim, head, s), AttemptGroup(t, lim, head, x))
  {
    hide RunFrom, Scan;
    var r := RunFrom(t, StartOf(head), s, BareBounds(lim));
    if !r.Starved() {
      RunStable(t, StartOf(head), s, x, BareBounds(lim));
      if r.Ok? {
        SliceOfPrefix(s, x, head.start, r.value.len);
      }
    }
  }

  lemma AttemptFinal(t: CodeTables, lim: FrameLimits, version: CesrVersion, s: bytes, x: bytes)
    requires t.WellFormed() && s <= x
    ensures FinalAttempt(AttemptOn(t, lim, version, s), AttemptOn(t, lim, version, x))
  {
    hide ReadCounter, AttemptGroup;
    var head := ReadHead(version, s);
    if !head.Starved() {
      ReadHeadStable(version, s, x);
      if head.Ok? {
        AttemptGroupFinal(t, lim, head.value, s, x);
      }
    } else if ReadHead(version, x).Ok? && |s| >= lim.maxAttachmentBytes {
      CounterNeedIsSound(version, s, x);
      OversizedRefused(t, lim, ReadHead(version, x).value, x);
    }
  }

  lemma OversizedRefused(t: CodeTables, lim: FrameLimits, head: GroupHead, s: bytes)
    requires t.WellFormed() && head.layout.Solid() && 4 <= head.start <= |s| && head.start > lim.maxAttachmentBytes
    ensures AttemptGroup(t, lim, head, s).Refused?
  {
    hide RunFrom;
    OversizedStart(t, lim, s, head, BareBounds(lim));
  }

  // ── The codec ──────────────────────────────────────────────────────────

  /** Continuing at `g` answers for every extension of `s` what a scan from the start of the group
      would. */
  ghost predicate Resumes(t: CodeTables, lim: FrameLimits, version: CesrVersion, s: bytes, g: GroupPos) {
    && t.WellFormed()
    && ReadHead(version, s) == Ok(g.head)
    && CheckElements(lim, g.head).Ok?
    && g.Fits(s, BareBounds(lim))
    && SameRun(t, s, g, StartOf(g.head), BareBounds(lim))
  }

  ghost predicate SameRun(t: CodeTables, s: bytes, g: GroupPos, g': GroupPos, b: Bounds)
    requires t.WellFormed() && g.Fits(s, b)
  {
    g'.Fits(s, b) && forall x | s <= x :: RunFrom(t, g, x, b) == RunFrom(t, g', x, b)
  }

  /** A retained position on a grown buffer decides as the attempt on that buffer does. */
  lemma ResumedAttempt(t: CodeTables, lim: FrameLimits, version: CesrVersion, s: bytes, x: bytes, g: GroupPos)
    requires Resumes(t, lim, version, s, g) && s <= x
    ensures Resumes(t, lim, version, x, g)
    ensures AttemptOn(t, lim, version, x) == AttemptGroup(t, lim, g.head, x)
    ensures RunFrom(t, StartOf(g.head), x, BareBounds(lim)) == RunFrom(t, g, x, BareBounds(lim))
  {
    hide ReadHead, RunFrom, AttemptGroup;
    ReadHeadStable(version, s, x);
  }

  /** What a call on `s` returns, and what it leaves in the buffer. */
  ghost predicate Decodes(t: CodeTables, lim: FrameLimits, version: CesrVersion, s: bytes, r: Result<Option<CesrGroup>>, left: bytes)
    requires t.WellFormed()
  {
    match AttemptOn(t, lim, version, s)
    case Whole(head, extent) => r == Ok(Some(CesrGroup(head, s[head.start..extent.len]))) && left == s[extent.len..]
    case Refused(e) => r == Err(e) && left == s
    case Pending(_) => r == Ok(None) && left == s
  }

  /** A group decoded from a prefix is the one decoded from the whole, with the rest still there. */
  lemma DecodesEarly(t: CodeTables, lim: FrameLimits, version: CesrVersion, s: bytes, x: bytes, r: Result<Option<CesrGroup>>, left: bytes)
    requires t.WellFormed() && s <= x && Decodes(t, lim, version, s, r, left)
    ensures r.Ok? && r.value.Some? ==> Decodes(t, lim, version, x, r, left + x[|s|..])
    ensures r.Err? ==> AttemptOn(t, lim, version, x).Refused? && left + x[|s|..] == x
  {
    hide AttemptOn;
    AttemptFinal(t, lim, version, s, x);
    assert s + x[|s|..] == x;
    var a := AttemptOn(t, lim, version, s);
    if a.Whole? {
      SliceOfPrefix(s, x, a.head.start, a.extent.len);
      assert s[a.extent.len..] + x[|s|..] == x[a.extent.len..];
    }
  }

  class CesrCodec {
    const t: CodeTables
    const version: CesrVersion
    const limits: FrameLimits
    var cursor: GroupFrameCursor?

    /** What the buffer held at the last call. */
    ghost var seen: bytes

    ghost var Repr: set<object>

    ghost predicate Valid()
      reads this, Repr
      ensures Valid() ==> this in Repr
    {
      && this in Repr
      && t.WellFormed()
      && (cursor != null ==>
            && cursor in Repr && cursor.Repr <= Repr && this !in cursor.Repr
            && cursor.Valid()
            && Resumes(t, limits, version, seen, cursor.Pos()))
    }

    constructor (t: CodeTables, version: CesrVersion, limits: FrameLimits)
      requires t.WellFormed()
      ensures Valid() && fresh(Repr) && seen == [] && cursor == null
      ensures this.t == t && this.version == version && this.limits == limits
    {
      this.t, this.version, this.limits := t, version, limits;
      cursor := null;
      seen, Repr := [], {this};
    }

    /** All that is left to retry on more bytes: the counter, or the piece of the current element
        that was incomplete. */
    ghost predicate Retries(input: bytes)
      requires Valid()
      reads this, Repr
    {
      if cursor == null then ReadHead(version, input).Starved() else Waiting(t, cursor.Pos(), input, BareBounds(limits))
    }

    /** Read the counter of a new group: `Ok(false)` while it is incomplete. */
    method Open(input: bytes) returns (r: Result<bool>)
      requires Valid() && cursor == null
      modifies this
      ensures Valid() && seen == input && fresh(Repr - old(Repr))
      ensures r == Ok(true) <==> cursor != null
      ensures r == Ok(false) ==> ReadHead(version, input).Starved() && AttemptOn(t, limits, version, input) == Pending(ReadHead(version, input).error.missing)
      ensures r.Err? ==> AttemptOn(t, limits, version, input) == Refused(r.error)
    {
      hide ReadHead, RunFrom, AttemptGroup;
      seen := input;
      var head := ReadHead(version, input);
      if head.Err? {
        if head.error.NeedBytes? {
          var pending := PendingCounter(limits, 0, |input|, head.error.missing, false);
          if pending.Err? {
            return Err(pending.error);
          }
          return Ok(false);
        }
        return Err(head.error);
      }
      var checked := CheckElements(limits, head.value);
      if checked.Err? {
        return Err(checked.error);
      }
      cursor := new GroupFrameCursor(head.value);
      Repr := {this} + cursor.Repr;
      r := Ok(true);
    }

    /** `Decoder::decode`. After `None` only the current piece is left to retry. */
    method Decode(buf: Buffer) returns (r: Result<Option<CesrGroup>>)
      requires Valid() && buf !in Repr && seen <= buf.data && |buf.data| <= ISIZE_MAX
      modifies buf, Repr
      ensures Valid() && buf !in Repr && fresh(Repr - old(Repr)) && seen <= buf.data
      ensures if old(buf.data) == [] then r == Ok(None) && buf.data == [] else Decodes(t, limits, version, old(buf.data), r, buf.data)
      ensures r == Ok(None) && buf.data != [] ==> seen == buf.data && Retries(buf.data)
    {
      hide ReadHead, RunFrom, Scan, AttemptOn, Resumes, GroupFrameCursor.Valid;
      if buf.data == [] {
        return Ok(None);
      }
      if cursor == null {
        var opened' := Open(buf.data);
        if opened'.Err? {
          return Err(opened'.error);
        }
        if !opened'.value {
          return Ok(None);
        }
      }
      r := Frame(buf);
    }

    /** Advance the retained cursor, scan an enclosure, and split the group off. */
    method Frame(buf: Buffer) returns (r: Result<Option<CesrGroup>>)
      requires Valid() && buf !in Repr && seen <= buf.data && |buf.data| <= ISIZE_MAX && cursor != null
      modifies buf, Repr
      ensures Valid() && buf !in Repr && fresh(Repr - old(Repr)) && seen <= buf.data
      ensures Decodes(t, limits, version, old(buf.data), r, buf.data)
      ensures r == Ok(None) ==> cursor != null && seen == buf.data && Retries(buf.data)
    {
      hide ReadHead, RunFrom, Scan, AttemptOn, GroupFrameCursor.Valid;
      ghost var g := cursor.Pos();
      ResumedAttempt(t, limits, version, seen, buf.data, g);
      seen := buf.data;
      var total := cursor.AdvanceLimited(t, buf.data, BareBounds(limits));
      if total.Err? {
        if total.error.NeedBytes? {
          StarvedWaits(t, cursor.Pos(), buf.data, BareBounds(limits), total.error.missing);
          return Ok(None);
        }
        return Err(total.error);
      }
      var payload := cursor.EnclosingPayload(buf.data);
      if payload.Some? {
        var scanned := ScanEnclosure(t, limits, payload.value, cursor.signatureTotal, version);
        if scanned.Err? {
          return Err(scanned.error);
        }
      }
      FramedParses(t, limits, version, buf.data);
      var framed := buf.data[..total.value];
      assert framed[g.head.start..|framed|] == buf.data[g.head.start..total.value];
      buf.data := buf.data[total.value..];
      cursor, seen := null, [];
      var parsed := ParseBytes(t, version, framed);
      if parsed.Err? || parsed.value.1 != [] {
        assert false;
      }
      r := Ok(Some(parsed.value.0));
    }

    /** `Decoder::decode_eof`: what is not a whole group at the end of the input is truncated. */
    method DecodeEof(buf: Buffer) returns (r: Result<Option<CesrGroup>>)
      requires Valid() && buf !in Repr && seen <= buf.data && |buf.data| <= ISIZE_MAX
      modifies buf, Repr
      ensures Valid() && buf !in Repr && fresh(Repr - old(Repr)) && seen <= buf.data
      ensures if old(buf.data) == [] then r == Ok(None) && buf.data == []
        else if AttemptOn(t, limits, version, old(buf.data)).Pending?
        then r == Err(Truncated(AttemptOn(t, limits, version, old(buf.data)).missing)) && buf.data == old(buf.data)
        else Decodes(t, limits, version, old(buf.data), r, buf.data)
    {
      hide ReadHead, RunFrom, Scan, AttemptOn, AttemptGroup, Resumes, GroupFrameCursor.Valid;
      r := Decode(buf);
      if r.Err? || r.value.Some? || buf.data == [] {
        return;
      }
      var missing := AtEnd(buf.data);
      r := Err(Truncated(missing));
    }

    /** How much the group that `decode` left pending still lacks. */
    method AtEnd(input: bytes) returns (missing: nat)
      requires Valid() && seen == input && |input| <= ISIZE_MAX
      requires AttemptOn(t, limits, version, input).Pending?
      requires Retries(input)
      modifies Repr
      ensures Valid() && Repr == old(Repr) && seen == old(seen)
      ensures AttemptOn(t, limits, version, input) == Pending(missing)
    {
      hide ReadHead, RunFrom, Scan, GroupFrameCursor.Valid;
      if cursor == null {
        return ReadHead(version, input).error.missing;
      }
      ghost var g := cursor.Pos();
      ResumedAttempt(t, limits, version, input, input, g);
      var total := cursor.AdvanceLimited(t, input, BareBounds(limits));
      if total.Ok? || !total.error.NeedBytes? {
        assert false;
      }
      missing := total.error.missing;
    }
  }

  // ── Arrival schedules ──────────────────────────────────────────────────

  /** One arrival after another into the same buffer, polled each time, until the codec answers:
      the answer is that of a codec that is given the whole buffer at once, the group is removed
      and nothing else is touched, and a refusal happens only where that codec refuses. */
  method DecodeInChunks(t: CodeTables, lim: FrameLimits, version: CesrVersion, whole: bytes, cuts: seq<nat>)
    returns (r: Result<Option<CesrGroup>>, left: bytes)
    requires t.WellFormed() && whole != [] && |whole| <= ISIZE_MAX && Schedule(cuts, |whole|)
    ensures r.Ok? ==> Decodes(t, lim, version, whole, r, left)
    ensures r.Err? ==> AttemptOn(t, lim, version, whole).Refused? && left == whole
  {
    hide AttemptOn, CesrCodec.Valid;
    var codec := new CesrCodec(t, version, lim);
    var buf := new Buffer([]);
    var i := 0;
    while i < |cuts|
      invariant i <= |cuts| && codec.Valid() && fresh(codec.Repr) && buf !in codec.Repr
      invariant codec.seen <= buf.data == if i == 0 then [] else whole[..cuts[i - 1]]
    {
      var arrived := |buf.data|;
      assert whole[..arrived] + whole[arrived..cuts[i]] == whole[..cuts[i]];
      buf.Extend(whole[arrived..cuts[i]]);
      var polled := codec.Decode(buf);
      if polled.Err? || polled.value.Some? {
        if cuts[i] > 0 {
          DecodesEarly(t, lim, version, whole[..cuts[i]], whole, polled, buf.data);
        }
        buf.Extend(whole[cuts[i]..]);
        return polled, buf.data;
      }
      i := i + 1;
    }
    var arrived := |buf.data|;
    buf.Extend(whole[arrived..]);
    assert buf.data == whole;
    r := codec.Decode(buf);
    left := buf.data;
  }
}
