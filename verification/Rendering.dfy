/** Framing undoes rendering: a stream of in-limit messages is cut exactly where it was joined. */
module Rendering {
  import opened Prelude
  import opened CounterCodes
  import opened Primitives
  import opened VersionHead
  import opened GroupGrammar
  import opened GroupCursors
  import opened GroupLimits
  import opened Enclosures
  import opened Forests
  import opened FrameGrammar
  import opened Events
  import opened Framers
  import opened Draining

  // ── Messages ───────────────────────────────────────────────────────────

  /** A body with attachment groups, the last of them a `-V` envelope if `enveloped`; or a group
      on its own. */
  datatype Message =
    | WithBody(body: bytes, groups: seq<bytes>, enveloped: bool)
    | Standalone(group: bytes)

  function Render(m: Message): bytes {
    match m
    case WithBody(body, groups, _) => body + Flatten(groups)
    case Standalone(group) => group
  }

  function SpanFor(m: Message): FrameSpan {
    FrameSpan(if m.WithBody? then Some(|m.body|) else None, |Render(m)|)
  }

  // ── Limits, stated on the messages ─────────────────────────────────────

  /** What one whole group holds: its counter, its own extent, and the forest it encloses. */
  datatype Load = Load(head: GroupHead, framed: Framed, forest: seq<Node>) {
    function Sigs(): nat {
      framed.sigs + SigsIn(forest)
    }

    predicate Within(lim: FrameLimits) {
      && framed.peak <= lim.maxGroupElements
      && (head.IsEnclosing() ==>
            && GroupsIn(forest) <= lim.maxNestedGroups
            && 1 + Height(forest) <= lim.maxNestingDepth
            && PeakIn(forest) <= lim.maxGroupElements
            && BodyIn(forest) <= lim.maxBodyBytes)
    }
  }

  ghost function LoadOf(t: CodeTables, group: bytes): (r: Option<Load>)
    requires t.WellFormed()
    ensures r.Some? ==> 4 <= r.value.head.start <= r.value.framed.len == |group|
  {
    match FreeHead(t, group, V1)
    case None => None
    case Some((head, framed)) =>
      if framed.len != |group| then None
      else if !head.IsEnclosing() then Some(Load(head, framed, []))
      else
        match PayloadForest(t, group[head.start..], V1)
        case None => None
        case Some(forest) => Some(Load(head, framed, forest))
  }

  ghost predicate Sane(t: CodeTables, lim: FrameLimits, group: bytes)
    requires t.WellFormed()
  {
    LoadOf(t, group).Some? && LoadOf(t, group).value.Within(lim)
  }

  ghost function SigsOf(t: CodeTables, groups: seq<bytes>): nat
    requires t.WellFormed()
  {
    if groups == [] then 0 else
      (if LoadOf(t, groups[0]).Some? then LoadOf(t, groups[0]).value.Sigs() else 0) + SigsOf(t, groups[1..])
  }

  /** Every group is whole and within the limits of one group; only the last one may be an
      envelope. */
  ghost predicate SaneGroups(t: CodeTables, lim: FrameLimits, groups: seq<bytes>, enveloped: bool)
    requires t.WellFormed()
  {
    if groups == [] then !enveloped
    else
      && Sane(t, lim, groups[0])
      && if LoadOf(t, groups[0]).value.head.IsEnvelope()
         then enveloped && |groups| == 1
         else SaneGroups(t, lim, groups[1..], enveloped)
  }

  ghost predicate InLimits(t: CodeTables, lim: FrameLimits, m: Message)
    requires t.WellFormed()
  {
    match m
    case WithBody(body, groups, enveloped) =>
      && body != [] && Detect(body[0]).Ok? && IsBody(Detect(body[0]).value)
      && EventSize(body, Detect(body[0]).value) == Ok(|body|)
      && |body| <= lim.maxBodyBytes
      && SaneGroups(t, lim, groups, enveloped)
      && |groups| <= lim.maxAttachmentGroups
      && |Flatten(groups)| <= lim.maxAttachmentBytes
      && SigsOf(t, groups) <= lim.maxSignatures
    case Standalone(group) =>
      && Sane(t, lim, group)
      && |group| <= lim.maxAttachmentBytes
      && LoadOf(t, group).value.Sigs() <= lim.maxSignatures
  }

  // ── One group ──────────────────────────────────────────────────────────

  /** A group whose counter reads starts with the counter lead byte. */
  lemma GroupStartsWithDash(version: CesrVersion, s: bytes)
    requires ReadHead(version, s).Ok?
    ensures s != [] && s[0] == DASH
  {
    assert CodeFromStream(version, s).value.Hard() <= s;
    assert CodeFromStream(version, s).value.Hard()[0] == DASH;
  }

  /** A sane group is framed as itself whatever follows it. */
  lemma GroupFramed(t: CodeTables, lim: FrameLimits, group: bytes, s: bytes, b: Bounds, prior: nat)
    requires t.WellFormed() && Sane(t, lim, group) && group <= s && |group| <= USIZE_MAX && b.Finite()
    requires b.maxElements == lim.maxGroupElements && |group| <= b.maxBytes
    requires prior + LoadOf(t, group).value.Sigs() <= lim.maxSignatures && LoadOf(t, group).value.framed.sigs <= b.maxSignatures
    ensures var load := LoadOf(t, group).value;
            && ReadHead(V1, s) == Ok(load.head) && CheckElements(lim, load.head).Ok?
            && load.head.layout.Solid() && load.head.start <= |group| <= |s| && StartOf(load.head).Fits(s, b)
            && RunFrom(t, StartOf(load.head), s, b) == Ok(Extent(|group|, load.framed.sigs))
            && EnclosedSigs(t, lim, load.head, s, Extent(|group|, load.framed.sigs), prior + load.framed.sigs, V1) == Ok(SigsIn(load.forest))
  {
    hide ReadHead, RunFrom, FreeGroup, PayloadForest, Scan, SigsIn, GroupsIn, Height, PeakIn, BodyIn;
    var load := LoadOf(t, group).value;
    ReadHeadStable(V1, group, s);
    GroupExact(t, load.head, group, b);
    RunStable(t, StartOf(load.head), group, s, b);
    CountWithinPeak(t, load.head, group);
    if load.head.IsEnclosing() {
      SliceOfPrefix(group, s, load.head.start, |group|);
      assert group[load.head.start..|group|] == group[load.head.start..];
      ScanExact(t, lim, group[load.head.start..], prior + load.framed.sigs, V1);
    } else {
      assert SigsIn([]) == 0 by { EmptyForest(); }
    }
  }

  lemma EmptyForest()
    ensures SigsIn([]) == 0
  {
  }

  lemma CountWithinPeak(t: CodeTables, head: GroupHead, s: bytes)
    requires t.WellFormed() && head.layout.Solid() && head.start <= |s| && FreeGroup(t, head, s).Some?
    ensures head.ElementCount().Some? ==> head.count <= FreeGroup(t, head, s).value.peak
  {
    hide RunFrom;
  }

  /** Framing from `ev` goes on from `next`, or ends the message there. */
  ghost predicate Leads(t: CodeTables, lim: FrameLimits, s: bytes, eof: bool, ev: Event, next: Event, ends: bool)
    requires t.WellFormed() && ev.Fits(lim, s) && ev.cursor <= |s|
  {
    && next.Fits(lim, s)
    && next.cursor <= |s|
    && GroupsFrom(t, lim, s, eof, ev) == if ends then Ok(Some(SpanOf(next))) else GroupsFrom(t, lim, s, eof, next)
  }

  /** The event after `n` more groups of `len` bytes with `sigs` signatures in all. */
  function Past(ev: Event, n: nat, len: nat, sigs: nat): Event {
    Event(ev.bodyLen, ev.cursor + len, ev.groups + n, ev.sigs + sigs, None)
  }

  /** The limits of the message leave room for `n` more groups of that size. */
  predicate Room(lim: FrameLimits, s: bytes, ev: Event, n: nat, len: nat, sigs: nat) {
    && |s| <= USIZE_MAX && ev.Fits(lim, s) && ev.active.None?
    && ev.cursor + len <= |s|
    && ev.groups + n <= lim.maxAttachmentGroups
    && ev.cursor - ev.bodyLen + len <= lim.maxAttachmentBytes
    && ev.sigs + sigs <= lim.maxSignatures
  }

  lemma GroupOpened(t: CodeTables, lim: FrameLimits, s: bytes, eof: bool, ev: Event, group: bytes, load: Load)
    requires t.WellFormed() && LoadOf(t, group) == Some(load) && load.Within(lim)
    requires Room(lim, s, ev, 1, |group|, load.Sigs()) && group <= s[ev.cursor..]
    ensures NextItem(t, lim, s, eof, ev) == Continue(ev.(active := Some(StartOf(load.head))))
  {
    hide ReadHead, RunFrom, EnclosedSigs, LoadOf, SigsIn;
    GroupFramed(t, lim, group, s[ev.cursor..], ev.Allowance(lim), ev.sigs);
    GroupStartsWithDash(V1, s[ev.cursor..]);
  }

  lemma CloseFramed(t: CodeTables, lim: FrameLimits, s: bytes, eof: bool, ev: Event, extent: Extent, nested: nat)
    requires t.WellFormed() && ev.Fits(lim, s) && ev.active.Some?
    requires RunFrom(t, ev.active.value, s[ev.cursor..], ev.Allowance(lim)) == Ok(extent)
    requires EnclosedSigs(t, lim, ev.active.value.head, s[ev.cursor..], extent, ev.sigs + extent.sigs, V1) == Ok(nested)
    ensures var next := AfterActive(ev, extent, nested);
            && next.Fits(lim, s)
            && CloseGroup(t, lim, s, eof, ev) == if ev.active.value.head.IsEnvelope() then Stop(Ok(Some(SpanOf(next)))) else Continue(next)
  {
    hide Scan, ElementFrom, Window;
  }

  lemma GroupClosed(t: CodeTables, lim: FrameLimits, s: bytes, eof: bool, ev: Event, group: bytes, load: Load)
    requires t.WellFormed() && LoadOf(t, group) == Some(load) && load.Within(lim)
    requires Room(lim, s, ev, 1, |group|, load.Sigs()) && group <= s[ev.cursor..]
    ensures var active := ev.(active := Some(StartOf(load.head)));
            var next := Past(ev, 1, |group|, load.Sigs());
            && active.Fits(lim, s) && next.Fits(lim, s)
            && CloseGroup(t, lim, s, eof, active) == if load.head.IsEnvelope() then Stop(Ok(Some(SpanOf(next)))) else Continue(next)
  {
    hide ReadHead, RunFrom, EnclosedSigs, LoadOf, SigsIn, CloseGroup;
    GroupFramed(t, lim, group, s[ev.cursor..], ev.Allowance(lim), ev.sigs);
    CloseFramed(t, lim, s, eof, ev.(active := Some(StartOf(load.head))), Extent(|group|, load.framed.sigs), SigsIn(load.forest));
  }

  /** The attachment loop takes a sane group and counts exactly what it holds. */
  lemma GroupTaken(t: CodeTables, lim: FrameLimits, s: bytes, eof: bool, ev: Event, group: bytes, load: Load)
    requires t.WellFormed() && LoadOf(t, group) == Some(load) && load.Within(lim)
    requires Room(lim, s, ev, 1, |group|, load.Sigs()) && group <= s[ev.cursor..]
    ensures Leads(t, lim, s, eof, ev, Past(ev, 1, |group|, load.Sigs()), load.head.IsEnvelope())
  {
    hide GroupsFrom, LoadOf, SigsIn, NextItem, CloseGroup;
    GroupOpened(t, lim, s, eof, ev, group, load);
    GroupClosed(t, lim, s, eof, ev, group, load);
    UnfoldGroups(t, lim, s, eof, ev);
    UnfoldGroups(t, lim, s, eof, ev.(active := Some(StartOf(load.head))));
  }

  lemma {:induction false} GroupsTaken(t: CodeTables, lim: FrameLimits, s: bytes, eof: bool, ev: Event, groups: seq<bytes>, enveloped: bool)
    requires t.WellFormed() && Room(lim, s, ev, |groups|, |Flatten(groups)|, SigsOf(t, groups))
    requires SaneGroups(t, lim, groups, enveloped) && Flatten(groups) <= s[ev.cursor..]
    ensures Leads(t, lim, s, eof, ev, Past(ev, |groups|, |Flatten(groups)|, SigsOf(t, groups)), enveloped)
    decreases |groups|
  {
    hide GroupsFrom, LoadOf, Load.Sigs, Load.Within;
    if groups == [] {
      assert Past(ev, 0, 0, 0) == ev;
    } else {
      var load := LoadOf(t, groups[0]).value;
      var later := groups[1..];
      TailAfter(s, ev.cursor, groups[0], Flatten(later));
      GroupTaken(t, lim, s, eof, ev, groups[0], load);
      var next := Past(ev, 1, |groups[0]|, load.Sigs());
      if load.head.IsEnvelope() {
        assert later == [];
      } else {
        GroupsTaken(t, lim, s, eof, next, later, enveloped);
        assert Past(next, |later|, |Flatten(later)|, SigsOf(t, later)) == Past(ev, |groups|, |Flatten(groups)|, SigsOf(t, groups));
      }
    }
  }

  lemma TailAfter(s: bytes, cursor: nat, first: bytes, more: bytes)
    requires cursor <= |s| && first + more <= s[cursor..]
    ensures first <= s[cursor..] && more <= s[cursor + |first|..]
  {
    var tail := s[cursor..];
    assert tail[..|first| + |more|] == first + more;
    assert s[cursor + |first|..][..|more|] == tail[|first|..|first| + |more|] == more;
  }

  // ── One message ────────────────────────────────────────────────────────

  /** What follows a message lets it end: the end of the input, or anything after an envelope or a
      standalone group, or a body after an un-enveloped message. */
  predicate Ends(m: Message, rest: bytes, eof: bool) {
    m.WithBody? && !m.enveloped ==> if rest == [] then eof else Detect(rest[0]).Ok? && IsBody(Detect(rest[0]).value)
  }

  lemma BodyMessageFramed(t: CodeTables, lim: FrameLimits, m: Message, s: bytes, eof: bool)
    requires t.WellFormed() && m.WithBody? && InLimits(t, lim, m) && Render(m) <= s && |s| <= USIZE_MAX
    requires Ends(m, s[|Render(m)|..], eof)
    ensures Frame(t, lim, s, eof) == Ok(Some(SpanFor(m)))
  {
    hide GroupsFrom, SaneGroups, EventSize, NextItem, CloseGroup, Frame;
    var cold := Detect(m.body[0]).value;
    assert m.body <= s;
    assert s[0] == m.body[0];
    BodyDecided(t, lim, m.body, s, eof, cold, |m.body|);
    var ev := BodyOnly(|m.body|);
    TailAfter(s, 0, m.body, Flatten(m.groups));
    GroupsTaken(t, lim, s, eof, ev, m.groups, m.enveloped);
    var end := Past(ev, |m.groups|, |Flatten(m.groups)|, SigsOf(t, m.groups));
    if !m.enveloped {
      MessageEnds(t, lim, s, eof, end);
    }
  }

  /** Between groups, the end of the input or the start of a body ends a message. */
  lemma MessageEnds(t: CodeTables, lim: FrameLimits, s: bytes, eof: bool, ev: Event)
    requires t.WellFormed() && ev.Fits(lim, s) && ev.cursor <= |s| && ev.active.None?
    requires if s[ev.cursor..] == [] then eof else Detect(s[ev.cursor..][0]).Ok? && IsBody(Detect(s[ev.cursor..][0]).value)
    ensures GroupsFrom(t, lim, s, eof, ev) == Ok(Some(SpanOf(ev)))
  {
    hide GroupsFrom, OpenGroup, Detect;
    UnfoldGroups(t, lim, s, eof, ev);
  }

  lemma GroupMessageFramed(t: CodeTables, lim: FrameLimits, m: Message, s: bytes, eof: bool)
    requires t.WellFormed() && m.Standalone? && InLimits(t, lim, m) && Render(m) <= s && |s| <= USIZE_MAX
    ensures Frame(t, lim, s, eof) == Ok(Some(SpanFor(m)))
  {
    hide ReadHead, RunFrom, EnclosedSigs, LoadOf, SigsIn;
    GroupFramed(t, lim, m.group, s, BareBounds(lim), 0);
    GroupStartsWithDash(V1, s);
    GroupDecided(t, lim, s, s, eof, LoadOf(t, m.group).value.head);
  }

  // ── A stream ───────────────────────────────────────────────────────────

  function RenderAll(messages: seq<Message>): bytes {
    if messages == [] then [] else Render(messages[0]) + RenderAll(messages[1..])
  }

  function SpansFor(messages: seq<Message>): seq<FrameSpan> {
    if messages == [] then [] else [SpanFor(messages[0])] + SpansFor(messages[1..])
  }

  /** No standalone group follows a message that only a body can end. */
  predicate Separable(messages: seq<Message>) {
    |messages| >= 2 ==>
      && (messages[0].WithBody? && !messages[0].enveloped ==> messages[1].WithBody?)
      && Separable(messages[1..])
  }

  /** Main result: joining in-limit messages and draining the stream gives back exactly their
      boundaries and body lengths, with nothing left over. */
  lemma {:induction false} DrainUndoesRender(t: CodeTables, lim: FrameLimits, messages: seq<Message>)
    requires t.WellFormed() && Separable(messages) && |RenderAll(messages)| <= USIZE_MAX
    requires forall i | 0 <= i < |messages| :: InLimits(t, lim, messages[i])
    ensures Drain(t, lim, RenderAll(messages)) == Drained(SpansFor(messages), [], None)
    decreases |messages|
  {
    hide Frame, InLimits;
    if messages != [] {
      var m, later := messages[0], messages[1..];
      var s := RenderAll(messages);
      var rest := RenderAll(later);
      assert s[|Render(m)|..] == rest;
      NextStartsWithBody(t, lim, messages);
      if m.WithBody? {
        BodyMessageFramed(t, lim, m, s, true);
      } else {
        GroupMessageFramed(t, lim, m, s, true);
      }
      DrainUndoesRender(t, lim, later);
    }
  }

  lemma NextStartsWithBody(t: CodeTables, lim: FrameLimits, messages: seq<Message>)
    requires t.WellFormed() && messages != [] && Separable(messages)
    requires forall i | 0 <= i < |messages| :: InLimits(t, lim, messages[i])
    ensures Ends(messages[0], RenderAll(messages[1..]), true)
  {
    if |messages| >= 2 && messages[1].WithBody? {
      var rest := RenderAll(messages[1..]);
      assert InLimits(t, lim, messages[1]);
      assert rest[0] == messages[1].body[0];
    }
  }
}
