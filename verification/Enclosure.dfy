/** The bounded scan of a universal enclosure: an explicit work stack against a recursive walk. */
module Enclosures {
  import opened Prelude
  import opened CounterCodes
  import opened Primitives
  import opened VersionHead
  import opened GroupGrammar
  import opened GroupCursors
  import opened GroupLimits

  // ── Limits and byte classes ────────────────────────────────────────────

  datatype FrameLimits = FrameLimits(
    maxBodyBytes: usize,
    maxAttachmentBytes: usize,
    maxAttachmentGroups: usize,
    maxGroupElements: usize,
    maxSignatures: usize,
    maxNestedGroups: usize,
    maxNestingDepth: usize)

  const OPEN_BRACE: byte := 123

  function Detect(first: byte): (r: Result<ColdCode>)
    ensures r.Err? ==> !r.Starved()
  {
    if first == OPEN_BRACE then Ok(Json)
    else if 0xa0 <= first <= 0xbf then Ok(Cbor)
    else if 0x80 <= first <= 0x8f || first == 0xde || first == 0xdf then Ok(MessagePack)
    else if first >= 0x80 then Ok(CesrBinary)
    else if IsLetter(first) || 48 <= first <= 57 || first == DASH || first == UNDERSCORE then Ok(CesrBase64)
    else Err(UnknownColdStart(first))
  }

  /** Inside a complete payload, missing bytes will never come. */
  function Closed(e: ParseError): ParseError {
    if e.NeedBytes? then Truncated(e.missing) else e
  }

  /** A body recognised as JSON has its version string behind exactly a brace, white space, `"v"`,
      white space, a colon, white space and a quote. */
  lemma JsonBodyHead(s: bytes, n: nat)
    requires s != []
    ensures Detect(s[0]) == Ok(Json) && JsonHead(s) == Ok(n) <==> s[0] == OPEN_BRACE && IsJsonHead(s, n)
  {
    JsonHeadAccepts(s, n);
  }

  // ── Pieces of a payload ────────────────────────────────────────────────

  /** `skip_enclosed_atom`: an embedded body or one primitive. Missing bytes of a primitive stay
      `NeedBytes` here. */
  function SkipAtom(t: CodeTables, lim: FrameLimits, s: bytes): (r: Result<Extent>)
    requires t.WellFormed()
    ensures r.Ok? ==> 0 < r.value.len <= |s| && r.value.sigs <= 1
  {
    if s == [] then Err(NeedBytes(1)) else
      var cold :- Detect(s[0]);
      match cold
      case CesrBinary => Err(UnsupportedColdStart(cold))
      case CesrBase64 =>
        var code :- MatterCode(t, s);
        var size :- MatterSpan(t, s);
        Ok(Extent(size, if t.matter[code].signature then 1 else 0))
      case _ =>
        var size :- EventSize(s, cold);
        if size > lim.maxBodyBytes then Err(LimitExceeded(BodyBytes, lim.maxBodyBytes, size))
        else if size > |s| then Err(Truncated(size - |s|))
        else
          SizeCoversHead(s, VersionOffset(s, cold).value, cold);
          Ok(Extent(size, 0))
  }

  /** `enclosed_version`: the code table of a payload and the bytes its selector takes. */
  function EnclosedVersion(payload: bytes, outer: CesrVersion): (r: Result<(CesrVersion, nat)>)
    ensures r.Ok? ==> r.value.1 <= |payload|
  {
    if [DASH, UNDERSCORE] <= payload && |payload| < 8 then Err(Truncated(8 - |payload|))
    else if |payload| < 8 || payload[0] != DASH || payload[1] != UNDERSCORE then Ok((outer, 0))
    else
      match ReadCounter(V2, payload)
      case Ok(Counter(Genus, value)) =>
        if value / 4096 == 1 then Ok((V1, 8))
        else if value / 4096 == 2 then Ok((V2, 8))
        else Err(UnsupportedGenusVersion(value / 4096))
      case _ => Ok((outer, 0))
  }

  /** The next nested group and its extent, under the signatures that are left. */
  function NextGroup(t: CodeTables, lim: FrameLimits, s: bytes, version: CesrVersion, signatures: nat): (r: Result<(GroupHead, Extent)>)
    requires t.WellFormed()
    ensures r.Ok? ==> r.value.0.layout.Solid() && 4 <= r.value.0.start <= r.value.1.len <= |s|
    ensures r.Ok? ==> r.value.1.sigs <= SaturatingSub(lim.maxSignatures, signatures)
  {
    match ReadHead(version, s)
    case Err(e) => Err(Closed(e))
    case Ok(head) =>
      match BoundedGroup(t, head, s, Bounds(USIZE_MAX, lim.maxGroupElements, SaturatingSub(lim.maxSignatures, signatures)))
      case Err(e) => Err(Refused(e, lim, signatures))
      case Ok(extent) => Ok((head, extent))
  }

  function Refused(e: ParseError, lim: FrameLimits, signatures: nat): ParseError {
    match e
    case NeedBytes(missing) => Truncated(missing)
    case LimitExceeded(Signatures, _, actual) => LimitExceeded(Signatures, lim.maxSignatures, SaturatingAdd(signatures, actual))
    case _ => e
  }

  // ── The recursive walk ─────────────────────────────────────────────────

  /** Groups entered so far in the whole scan, and signatures including the prior ones. */
  datatype Tally = Tally(groups: nat, sigs: nat)

  /** Depth first: an enclosure's payload before what follows it. */
  function Walk(t: CodeTables, lim: FrameLimits, s: bytes, depth: nat, version: CesrVersion, tally: Tally): (r: Result<Tally>)
    requires t.WellFormed()
    ensures r.Ok? ==> r.value.sigs >= tally.sigs
    ensures r.Ok? && tally.sigs <= lim.maxSignatures ==> r.value.sigs <= lim.maxSignatures
    decreases |s|
  {
    if s == [] then Ok(tally)
    else if s[0] != DASH then
      var atom :- SkipAtom(t, lim, s);
      var sigs := tally.sigs + atom.sigs;
      if sigs > lim.maxSignatures then Err(LimitExceeded(Signatures, lim.maxSignatures, sigs))
      else Walk(t, lim, s[atom.len..], depth, version, Tally(tally.groups, sigs))
    else if tally.groups + 1 > lim.maxNestedGroups then
      Err(LimitExceeded(NestedGroups, lim.maxNestedGroups, tally.groups + 1))
    else
      var (head, extent) :- NextGroup(t, lim, s, version, tally.sigs);
      var entered := Tally(tally.groups + 1, tally.sigs + extent.sigs);
      if head.IsEnclosing() then
        if depth + 1 > lim.maxNestingDepth then Err(LimitExceeded(NestingDepth, lim.maxNestingDepth, depth + 1)) else
          var inner := s[head.start..extent.len];
          var (innerVersion, offset) :- EnclosedVersion(inner, version);
          var enclosed :- Walk(t, lim, inner[offset..], depth + 1, innerVersion, entered);
          Walk(t, lim, s[extent.len..], depth, version, enclosed)
      else Walk(t, lim, s[extent.len..], depth, version, entered)
  }

  /** `scan_enclosure`: the signatures found in a payload beyond the prior ones. */
  function Scan(t: CodeTables, lim: FrameLimits, payload: bytes, prior: nat, version: CesrVersion): (r: Result<nat>)
    requires t.WellFormed()
    ensures r.Ok? && prior <= lim.maxSignatures ==> prior + r.value <= lim.maxSignatures
  {
    if lim.maxNestingDepth == 0 then Err(LimitExceeded(NestingDepth, 0, 1)) else
      var (innerVersion, offset) :- EnclosedVersion(payload, version);
      var tally :- Walk(t, lim, payload[offset..], 1, innerVersion, Tally(0, prior));
      Ok(tally.sigs - prior)
  }

  // ── The work stack ─────────────────────────────────────────────────────

  /** A suspended level: its payload, the position in it, its depth and its code table. */
  datatype Level = Level(payload: bytes, cursor: nat, depth: nat, version: CesrVersion) {
    predicate Inside() {
      cursor <= |payload|
    }

    /** Every level below the first is strictly shorter than the one above it. */
    predicate Bounded(lim: FrameLimits) {
      1 <= depth <= lim.maxNestingDepth && depth + |payload| <= ISIZE_MAX + 1
    }

    function Tail(): bytes
      requires Inside()
    {
      payload[cursor..]
    }
  }

  predicate AllInside(stack: seq<Level>) {
    forall i | 0 <= i < |stack| :: stack[i].Inside()
  }

  /** Walking every level of the stack, the top first. */
  function WalkStack(t: CodeTables, lim: FrameLimits, stack: seq<Level>, tally: Tally): Result<Tally>
    requires t.WellFormed() && AllInside(stack)
  {
    if stack == [] then Ok(tally) else
      var top := stack[|stack| - 1];
      var next :- Walk(t, lim, top.Tail(), top.depth, top.version, tally);
      WalkStack(t, lim, stack[..|stack| - 1], next)
  }

  /** The levels below, once the level above them has ended in `r`. */
  function Resume(t: CodeTables, lim: FrameLimits, stack: seq<Level>, r: Result<Tally>): Result<Tally>
    requires t.WellFormed() && AllInside(stack)
  {
    match r
    case Err(e) => Err(e)
    case Ok(next) => WalkStack(t, lim, stack, next)
  }

  function BytesLeft(stack: seq<Level>): nat
    requires AllInside(stack)
  {
    if stack == [] then 0 else |stack[|stack| - 1].Tail()| + BytesLeft(stack[..|stack| - 1])
  }

  lemma Push(t: CodeTables, lim: FrameLimits, stack: seq<Level>, top: Level)
    requires t.WellFormed() && AllInside(stack) && top.Inside()
    ensures AllInside(stack + [top])
    ensures BytesLeft(stack + [top]) == BytesLeft(stack) + |top.Tail()|
    ensures forall tally :: WalkStack(t, lim, stack + [top], tally) ==
                            Resume(t, lim, stack, Walk(t, lim, top.Tail(), top.depth, top.version, tally))
  {
    hide Walk;
    assert (stack + [top])[..|stack|] == stack;
  }

  method SkipEnclosedAtom(t: CodeTables, lim: FrameLimits, input: bytes) returns (r: Result<Extent>)
    requires t.WellFormed() && |input| <= ISIZE_MAX
    ensures r == SkipAtom(t, lim, input)
  {
    hide EventSize, MatterCode;
    if input == [] {
      return Err(NeedBytes(1));
    }
    var cold := Detect(input[0]);
    if cold.Err? {
      return Err(cold.error);
    }
    match cold.value {
      case CesrBinary => return Err(UnsupportedColdStart(CesrBinary));
      case CesrBase64 =>
        var code := MatterCode(t, input);
        if code.Err? {
          return Err(code.error);
        }
        var primitive := new TextStream(input);
        assert primitive.Remaining() == input;
        var skipped := primitive.SkipMatter(t);
        if skipped.Err? {
          return Err(skipped.error);
        }
        r := Ok(Extent(primitive.pos, if t.matter[code.value].signature then 1 else 0));
      case _ =>
        var size := EventSize(input, cold.value);
        if size.Err? {
          return Err(size.error);
        }
        if size.value > lim.maxBodyBytes {
          return Err(LimitExceeded(BodyBytes, lim.maxBodyBytes, size.value));
        }
        if size.value > |input| {
          return Err(Truncated(size.value - |input|));
        }
        r := Ok(Extent(size.value, 0));
    }
  }

  /** The head of the next nested group and its extent, framed by a cursor of its own. */
  method FrameNestedGroup(t: CodeTables, lim: FrameLimits, tail: bytes, version: CesrVersion, signatures: nat)
    returns (r: Result<(GroupHead, Extent)>)
    requires t.WellFormed() && |tail| <= ISIZE_MAX
    ensures r == NextGroup(t, lim, tail, version, signatures)
  {
    hide ElementsFrom;
    var head := ReadHead(version, tail);
    if head.Err? {
      return Err(Closed(head.error));
    }
    if head.value.ElementCount().Some? && head.value.count > lim.maxGroupElements {
      return Err(LimitExceeded(GroupElements, lim.maxGroupElements, head.value.count));
    }
    var group := new GroupFrameCursor(head.value);
    var end := group.AdvanceLimited(t, tail, Bounds(USIZE_MAX, lim.maxGroupElements, SaturatingSub(lim.maxSignatures, signatures)));
    if end.Err? {
      return Err(Refused(end.error, lim, signatures));
    }
    r := Ok((head.value, Extent(end.value, group.signatureTotal)));
  }

  /** One round of the loop at level `top` above `stack`: it fails as the walk of the whole stack
      fails, or leaves a smaller stack whose walk is that walk. */
  ghost predicate Steps(t: CodeTables, lim: FrameLimits, stack: seq<Level>, top: Level, tally: Tally, r: Result<(seq<Level>, Tally)>)
    requires t.WellFormed() && AllInside(stack) && top.Inside()
  {
    var goal := Resume(t, lim, stack, Walk(t, lim, top.Tail(), top.depth, top.version, tally));
    match r
    case Err(e) => goal == Err(e)
    case Ok((stack', tally')) =>
      && Shallow(lim, stack') && AllInside(stack')
      && WalkStack(t, lim, stack', tally') == goal
      && 2 * BytesLeft(stack') + |stack'| < 2 * (BytesLeft(stack) + |top.Tail()|) + |stack| + 1
      && tally'.groups + BytesLeft(stack') <= USIZE_MAX
      && tally.sigs <= tally'.sigs && tally'.sigs + BytesLeft(stack') <= USIZE_MAX
  }

  /** The atom branch of the loop: the level goes back, past the atom. */
  method PassAtom(t: CodeTables, lim: FrameLimits, stack: seq<Level>, top: Level, tally: Tally)
    returns (r: Result<(seq<Level>, Tally)>)
    requires t.WellFormed() && Shallow(lim, stack) && AllInside(stack)
    requires top.Inside() && top.Bounded(lim)
    requires top.Tail() != [] && top.Tail()[0] != DASH
    requires tally.groups + BytesLeft(stack) + |top.Tail()| <= USIZE_MAX
    requires tally.sigs + BytesLeft(stack) + |top.Tail()| <= USIZE_MAX
    ensures Steps(t, lim, stack, top, tally, r)
  {
    hide Walk, WalkStack, SkipAtom, BytesLeft;
    var tail := top.Tail();
    var atom := SkipEnclosedAtom(t, lim, tail);
    WalkAtom(t, lim, tail, top.depth, top.version, tally, atom);
    if atom.Err? {
      return Err(atom.error);
    }
    var signatures := SaturatingAdd(tally.sigs, atom.value.sigs);
    if signatures > lim.maxSignatures {
      return Err(LimitExceeded(Signatures, lim.maxSignatures, signatures));
    }
    var rest := top.(cursor := top.cursor + atom.value.len);
    assert rest.Tail() == tail[atom.value.len..];
    Push(t, lim, stack, rest);
    r := Ok((stack + [rest], tally.(sigs := signatures)));
  }

  /** The payload of an enclosing group found at level `top` goes on the stack, behind its version
      selector; walking the new stack is walking the payload first. */
  method PushPayload(t: CodeTables, lim: FrameLimits, stack: seq<Level>, payload: bytes, top: Level) returns (r: Result<seq<Level>>)
    requires t.WellFormed() && Shallow(lim, stack) && AllInside(stack)
    requires top.Bounded(lim) && |payload| + top.depth + 1 <= ISIZE_MAX + 1
    ensures top.depth + 1 > lim.maxNestingDepth ==> r == Err(LimitExceeded(NestingDepth, lim.maxNestingDepth, top.depth + 1))
    ensures top.depth + 1 <= lim.maxNestingDepth && EnclosedVersion(payload, top.version).Err? ==> r == Err(EnclosedVersion(payload, top.version).error)
    ensures top.depth + 1 <= lim.maxNestingDepth && EnclosedVersion(payload, top.version).Ok? ==> r.Ok?
    ensures r.Ok? ==> Shallow(lim, r.value) && AllInside(r.value) && |r.value| == |stack| + 1
    ensures r.Ok? ==>
      var (version, offset) := EnclosedVersion(payload, top.version).value;
      && BytesLeft(r.value) == BytesLeft(stack) + |payload| - offset
      && forall tally :: WalkStack(t, lim, r.value, tally) ==
                         Resume(t, lim, stack, Walk(t, lim, payload[offset..], top.depth + 1, version, tally))
  {
    hide Walk, WalkStack, BytesLeft;
    var nextDepth := SaturatingAdd(top.depth, 1);
    if nextDepth > lim.maxNestingDepth {
      return Err(LimitExceeded(NestingDepth, lim.maxNestingDepth, nextDepth));
    }
    var chosen := EnclosedVersion(payload, top.version);
    if chosen.Err? {
      return Err(chosen.error);
    }
    var below := Level(payload, chosen.value.1, nextDepth, chosen.value.0);
    Push(t, lim, stack, below);
    r := Ok(stack + [below]);
  }

  /** The group branch of the loop: what follows the group goes under its payload. */
  method EnterGroup(t: CodeTables, lim: FrameLimits, stack: seq<Level>, top: Level, tally: Tally)
    returns (r: Result<(seq<Level>, Tally)>)
    requires t.WellFormed() && Shallow(lim, stack) && AllInside(stack)
    requires top.Inside() && top.Bounded(lim)
    requires top.Tail() != [] && top.Tail()[0] == DASH
    requires tally.groups + BytesLeft(stack) + |top.Tail()| <= USIZE_MAX
    requires tally.sigs + BytesLeft(stack) + |top.Tail()| <= USIZE_MAX
    ensures Steps(t, lim, stack, top, tally, r)
  {
    hide Walk, WalkStack, NextGroup, BytesLeft, EnclosedVersion;
    var tail := top.Tail();
    var groups := SaturatingAdd(tally.groups, 1);
    if groups > lim.maxNestedGroups {
      WalkTooManyGroups(t, lim, tail, top.depth, top.version, tally);
      return Err(LimitExceeded(NestedGroups, lim.maxNestedGroups, groups));
    }
    var group := FrameNestedGroup(t, lim, tail, top.version, tally.sigs);
    WalkGroup(t, lim, tail, top.depth, top.version, tally, group);
    if group.Err? {
      return Err(group.error);
    }
    var (head, extent) := group.value;
    var tally' := Tally(groups, SaturatingAdd(tally.sigs, extent.sigs));
    var rest := top.(cursor := top.cursor + extent.len);
    assert rest.Tail() == tail[extent.len..];
    Push(t, lim, stack, rest);
    var stack' := stack + [rest];
    if head.IsEnclosing() {
      var inside := PushPayload(t, lim, stack', tail[head.start..extent.len], top);
      if inside.Err? {
        return Err(inside.error);
      }
      stack' := inside.value;
    }
    r := Ok((stack', tally'));
  }

  predicate Shallow(lim: FrameLimits, stack: seq<Level>) {
    forall i | 0 <= i < |stack| :: stack[i].Bounded(lim)
  }

  /** The explicit-stack scan computes exactly the recursive walk, on every input, and stops: twice
      the bytes still on the stack plus its height shrink with every round. The saturating counters
      never saturate, because groups and signatures both occupy bytes. */
  method ScanEnclosure(t: CodeTables, lim: FrameLimits, payload: bytes, prior: nat, version: CesrVersion) returns (r: Result<nat>)
    requires t.WellFormed() && |payload| <= ISIZE_MAX && prior + |payload| <= USIZE_MAX
    ensures r == Scan(t, lim, payload, prior, version)
  {
    hide Walk, WalkStack, NextGroup, SkipAtom, BytesLeft;
    if lim.maxNestingDepth == 0 {
      return Err(LimitExceeded(NestingDepth, 0, 1));
    }
    var initial := EnclosedVersion(payload, version);
    if initial.Err? {
      return Err(initial.error);
    }
    var stack := [Level(payload, initial.value.1, 1, initial.value.0)];
    var tally := Tally(0, prior);
    ghost var goal := Walk(t, lim, payload[initial.value.1..], 1, initial.value.0, tally);
    StackOfOne(t, lim, stack[0], tally);
    while |stack| > 0
      invariant AllInside(stack) && Shallow(lim, stack)
      invariant WalkStack(t, lim, stack, tally) == goal
      invariant tally.groups + BytesLeft(stack) <= USIZE_MAX
      invariant prior <= tally.sigs && tally.sigs + BytesLeft(stack) <= USIZE_MAX
      decreases 2 * BytesLeft(stack) + |stack|
    {
      var top := stack[|stack| - 1];
      ghost var before := stack;
      stack := stack[..|stack| - 1];
      Push(t, lim, stack, top);
      assert before == stack + [top];
      if top.cursor == |top.payload| {
        WalkEmpty(t, lim, top.Tail(), top.depth, top.version, tally);
        continue;
      }
      if top.cursor > |top.payload| {
        assert false;
      }
      var tail := top.Tail();
      if tail[0] != DASH {
        var skipped := PassAtom(t, lim, stack, top, tally);
        if skipped.Err? {
          return Err(skipped.error);
        }
        stack, tally := skipped.value.0, skipped.value.1;
        continue;
      }
      var entered := EnterGroup(t, lim, stack, top, tally);
      if entered.Err? {
        return Err(entered.error);
      }
      stack, tally := entered.value.0, entered.value.1;
    }
    EmptyStack(t, lim, stack, tally);
    r := Ok(tally.sigs - prior);
  }

  // ── One round of the loop is one unfolding of the walk ─────────────────

  lemma StackOfOne(t: CodeTables, lim: FrameLimits, top: Level, tally: Tally)
    requires t.WellFormed() && top.Inside()
    ensures WalkStack(t, lim, [top], tally) == Walk(t, lim, top.Tail(), top.depth, top.version, tally)
    ensures BytesLeft([top]) == |top.Tail()|
  {
    hide Walk;
    Push(t, lim, [], top);
    assert [] + [top] == [top];
  }

  lemma EmptyStack(t: CodeTables, lim: FrameLimits, stack: seq<Level>, tally: Tally)
    requires t.WellFormed() && stack == []
    ensures WalkStack(t, lim, stack, tally) == Ok(tally)
  {
  }

  lemma WalkEmpty(t: CodeTables, lim: FrameLimits, s: bytes, depth: nat, version: CesrVersion, tally: Tally)
    requires t.WellFormed() && s == []
    ensures Walk(t, lim, s, depth, version, tally) == Ok(tally)
  {
  }

  lemma WalkAtom(t: CodeTables, lim: FrameLimits, s: bytes, depth: nat, version: CesrVersion, tally: Tally, atom: Result<Extent>)
    requires t.WellFormed() && s != [] && s[0] != DASH && atom == SkipAtom(t, lim, s)
    ensures atom.Ok? ==> 0 < atom.value.len <= |s| && atom.value.sigs <= 1
    ensures Walk(t, lim, s, depth, version, tally) ==
      if atom.Err? then Err(atom.error)
      else if tally.sigs + atom.value.sigs > lim.maxSignatures
      then Err(LimitExceeded(Signatures, lim.maxSignatures, tally.sigs + atom.value.sigs))
      else Walk(t, lim, s[atom.value.len..], depth, version, Tally(tally.groups, tally.sigs + atom.value.sigs))
  {
    hide SkipAtom, NextGroup;
  }

  lemma WalkTooManyGroups(t: CodeTables, lim: FrameLimits, s: bytes, depth: nat, version: CesrVersion, tally: Tally)
    requires t.WellFormed() && s != [] && s[0] == DASH && tally.groups + 1 > lim.maxNestedGroups
    ensures Walk(t, lim, s, depth, version, tally) == Err(LimitExceeded(NestedGroups, lim.maxNestedGroups, tally.groups + 1))
  {
    hide SkipAtom, NextGroup;
  }

  lemma WalkGroup(t: CodeTables, lim: FrameLimits, s: bytes, depth: nat, version: CesrVersion, tally: Tally, group: Result<(GroupHead, Extent)>)
    requires t.WellFormed() && s != [] && s[0] == DASH && tally.groups + 1 <= lim.maxNestedGroups
    requires group == NextGroup(t, lim, s, version, tally.sigs)
    ensures group.Err? ==> Walk(t, lim, s, depth, version, tally) == Err(group.error)
    ensures group.Ok? ==>
      && 4 <= group.value.0.start <= group.value.1.len <= |s|
      && group.value.1.sigs <= group.value.1.len
      && (group.value.0.IsEnclosing() ==> group.value.1.sigs == 0)
      && Walk(t, lim, s, depth, version, tally) == AfterGroup(t, lim, s, depth, version, Tally(tally.groups + 1, tally.sigs + group.value.1.sigs), group.value.0, group.value.1)
  {
    hide SkipAtom, NextGroup;
    if group.Ok? {
      NextGroupSigs(t, lim, s, version, tally.sigs);
    }
  }

  /** What remains of a walk once a group has been framed and counted. */
  function AfterGroup(t: CodeTables, lim: FrameLimits, s: bytes, depth: nat, version: CesrVersion, entered: Tally, head: GroupHead, extent: Extent): Result<Tally>
    requires t.WellFormed() && head.start <= extent.len <= |s|
  {
    if !head.IsEnclosing() then Walk(t, lim, s[extent.len..], depth, version, entered)
    else if depth + 1 > lim.maxNestingDepth then Err(LimitExceeded(NestingDepth, lim.maxNestingDepth, depth + 1))
    else
      var inner := s[head.start..extent.len];
      var (innerVersion, offset) :- EnclosedVersion(inner, version);
      var enclosed :- Walk(t, lim, inner[offset..], depth + 1, innerVersion, entered);
      Walk(t, lim, s[extent.len..], depth, version, enclosed)
  }

  lemma NextGroupSigs(t: CodeTables, lim: FrameLimits, s: bytes, version: CesrVersion, signatures: nat)
    requires t.WellFormed() && NextGroup(t, lim, s, version, signatures).Ok?
    ensures var (head, extent) := NextGroup(t, lim, s, version, signatures).value;
            extent.sigs <= extent.len && (head.IsEnclosing() ==> extent.sigs == 0)
  {
    hide ReadHead;
  }
}
