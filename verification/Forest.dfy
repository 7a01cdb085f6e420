/** The forest inside an enclosure, parsed without limits, and what the limits of a scan mean. */
module Forests {
  import opened Prelude
  import opened CounterCodes
  import opened Primitives
  import opened VersionHead
  import opened GroupGrammar
  import opened GroupLimits
  import opened Enclosures

  /** An embedded body or primitive, a group of elements or opaque bytes, or an enclosure. */
  datatype Node =
    | Atom(sigs: nat, body: nat)
    | Group(sigs: nat, peak: nat)
    | Enclosure(inner: seq<Node>)

  function GroupsIn(f: seq<Node>): nat {
    if f == [] then 0 else
      (match f[0]
       case Atom(_, _) => 0
       case Group(_, _) => 1
       case Enclosure(inner) => 1 + GroupsIn(inner)) + GroupsIn(f[1..])
  }

  function SigsIn(f: seq<Node>): nat {
    if f == [] then 0 else
      (match f[0]
       case Atom(sigs, _) => sigs
       case Group(sigs, _) => sigs
       case Enclosure(inner) => SigsIn(inner)) + SigsIn(f[1..])
  }

  /** Nesting depth: enclosures inside enclosures. */
  function Height(f: seq<Node>): nat {
    if f == [] then 0 else
      Max(match f[0]
          case Enclosure(inner) => 1 + Height(inner)
          case _ => 0,
          Height(f[1..]))
  }

  /** The largest element count that any one group or nested list declares. */
  function PeakIn(f: seq<Node>): nat {
    if f == [] then 0 else
      Max(match f[0]
          case Atom(_, _) => 0
          case Group(_, peak) => peak
          case Enclosure(inner) => PeakIn(inner),
          PeakIn(f[1..]))
  }

  /** The largest embedded body. */
  function BodyIn(f: seq<Node>): nat {
    if f == [] then 0 else
      Max(match f[0]
          case Atom(_, body) => body
          case Group(_, _) => 0
          case Enclosure(inner) => BodyIn(inner),
          BodyIn(f[1..]))
  }

  // ── Parsing without limits ─────────────────────────────────────────────

  /** One atom and its length. */
  function FreeAtom(t: CodeTables, s: bytes): (r: Option<(Node, nat)>)
    requires t.WellFormed() && s != []
    ensures r.Some? ==> r.value.0.Atom? && r.value.1 <= |s|
  {
    match Detect(s[0])
    case Ok(CesrBase64) =>
      if MatterCode(t, s).Ok? && MatterSpan(t, s).Ok?
      then Some((Atom(if t.matter[MatterCode(t, s).value].signature then 1 else 0, 0), MatterSpan(t, s).value))
      else None
    case Ok(CesrBinary) => None
    case Err(_) => None
    case Ok(cold) =>
      if EventSize(s, cold).Ok? && EventSize(s, cold).value <= |s|
      then Some((Atom(0, EventSize(s, cold).value), EventSize(s, cold).value))
      else None
  }

  ghost function ParseForest(t: CodeTables, s: bytes, version: CesrVersion): Option<seq<Node>>
    requires t.WellFormed()
    decreases |s|
  {
    if s == [] then Some([])
    else if s[0] != DASH then
      match FreeAtom(t, s)
      case None => None
      case Some((node, len)) =>
        if len == 0 then None else Prepend(node, ParseForest(t, s[len..], version))
    else
      match FreeHead(t, s, version)
      case None => None
      case Some((head, framed)) =>
        if head.IsEnclosing() then
          var inner := s[head.start..framed.len];
          match EnclosedVersion(inner, version)
          case Err(_) => None
          case Ok((innerVersion, offset)) =>
            match ParseForest(t, inner[offset..], innerVersion)
            case None => None
            case Some(children) => Prepend(Enclosure(children), ParseForest(t, s[framed.len..], version))
        else Prepend(Group(framed.sigs, framed.peak), ParseForest(t, s[framed.len..], version))
  }

  function Prepend(node: Node, rest: Option<seq<Node>>): Option<seq<Node>> {
    match rest
    case None => None
    case Some(nodes) => Some([node] + nodes)
  }

  /** A group's counter and its unlimited extent. */
  ghost function FreeHead(t: CodeTables, s: bytes, version: CesrVersion): (r: Option<(GroupHead, Framed)>)
    requires t.WellFormed()
    ensures r.Some? ==> 4 <= r.value.0.start <= r.value.1.len <= |s|
  {
    match ReadHead(version, s)
    case Err(_) => None
    case Ok(head) =>
      match FreeGroup(t, head, s)
      case None => None
      case Some(framed) => Some((head, framed))
  }

  // ── The limits are exact ───────────────────────────────────────────────

  lemma AtomExact(t: CodeTables, lim: FrameLimits, s: bytes)
    requires t.WellFormed() && s != []
    ensures SkipAtom(t, lim, s).Ok? <==> FreeAtom(t, s).Some? && FreeAtom(t, s).value.0.body <= lim.maxBodyBytes
    ensures SkipAtom(t, lim, s).Ok? ==>
      SkipAtom(t, lim, s).value == Extent(FreeAtom(t, s).value.1, FreeAtom(t, s).value.0.sigs)
  {
    hide EventSize, MatterCode, MatterSpan;
  }

  lemma NextGroupExact(t: CodeTables, lim: FrameLimits, s: bytes, version: CesrVersion, signatures: nat)
    requires t.WellFormed() && |s| <= USIZE_MAX && signatures <= lim.maxSignatures
    ensures var r, free := NextGroup(t, lim, s, version, signatures), FreeHead(t, s, version);
            && (r.Ok? <==> free.Some? && free.value.1.peak <= lim.maxGroupElements && signatures + free.value.1.sigs <= lim.maxSignatures)
            && (r.Ok? ==> r.value == (free.value.0, Extent(free.value.1.len, free.value.1.sigs)))
  {
    hide ReadHead, FreeGroup, BoundedGroup;
    var head := ReadHead(version, s);
    if head.Ok? {
      GroupExact(t, head.value, s, Bounds(USIZE_MAX, lim.maxGroupElements, lim.maxSignatures - signatures));
    }
  }

  /** The forest respects every limit of a walk that has got as far as `tally` at `depth`. */
  ghost predicate Admits(lim: FrameLimits, f: seq<Node>, depth: nat, tally: Tally) {
    && tally.groups + GroupsIn(f) <= lim.maxNestedGroups
    && tally.sigs + SigsIn(f) <= lim.maxSignatures
    && depth + Height(f) <= lim.maxNestingDepth
    && PeakIn(f) <= lim.maxGroupElements
    && BodyIn(f) <= lim.maxBodyBytes
  }

  ghost predicate WithinWalk(lim: FrameLimits, s: bytes, depth: nat, tally: Tally) {
    && |s| <= USIZE_MAX
    && tally.groups <= lim.maxNestedGroups
    && tally.sigs <= lim.maxSignatures
    && depth <= lim.maxNestingDepth
  }

  /** The outcome that a forest calls for. */
  ghost predicate Explains(lim: FrameLimits, r: Result<Tally>, forest: Option<seq<Node>>, depth: nat, tally: Tally) {
    && (r.Ok? <==> forest.Some? && Admits(lim, forest.value, depth, tally))
    && (r.Ok? ==> r.value == Tally(tally.groups + GroupsIn(forest.value), tally.sigs + SigsIn(forest.value)))
  }

  lemma {:induction false} WalkExact(t: CodeTables, lim: FrameLimits, s: bytes, depth: nat, version: CesrVersion, tally: Tally)
    requires t.WellFormed() && WithinWalk(lim, s, depth, tally)
    ensures Explains(lim, Walk(t, lim, s, depth, version, tally), ParseForest(t, s, version), depth, tally)
    decreases |s|
  {
    if s == [] {
    } else if s[0] != DASH {
      WalkAtomExact(t, lim, s, depth, version, tally);
    } else {
      WalkGroupExact(t, lim, s, depth, version, tally);
    }
  }

  lemma {:induction false} WalkAtomExact(t: CodeTables, lim: FrameLimits, s: bytes, depth: nat, version: CesrVersion, tally: Tally)
    requires t.WellFormed() && WithinWalk(lim, s, depth, tally) && s != [] && s[0] != DASH
    ensures Explains(lim, Walk(t, lim, s, depth, version, tally), ParseForest(t, s, version), depth, tally)
    decreases |s|, 0
  {
    hide Walk, SkipAtom, FreeAtom;
    var atom := SkipAtom(t, lim, s);
    WalkAtom(t, lim, s, depth, version, tally, atom);
    AtomExact(t, lim, s);
    var free := FreeAtom(t, s);
    if free.Some? && free.value.1 > 0 {
      var (node, len) := free.value;
      var rest := ParseForest(t, s[len..], version);
      AtomFirst(lim, node, rest, depth, tally);
      if atom.Ok? && tally.sigs + node.sigs <= lim.maxSignatures {
        WalkExact(t, lim, s[len..], depth, version, Tally(tally.groups, tally.sigs + node.sigs));
      }
    }
  }

  /** What an atom adds to a forest. */
  lemma AtomFirst(lim: FrameLimits, node: Node, rest: Option<seq<Node>>, depth: nat, tally: Tally)
    requires node.Atom?
    ensures rest.Some? ==>
      var f := Prepend(node, rest).value;
      && GroupsIn(f) == GroupsIn(rest.value) && SigsIn(f) == node.sigs + SigsIn(rest.value)
      && (Admits(lim, f, depth, tally) <==>
            node.body <= lim.maxBodyBytes && Admits(lim, rest.value, depth, Tally(tally.groups, tally.sigs + node.sigs)))
  {
    if rest.Some? {
      assert ([node] + rest.value)[1..] == rest.value;
    }
  }

  /** What a group of elements or opaque bytes adds to a forest. */
  lemma GroupFirst(lim: FrameLimits, node: Node, rest: Option<seq<Node>>, depth: nat, tally: Tally)
    requires node.Group?
    ensures rest.Some? ==>
      var f := Prepend(node, rest).value;
      && GroupsIn(f) == 1 + GroupsIn(rest.value) && SigsIn(f) == node.sigs + SigsIn(rest.value)
      && (Admits(lim, f, depth, tally) <==>
            node.peak <= lim.maxGroupElements && Admits(lim, rest.value, depth, Tally(tally.groups + 1, tally.sigs + node.sigs)))
  {
    if rest.Some? {
      assert ([node] + rest.value)[1..] == rest.value;
    }
  }

  /** What an enclosure adds to a forest: its children one level down, counted before the rest. */
  lemma EnclosureFirst(lim: FrameLimits, children: seq<Node>, rest: Option<seq<Node>>, depth: nat, tally: Tally)
    ensures rest.Some? ==>
      var f := Prepend(Enclosure(children), rest).value;
      var entered := Tally(tally.groups + 1, tally.sigs);
      var after := Tally(entered.groups + GroupsIn(children), entered.sigs + SigsIn(children));
      && GroupsIn(f) == 1 + GroupsIn(children) + GroupsIn(rest.value) && SigsIn(f) == SigsIn(children) + SigsIn(rest.value)
      && (Admits(lim, f, depth, tally) <==>
            Admits(lim, children, depth + 1, entered) && Admits(lim, rest.value, depth, after))
  {
    if rest.Some? {
      assert ([Enclosure(children)] + rest.value)[1..] == rest.value;
    }
  }

  lemma {:induction false} WalkGroupExact(t: CodeTables, lim: FrameLimits, s: bytes, depth: nat, version: CesrVersion, tally: Tally)
    requires t.WellFormed() && WithinWalk(lim, s, depth, tally) && s != [] && s[0] == DASH
    ensures Explains(lim, Walk(t, lim, s, depth, version, tally), ParseForest(t, s, version), depth, tally)
    decreases |s|, 1
  {
    hide Walk, NextGroup, FreeHead, FreeAtom, EnclosedVersion;
    var forest := ParseForest(t, s, version);
    if forest.Some? {
      CountsGroups(t, s, version);
    }
    if tally.groups + 1 > lim.maxNestedGroups {
      WalkTooManyGroups(t, lim, s, depth, version, tally);
      return;
    }
    var group := NextGroup(t, lim, s, version, tally.sigs);
    WalkGroup(t, lim, s, depth, version, tally, group);
    NextGroupExact(t, lim, s, version, tally.sigs);
    var free := FreeHead(t, s, version);
    if free.None? {
      return;
    }
    var (head, framed) := free.value;
    var rest := ParseForest(t, s[framed.len..], version);
    if !head.IsEnclosing() {
      GroupFirst(lim, Group(framed.sigs, framed.peak), rest, depth, tally);
      if group.Ok? {
        WalkExact(t, lim, s[framed.len..], depth, version, Tally(tally.groups + 1, tally.sigs + framed.sigs));
      }
    } else {
      OpaqueIsFree(t, s, version);
      WalkEnclosureExact(t, lim, s, depth, version, tally, head, framed);
    }
  }

  lemma CountsGroups(t: CodeTables, s: bytes, version: CesrVersion)
    requires t.WellFormed() && s != [] && s[0] == DASH && ParseForest(t, s, version).Some?
    ensures GroupsIn(ParseForest(t, s, version).value) > 0
  {
    hide FreeHead, FreeAtom, EnclosedVersion;
    var f := ParseForest(t, s, version).value;
    assert !f[0].Atom?;
  }

  /** A quadlet-counted group has no signatures or elements of its own. */
  lemma OpaqueIsFree(t: CodeTables, s: bytes, version: CesrVersion)
    requires t.WellFormed() && FreeHead(t, s, version).Some? && FreeHead(t, s, version).value.0.layout.Quadlets?
    ensures FreeHead(t, s, version).value.1.sigs == 0 && FreeHead(t, s, version).value.1.peak == 0
  {
    hide ReadHead;
  }

  lemma {:induction false} WalkEnclosureExact(t: CodeTables, lim: FrameLimits, s: bytes, depth: nat, version: CesrVersion, tally: Tally, head: GroupHead, framed: Framed)
    requires t.WellFormed() && WithinWalk(lim, s, depth, tally) && tally.groups < lim.maxNestedGroups
    requires s != [] && s[0] == DASH && FreeHead(t, s, version) == Some((head, framed)) && head.IsEnclosing() && framed.sigs == 0
    ensures Explains(lim, AfterGroup(t, lim, s, depth, version, Tally(tally.groups + 1, tally.sigs), head, Extent(framed.len, 0)),
                     ParseForest(t, s, version), depth, tally)
    decreases |s|, 0
  {
    hide Walk, FreeHead, FreeAtom, EnclosedVersion;
    var inner := s[head.start..framed.len];
    var chosen := EnclosedVersion(inner, version);
    if chosen.Err? {
      return;
    }
    var (innerVersion, offset) := chosen.value;
    var entered := Tally(tally.groups + 1, tally.sigs);
    var children := ParseForest(t, inner[offset..], innerVersion);
    var rest := ParseForest(t, s[framed.len..], version);
    if children.Some? {
      EnclosureFirst(lim, children.value, rest, depth, tally);
    }
    if depth + 1 <= lim.maxNestingDepth {
      WalkExact(t, lim, inner[offset..], depth + 1, innerVersion, entered);
      var enclosed := Walk(t, lim, inner[offset..], depth + 1, innerVersion, entered);
      if enclosed.Ok? {
        WalkExact(t, lim, s[framed.len..], depth, version, enclosed.value);
      }
    }
  }

  /** The forest of an enclosure's payload, past its version selector. */
  ghost function PayloadForest(t: CodeTables, payload: bytes, version: CesrVersion): Option<seq<Node>>
    requires t.WellFormed()
  {
    match EnclosedVersion(payload, version)
    case Err(_) => None
    case Ok((innerVersion, offset)) => ParseForest(t, payload[offset..], innerVersion)
  }

  /** `scan_enclosure` succeeds exactly when the payload is a forest and the forest's groups,
      depth (the scanned enclosure counts as one), largest list, largest body and signatures are
      within the limits; it then reports exactly the forest's signatures. */
  lemma ScanExact(t: CodeTables, lim: FrameLimits, payload: bytes, prior: nat, version: CesrVersion)
    requires t.WellFormed() && |payload| <= USIZE_MAX && prior <= lim.maxSignatures
    ensures var r, forest := Scan(t, lim, payload, prior, version), PayloadForest(t, payload, version);
            && (r.Ok? <==> forest.Some? && Admits(lim, forest.value, 1, Tally(0, prior)))
            && (r.Ok? ==> r.value == SigsIn(forest.value))
  {
    hide Walk, EnclosedVersion, ParseForest;
    var chosen := EnclosedVersion(payload, version);
    if lim.maxNestingDepth > 0 && chosen.Ok? {
      WalkExact(t, lim, payload[chosen.value.1..], 1, chosen.value.0, Tally(0, prior));
    }
  }

  // ── One count of groups for the whole scan ─────────────────────────────

  /** Groups that are children of the scanned enclosure itself. */
  function Children(f: seq<Node>): nat {
    if f == [] then 0 else (if f[0].Atom? then 0 else 1) + Children(f[1..])
  }

  /** The most child groups of any one enclosure, the scanned one included. */
  function Widest(f: seq<Node>): nat {
    Max(Children(f), WidestBelow(f))
  }

  function WidestBelow(f: seq<Node>): nat {
    if f == [] then 0 else
      Max(match f[0]
          case Enclosure(inner) => Max(Children(inner), WidestBelow(inner))
          case _ => 0,
          WidestBelow(f[1..]))
  }

  /** No enclosure inside the scanned one holds a group. */
  predicate Flat(f: seq<Node>) {
    forall i | 0 <= i < |f| && f[i].Enclosure? :: GroupsIn(f[i].inner) == 0
  }

  /** All groups together are at least the widest enclosure's, and no more exactly in a flat forest. */
  lemma {:induction false} WidestExact(f: seq<Node>)
    ensures Children(f) <= GroupsIn(f) && WidestBelow(f) <= GroupsIn(f)
    ensures Flat(f) <==> Children(f) == GroupsIn(f)
    ensures WidestBelow(f) == GroupsIn(f) ==> GroupsIn(f) == 0
  {
    if f != [] {
      var rest := f[1..];
      assert f == [f[0]] + rest;
      assert forall i | 0 <= i < |rest| :: rest[i] == f[i + 1];
      assert Flat(f) <==> (f[0].Enclosure? ==> GroupsIn(f[0].inner) == 0) && Flat(rest);
      WidestExact(rest);
      if f[0].Enclosure? {
        WidestExact(f[0].inner);
      }
    }
  }

  /** What the limits of a scan would mean if `maxNestedGroups` bounded the children of each
      enclosure on its own. */
  ghost predicate AdmitsEach(lim: FrameLimits, f: seq<Node>, prior: nat) {
    && Widest(f) <= lim.maxNestedGroups
    && prior + SigsIn(f) <= lim.maxSignatures
    && 1 + Height(f) <= lim.maxNestingDepth
    && PeakIn(f) <= lim.maxGroupElements
    && BodyIn(f) <= lim.maxBodyBytes
  }

  /** Exactly when the scan can tell a bound on each enclosure from its own bound on all groups: a
      scan that succeeds keeps each enclosure within the limit; over a flat payload that is all it
      asks; and every other payload is refused by some limits that each of its enclosures keeps. */
  lemma EachEnclosureExact(t: CodeTables, lim: FrameLimits, payload: bytes, prior: nat, version: CesrVersion)
    requires t.WellFormed() && |payload| <= USIZE_MAX && prior <= lim.maxSignatures && PayloadForest(t, payload, version).Some?
    ensures var f := PayloadForest(t, payload, version).value;
            && (Scan(t, lim, payload, prior, version).Ok? ==> AdmitsEach(lim, f, prior))
            && (Flat(f) ==> (Scan(t, lim, payload, prior, version).Ok? <==> AdmitsEach(lim, f, prior)))
            && (!Flat(f) && Scan(t, lim, payload, prior, version).Ok? ==>
                  && AdmitsEach(lim.(maxNestedGroups := Widest(f)), f, prior)
                  && Scan(t, lim.(maxNestedGroups := Widest(f)), payload, prior, version).Err?)
  {
    hide Scan, PayloadForest;
    var f := PayloadForest(t, payload, version).value;
    WidestExact(f);
    ScanExact(t, lim, payload, prior, version);
    if Widest(f) <= USIZE_MAX {
      ScanExact(t, lim.(maxNestedGroups := Widest(f)), payload, prior, version);
    }
  }

  /** `-TAB-TAA`: an enclosure whose only child is an empty enclosure. */
  const CHAINED: bytes := [45, 84, 65, 66, 45, 84, 65, 65]
  const CHAINED_FOREST := [Enclosure([Enclosure([])])]

  /** The counter `-TAA` or `-TAB` at the head of a payload. */
  lemma GenericHead(s: bytes, count: nat)
    requires count <= 1 && |s| >= 4 && s[..4] == [45, 84, 65, 65 + count]
    ensures ReadHead(V1, s) == Ok(GroupHead(V1, Quadlets(false, true), count, 4))
  {
    hide ReadCounter;
    var c := Counter(Small(84), count);
    assert SoftField(count, 1) == [65 + count];
    assert SoftField(count, 2) == [65, 65 + count];
    assert Print(c) == [45, 84, 65, 65 + count];
    assert s == Print(c) + s[4..];
    ReadPrinted(V1, c, s[4..]);
  }

  lemma GenericGroup(t: CodeTables, s: bytes, count: nat)
    requires t.WellFormed() && count <= 1 && |s| >= 4 + 4 * count && s[..4] == [45, 84, 65, 65 + count]
    ensures FreeHead(t, s, V1) == Some((GroupHead(V1, Quadlets(false, true), count, 4), Framed(4 + 4 * count, 0, 0)))
  {
    hide ReadHead, FreeGroup;
    GenericHead(s, count);
    GenericSpan(t, s, GroupHead(V1, Quadlets(false, true), count, 4));
  }

  lemma GenericSpan(t: CodeTables, s: bytes, head: GroupHead)
    requires t.WellFormed() && head.layout == Quadlets(false, true) && head.start == 4 && head.count <= 1 && |s| >= 4 + 4 * head.count
    ensures FreeGroup(t, head, s) == Some(Framed(4 + 4 * head.count, 0, 0))
  {
  }

  /** Without a selector a payload keeps its code table. */
  lemma NoSelector(s: bytes)
    requires s != [] ==> |s| >= 2 && s[1] != UNDERSCORE
    ensures EnclosedVersion(s, V1) == Ok((V1, 0))
  {
  }

  lemma GenericForest(t: CodeTables, s: bytes, count: nat, children: seq<Node>)
    requires t.WellFormed() && count <= 1 && |s| == 4 + 4 * count && s[..4] == [45, 84, 65, 65 + count]
    requires PayloadForest(t, s[4..], V1) == Some(children)
    ensures PayloadForest(t, s, V1) == Some([Enclosure(children)])
  {
    hide FreeHead, EnclosedVersion;
    GenericGroup(t, s, count);
    NoSelector(s);
    assert s[1] == s[..4][1] == 84;
    assert s[0] == s[..4][0] == DASH;
    assert s[4..|s|] == s[4..] && s[0..] == s && s[|s|..] == [];
    assert ParseForest(t, s[|s|..], V1) == Some([]);
    assert [Enclosure(children)] + [] == [Enclosure(children)];
  }

  lemma ChainedForest(t: CodeTables)
    requires t.WellFormed()
    ensures PayloadForest(t, CHAINED, V1) == Some(CHAINED_FOREST)
  {
    hide FreeHead, EnclosedVersion;
    var inner := CHAINED[4..];
    NoSelector(inner[4..]);
    assert inner[4..] == [];
    GenericForest(t, inner, 0, []);
    GenericForest(t, CHAINED, 1, [Enclosure([])]);
  }

  /** The enclosed payload `-TAB-TAA` shows it: each enclosure has at most one child group, and a
      limit of one refuses the payload for its second group. */
  lemma ChainedIsRefused(t: CodeTables, lim: FrameLimits, prior: nat)
    requires t.WellFormed() && lim.maxNestedGroups == 1 && lim.maxNestingDepth >= 3 && prior <= lim.maxSignatures
    ensures PayloadForest(t, CHAINED, V1) == Some(CHAINED_FOREST) && AdmitsEach(lim, CHAINED_FOREST, prior)
    ensures Scan(t, lim, CHAINED, prior, V1) == Err(LimitExceeded(NestedGroups, 1, 2))
  {
    hide Walk, FreeHead, EnclosedVersion, NextGroup, ParseForest;
    ChainedForest(t);
    var inner := CHAINED[4..];
    GenericGroup(t, CHAINED, 1);
    NoSelector(CHAINED);
    NoSelector(inner);
    NextGroupExact(t, lim, CHAINED, V1, prior);
    WalkGroup(t, lim, CHAINED, 1, V1, Tally(0, prior), NextGroup(t, lim, CHAINED, V1, prior));
    assert CHAINED[4..8] == inner && CHAINED[0..] == CHAINED && inner[0..] == inner;
    WalkTooManyGroups(t, lim, inner, 2, V1, Tally(1, prior));
  }
}
