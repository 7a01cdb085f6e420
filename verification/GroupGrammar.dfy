/**
 The wire grammar of counter-delimited attachment groups, as parsers without memory.

 Every parser continues from a position inside a group and reads to its end, so "from the
 start" and "from wherever an interrupted scan got to" are the same function at two positions.
 */
module GroupGrammar {
  import opened Prelude
  import opened CounterCodes
  import opened Primitives

  // ── Layouts ────────────────────────────────────────────────────────────

  /** What follows the Matter primitives of one element. */
  datatype ElementTail = NoTail | OneIndexer | NestedSigs

  /** Element-counted groups repeat one element grammar; quadlet-counted groups span four bytes
      per count, and some of them enclose further groups. */
  datatype Layout =
    | Elements(matters: nat, tail: ElementTail, sigsEach: nat)
    | Quadlets(envelope: bool, enclosing: bool)
  {
    /** Every element holds at least one primitive before any nested list, and at most one
        signature outside of it. */
    predicate Solid() {
      Elements? ==> sigsEach <= 1 && (matters > 0 || tail == OneIndexer)
    }
  }

  function LayoutV1(letter: byte): Layout {
    match letter
    case 65 => Elements(0, OneIndexer, 1)   // -A controller signatures
    case 66 => Elements(0, OneIndexer, 1)   // -B witness signatures
    case 67 => Elements(2, NoTail, 1)       // -C non-transferable receipt couples
    case 68 => Elements(3, OneIndexer, 1)   // -D transferable receipt quadruples
    case 69 => Elements(2, NoTail, 0)       // -E first-seen replay couples
    case 70 => Elements(3, NestedSigs, 0)   // -F transferable signature groups
    case 71 => Elements(2, NoTail, 0)       // -G seal source couples
    case 72 => Elements(1, NestedSigs, 0)   // -H last-event signature groups
    case 73 => Elements(3, NoTail, 0)       // -I seal source triples
    case 84 => Quadlets(false, true)        // -T generic
    case 85 => Quadlets(false, true)        // -U body with attachments
    case 86 => Quadlets(true, true)         // -V attachment envelope
    case _ => Quadlets(false, false)        // -L, -W, -Z opaque payloads
  }

  function LayoutV2(letter: byte): Layout {
    match letter
    case 65 => Quadlets(false, true)        // -A generic
    case 66 => Quadlets(false, true)        // -B body with attachments
    case 67 => Quadlets(false, true)        // -C attachments
    case 75 => Elements(0, OneIndexer, 1)   // -K controller signatures
    case 76 => Elements(0, OneIndexer, 1)   // -L witness signatures
    case 77 => Elements(2, NoTail, 1)       // -M non-transferable receipt couples
    case 78 => Elements(3, OneIndexer, 1)   // -N transferable receipt quadruples
    case 79 => Elements(2, NoTail, 0)       // -O first-seen replay couples
    case 81 => Elements(1, NoTail, 0)       // -Q digest seals
    case 82 => Elements(1, NoTail, 0)       // -R Merkle root seals
    case 83 => Elements(2, NoTail, 0)       // -S seal source couples
    case 84 => Elements(3, NoTail, 0)       // -T seal source triples
    case 85 => Elements(1, NoTail, 0)       // -U last seal sources
    case 86 => Elements(2, NoTail, 0)       // -V backer registrar couples
    case 87 => Elements(2, NoTail, 0)       // -W typed digest couples
    case 88 => Elements(3, NestedSigs, 0)   // -X transferable signature groups
    case 89 => Elements(1, NestedSigs, 0)   // -Y last-event signature groups
    case 97 => Elements(4, NoTail, 0)       // -a blinded state quadruples
    case 98 => Elements(6, NoTail, 0)       // -b bound state sextuples
    case 99 => Elements(4, NoTail, 0)       // -c typed media quadruples
    case _ => Quadlets(false, false)        // -D to -J, -P, -Z opaque payloads
  }

  function LayoutOf(version: CesrVersion, letter: byte): (layout: Layout)
    ensures layout.Solid()
  {
    if version == V1 then LayoutV1(letter) else LayoutV2(letter)
  }

  /** A group's counter, read: the fixed part of a framing cursor. */
  datatype GroupHead = GroupHead(version: CesrVersion, layout: Layout, count: nat, start: nat) {
    /** Where an element scan begins, or where a quadlet payload ends. */
    function FirstEnd(): nat {
      if layout.Quadlets? then start + 4 * count else start
    }

    function ElementCount(): Option<nat> {
      if layout.Elements? then Some(count) else None
    }

    predicate IsEnvelope() {
      layout.Quadlets? && layout.envelope
    }

    predicate IsEnclosing() {
      layout.Quadlets? && layout.enclosing
    }
  }

  /** The counter part of `GroupFrameCursor::new_v1` and `new_v2`. */
  function ReadHead(version: CesrVersion, s: bytes): (r: Result<GroupHead>)
    ensures r.Ok? ==> r.value.version == version && r.value.layout.Solid()
    ensures r.Ok? ==> 4 <= r.value.start <= |s| && r.value.count < 0x4000_0000
  {
    var c :- ReadCounter(version, s);
    match c.code
    case Genus => Err(GenusVersionNotAGroup)
    case Small(letter) => Ok(GroupHead(version, LayoutOf(version, letter), c.count, 4))
    case Big(letter) => Ok(GroupHead(version, LayoutOf(version, letter), c.count, 8))
  }

  // ── One element ────────────────────────────────────────────────────────

  /** Signatures still to come of a nested list whose counter has been read. */
  datatype SigRun = SigRun(left: nat, declared: nat)

  /** A position inside one element that ends in a nested signature list. */
  datatype Partial = Partial(pos: nat, mattersLeft: nat, run: Option<SigRun>) {
    function Declared(): nat {
      if run.Some? then run.value.declared else 0
    }

    /** Something of the element is behind this position, or its first primitive is ahead; and
        every declared signature has taken a byte or will. */
    predicate Sound() {
      && (pos > 0 || mattersLeft > 0)
      && (run.Some? ==> run.value.declared < pos + run.value.left)
    }
  }

  datatype Extent = Extent(len: nat, sigs: nat)

  /** The counter that heads every nested signature list: `-A` under V1, `-K` under V2. */
  function NestedCode(version: CesrVersion): CounterCode {
    if version == V1 then Small(65) else Small(75)
  }

  function NestedCounter(version: CesrVersion, s: bytes, maxElements: nat, maxSignatures: nat): (r: Result<Counter>)
    ensures r.Ok? ==> r.value.code.FullSize() <= |s| && r.value.count <= maxSignatures
  {
    var c :- ReadCounter(version, s);
    if c.code != NestedCode(version) then Err(NestedCounterMismatch(c.code.Hard()))
    else if c.count > maxElements then Err(LimitExceeded(GroupElements, maxElements, c.count))
    else if c.count > maxSignatures then Err(LimitExceeded(Signatures, maxSignatures, c.count))
    else Ok(c)
  }

  /** Matter primitives, a nested counter, and the signatures it declares. */
  function NestedFrom(t: CodeTables, version: CesrVersion, s: bytes, p: Partial,
                      maxElements: nat, maxSignatures: nat): (r: Result<Extent>)
    requires t.WellFormed() && p.pos <= |s|
    ensures r.Ok? ==> p.pos <= r.value.len <= |s| && (p.Sound() ==> r.value.len > 0)
    ensures r.Ok? && p.run.None? ==> r.value.len > p.pos && r.value.sigs <= maxSignatures
    ensures r.Ok? && p.run.Some? ==> r.value.sigs == p.run.value.declared
    ensures r.Ok? && p.Sound() ==> r.value.sigs < r.value.len
  {
    var pos :- MattersFrom(t, s, p.pos, p.mattersLeft);
    match p.run
    case Some(run) =>
      var end :- IndexersFrom(t, s, pos, run.left);
      Ok(Extent(end, run.declared))
    case None =>
      var c :- NestedCounter(version, s[pos..], maxElements, maxSignatures);
      var end :- IndexersFrom(t, s, pos + c.code.FullSize(), c.count);
      Ok(Extent(end, c.count))
  }

  /** `GroupKind::skip` of the families without a nested list. */
  function FlatSpan(t: CodeTables, layout: Layout, s: bytes): (r: Result<nat>)
    requires t.WellFormed() && layout.Elements?
    ensures r.Ok? ==> r.value <= |s| && (layout.matters > 0 || layout.tail == OneIndexer ==> 0 < r.value)
  {
    var pos :- MattersFrom(t, s, 0, layout.matters);
    if layout.tail == OneIndexer then
      var last :- IndexerSpan(t, s[pos..]);
      Ok(pos + last)
    else Ok(pos)
  }

  function ElementFrom(t: CodeTables, head: GroupHead, s: bytes, p: Partial,
                       maxElements: nat, maxSignatures: nat): (r: Result<Extent>)
    requires t.WellFormed() && p.pos <= |s| && Inside(head, p) && p.Declared() <= maxSignatures
    ensures r.Ok? ==> 0 < r.value.len <= |s| && r.value.sigs <= maxSignatures && r.value.sigs < r.value.len
  {
    if head.layout.tail == NestedSigs then NestedFrom(t, head.version, s, p, maxElements, maxSignatures)
    else
      var size :- FlatSpan(t, head.layout, s);
      Ok(Extent(size, 0))
  }

  /** Only elements with a nested list are ever left half way. */
  predicate Inside(head: GroupHead, p: Partial) {
    && head.layout.Elements?
    && head.layout.Solid()
    && if head.layout.tail == NestedSigs then p.Sound() else p == FreshElement(head)
  }

  function FreshElement(head: GroupHead): Partial {
    Partial(0, if head.layout.Elements? then head.layout.matters else 0, None)
  }

  // ── A whole group ──────────────────────────────────────────────────────

  /** What the caller allows one group: bytes, elements per list, and signatures. */
  datatype Bounds = Bounds(maxBytes: nat, maxElements: nat, maxSignatures: nat) {
    predicate Finite() {
      maxBytes <= USIZE_MAX && maxElements <= USIZE_MAX && maxSignatures <= USIZE_MAX
    }
  }

  /** A position inside a group: everything before `end` is framed, `sigs` counts the signatures
      known so far without those of the element at `part`. */
  datatype GroupPos = GroupPos(head: GroupHead, end: nat, remaining: nat, sigs: nat, part: Partial) {
    /** The position lies inside the bytes of `s` that the byte budget admits. */
    predicate Fits(s: bytes, b: Bounds) {
      && head.layout.Solid()
      && head.start <= end
      && sigs <= end + remaining
      && (head.layout.Quadlets? ==> sigs == 0)
      && (remaining > 0 ==>
            && Inside(head, part)
            && end + part.pos <= |s|
            && (end <= b.maxBytes ==> end + part.pos <= b.maxBytes))
    }

    function KnownSignatures(): nat {
      sigs + part.Declared()
    }
  }

  function StartOf(head: GroupHead): GroupPos {
    GroupPos(
      head,
      head.FirstEnd(),
      if head.layout.Elements? then head.count else 0,
      if head.layout.Elements? then head.count * head.layout.sigsEach else 0,
      FreshElement(head))
  }

  /** The element bytes of `s` from `end` on that the byte budget admits. */
  function Window(s: bytes, end: nat, maxBytes: nat): (w: bytes)
    requires end <= |s| && end <= maxBytes
    ensures |w| == Min(|s|, maxBytes) - end
  {
    s[end..Min(|s|, maxBytes)]
  }

  /** A starved element inside an exhausted byte budget is over budget, not pending. */
  function Budgeted(r: ParseError, available: nat, maxBytes: nat): ParseError {
    if r.NeedBytes? && available >= maxBytes
    then LimitExceeded(AttachmentBytes, maxBytes, SaturatingAdd(available, r.missing))
    else r
  }

  function ElementsFrom(t: CodeTables, g: GroupPos, s: bytes, b: Bounds): (r: Result<Extent>)
    requires t.WellFormed() && g.Fits(s, b) && g.end <= b.maxBytes && g.KnownSignatures() <= b.maxSignatures
    ensures r.Ok? ==> g.end <= r.value.len <= |s| && r.value.len <= b.maxBytes
    ensures r.Ok? ==> r.value.sigs <= b.maxSignatures && r.value.sigs <= r.value.len
    decreases g.remaining
  {
    if g.remaining == 0 then
      if |s| < g.end then Err(NeedBytes(g.end - |s|)) else Ok(Extent(g.end, g.sigs))
    else
      match ElementFrom(t, g.head, Window(s, g.end, b.maxBytes), g.part, b.maxElements, b.maxSignatures - g.sigs)
      case Err(e) => Err(Budgeted(e, |s|, b.maxBytes))
      case Ok(element) =>
        ElementsFrom(t, NextElement(g, element), s, b)
  }

  function NextElement(g: GroupPos, element: Extent): GroupPos
    requires g.remaining > 0
  {
    GroupPos(g.head, g.end + element.len, g.remaining - 1, g.sigs + element.sigs, FreshElement(g.head))
  }

  /** `advance_limited`: the extent of the group, its length in bytes and its own signatures. */
  function RunFrom(t: CodeTables, g: GroupPos, s: bytes, b: Bounds): (r: Result<Extent>)
    requires t.WellFormed() && g.Fits(s, b)
    ensures r.Ok? ==> g.end <= r.value.len <= |s| && r.value.len <= b.maxBytes
    ensures r.Ok? ==> r.value.sigs <= b.maxSignatures && r.value.sigs <= r.value.len
  {
    if g.KnownSignatures() > b.maxSignatures then Err(LimitExceeded(Signatures, b.maxSignatures, g.KnownSignatures()))
    else if g.end > b.maxBytes then Err(LimitExceeded(AttachmentBytes, b.maxBytes, g.end))
    else ElementsFrom(t, g, s, b)
  }
}
