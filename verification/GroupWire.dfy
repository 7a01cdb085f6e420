/** Attachment groups on the wire: counters, primitives, indexed signatures and nested lists, stated on
    the bytes. */
module GroupWire {
  import opened Prelude
  import opened CounterCodes
  import opened Primitives
  import opened GroupGrammar
  import opened GroupLimits
  import opened Forests

  // ── Runs of primitives ─────────────────────────────────────────────────

  /** `n` Matter primitives, one behind the other and nothing else. */
  ghost predicate MatterRun(t: CodeTables, s: bytes, n: nat)
    requires t.WellFormed()
  {
    exists parts: seq<bytes> ::
      |parts| == n && Flatten(parts) == s && forall i | 0 <= i < n :: MatterSpan(t, parts[i]) == Ok(|parts[i]|)
  }

  /** `n` indexed signatures, one behind the other and nothing else. */
  ghost predicate IndexedRun(t: CodeTables, s: bytes, n: nat)
    requires t.WellFormed()
  {
    exists parts: seq<bytes> ::
      |parts| == n && Flatten(parts) == s && forall i | 0 <= i < n :: IndexerSpan(t, parts[i]) == Ok(|parts[i]|)
  }

  lemma {:induction false} MattersSplit(t: CodeTables, s: bytes, pos: nat, n: nat, end: nat) returns (parts: seq<bytes>)
    requires t.WellFormed() && pos <= |s| && MattersFrom(t, s, pos, n) == Ok(end)
    ensures pos <= end <= |s| && |parts| == n && Flatten(parts) == s[pos..end]
    ensures forall i | 0 <= i < n :: MatterSpan(t, parts[i]) == Ok(|parts[i]|)
    decreases n
  {
    hide MatterSpan;
    if n == 0 {
      parts := [];
    } else {
      var size := MatterSpan(t, s[pos..]).value;
      var first := s[pos..][..size];
      MatterSpanLocal(t, first, s[pos..]);
      var rest := MattersSplit(t, s, pos + size, n - 1, end);
      parts := [first] + rest;
      assert parts[1..] == rest;
      assert s[pos..end] == first + s[pos + size..end];
    }
  }

  lemma {:induction false} MattersJoin(t: CodeTables, s: bytes, pos: nat, parts: seq<bytes>)
    requires t.WellFormed() && pos <= |s| && Flatten(parts) <= s[pos..]
    requires forall i | 0 <= i < |parts| :: MatterSpan(t, parts[i]) == Ok(|parts[i]|)
    ensures MattersFrom(t, s, pos, |parts|) == Ok(pos + |Flatten(parts)|)
    decreases |parts|
  {
    hide MatterSpan;
    if parts != [] {
      var first, rest := parts[0], parts[1..];
      assert first <= s[pos..];
      MatterSpanStable(t, first, s[pos..]);
      assert s[pos..][..|Flatten(parts)|] == first + Flatten(rest);
      assert s[pos + |first|..] == s[pos..][|first|..];
      MattersJoin(t, s, pos + |first|, rest);
    }
  }

  /** Stepping over primitives is stepping over a run of them. */
  lemma MattersExact(t: CodeTables, s: bytes, pos: nat, n: nat, end: nat)
    requires t.WellFormed() && pos <= |s|
    ensures MattersFrom(t, s, pos, n) == Ok(end) <==> pos <= end <= |s| && MatterRun(t, s[pos..end], n)
  {
    hide MattersFrom, MatterSpan;
    if MattersFrom(t, s, pos, n) == Ok(end) {
      var parts := MattersSplit(t, s, pos, n, end);
    }
    if pos <= end <= |s| && MatterRun(t, s[pos..end], n) {
      var parts: seq<bytes> :|
        |parts| == n && Flatten(parts) == s[pos..end] && forall i | 0 <= i < n :: MatterSpan(t, parts[i]) == Ok(|parts[i]|);
      assert s[pos..end] == s[pos..][..end - pos];
      MattersJoin(t, s, pos, parts);
    }
  }

  lemma {:induction false} IndexersSplit(t: CodeTables, s: bytes, pos: nat, n: nat, end: nat) returns (parts: seq<bytes>)
    requires t.WellFormed() && pos <= |s| && IndexersFrom(t, s, pos, n) == Ok(end)
    ensures pos <= end <= |s| && |parts| == n && Flatten(parts) == s[pos..end]
    ensures forall i | 0 <= i < n :: IndexerSpan(t, parts[i]) == Ok(|parts[i]|)
    decreases n
  {
    hide IndexerSpan;
    if n == 0 {
      parts := [];
    } else {
      var size := IndexerSpan(t, s[pos..]).value;
      var first := s[pos..][..size];
      IndexerSpanLocal(t, first, s[pos..]);
      var rest := IndexersSplit(t, s, pos + size, n - 1, end);
      parts := [first] + rest;
      assert parts[1..] == rest;
      assert s[pos..end] == first + s[pos + size..end];
    }
  }

  lemma {:induction false} IndexersJoin(t: CodeTables, s: bytes, pos: nat, parts: seq<bytes>)
    requires t.WellFormed() && pos <= |s| && Flatten(parts) <= s[pos..]
    requires forall i | 0 <= i < |parts| :: IndexerSpan(t, parts[i]) == Ok(|parts[i]|)
    ensures IndexersFrom(t, s, pos, |parts|) == Ok(pos + |Flatten(parts)|)
    decreases |parts|
  {
    hide IndexerSpan;
    if parts != [] {
      var first, rest := parts[0], parts[1..];
      assert first <= s[pos..];
      IndexerSpanStable(t, first, s[pos..]);
      assert s[pos..][..|Flatten(parts)|] == first + Flatten(rest);
      assert s[pos + |first|..] == s[pos..][|first|..];
      IndexersJoin(t, s, pos + |first|, rest);
    }
  }

  /** Stepping over indexed signatures is stepping over a run of them. */
  lemma IndexersExact(t: CodeTables, s: bytes, pos: nat, n: nat, end: nat)
    requires t.WellFormed() && pos <= |s|
    ensures IndexersFrom(t, s, pos, n) == Ok(end) <==> pos <= end <= |s| && IndexedRun(t, s[pos..end], n)
  {
    hide IndexersFrom, IndexerSpan;
    if IndexersFrom(t, s, pos, n) == Ok(end) {
      var parts := IndexersSplit(t, s, pos, n, end);
    }
    if pos <= end <= |s| && IndexedRun(t, s[pos..end], n) {
      var parts: seq<bytes> :|
        |parts| == n && Flatten(parts) == s[pos..end] && forall i | 0 <= i < n :: IndexerSpan(t, parts[i]) == Ok(|parts[i]|);
      assert s[pos..end] == s[pos..][..end - pos];
      IndexersJoin(t, s, pos, parts);
    }
  }

  // ── One element ────────────────────────────────────────────────────────

  /** `n` primitives and one indexed signature. */
  ghost predicate MattersThenIndexed(t: CodeTables, e: bytes, n: nat)
    requires t.WellFormed()
  {
    exists k: nat :: k <= |e| && MatterRun(t, e[..k], n) && IndexedRun(t, e[k..], 1)
  }

  /** `n` primitives, the counter of a list and the `count` indexed signatures that it announces. */
  ghost predicate MattersThenList(t: CodeTables, e: bytes, n: nat, letter: char, count: nat)
    requires t.WellFormed() && letter < 128 as char
  {
    exists k: nat :: k <= |e| && MatterRun(t, e[..k], n) && ListOf(t, e[k..], letter, count)
  }

  ghost predicate ListOf(t: CodeTables, e: bytes, letter: char, count: nat)
    requires t.WellFormed() && letter < 128 as char
  {
    && |e| >= 4 && count < 4096
    && e[..4] == ['-' as int, letter as int] + SoftField(count, 2)
    && IndexedRun(t, e[4..], count)
  }

  /** One element of a group, by the letter of its counter, and the signatures it holds. */
  ghost predicate IsElement(t: CodeTables, version: CesrVersion, letter: char, e: bytes, sigs: nat)
    requires t.WellFormed()
  {
    if version == V1 then
      match letter
      case 'A' => IndexedRun(t, e, 1) && sigs == 1            // controller signatures
      case 'B' => IndexedRun(t, e, 1) && sigs == 1            // witness signatures
      case 'C' => MatterRun(t, e, 2) && sigs == 1             // non-transferable receipt couples
      case 'D' => MattersThenIndexed(t, e, 3) && sigs == 1    // transferable receipt quadruples
      case 'E' => MatterRun(t, e, 2) && sigs == 0             // first-seen replay couples
      case 'F' => MattersThenList(t, e, 3, 'A', sigs)         // transferable signature groups
      case 'G' => MatterRun(t, e, 2) && sigs == 0             // seal source couples
      case 'H' => MattersThenList(t, e, 1, 'A', sigs)         // last-event signature groups
      case 'I' => MatterRun(t, e, 3) && sigs == 0             // seal source triples
      case _ => false
    else
      match letter
      case 'K' => IndexedRun(t, e, 1) && sigs == 1            // controller signatures
      case 'L' => IndexedRun(t, e, 1) && sigs == 1            // witness signatures
      case 'M' => MatterRun(t, e, 2) && sigs == 1             // non-transferable receipt couples
      case 'N' => MattersThenIndexed(t, e, 3) && sigs == 1    // transferable receipt quadruples
      case 'O' => MatterRun(t, e, 2) && sigs == 0             // first-seen replay couples
      case 'Q' => MatterRun(t, e, 1) && sigs == 0             // digest seals
      case 'R' => MatterRun(t, e, 1) && sigs == 0             // Merkle root seals
      case 'S' => MatterRun(t, e, 2) && sigs == 0             // seal source couples
      case 'T' => MatterRun(t, e, 3) && sigs == 0             // seal source triples
      case 'U' => MatterRun(t, e, 1) && sigs == 0             // last seal sources
      case 'V' => MatterRun(t, e, 2) && sigs == 0             // backer registrar couples
      case 'W' => MatterRun(t, e, 2) && sigs == 0             // typed digest couples
      case 'X' => MattersThenList(t, e, 3, 'K', sigs)         // transferable signature groups
      case 'Y' => MattersThenList(t, e, 1, 'K', sigs)         // last-event signature groups
      case 'a' => MatterRun(t, e, 4) && sigs == 0             // blinded state quadruples
      case 'b' => MatterRun(t, e, 6) && sigs == 0             // bound state sextuples
      case 'c' => MatterRun(t, e, 4) && sigs == 0             // typed media quadruples
      case _ => false
  }

  /** The same by the layout that a group head records; `own` counts nested signatures only. */
  ghost predicate FitsLayout(t: CodeTables, version: CesrVersion, layout: Layout, e: bytes, own: nat)
    requires t.WellFormed()
  {
    && layout.Elements?
    && match layout.tail
       case NoTail => MatterRun(t, e, layout.matters) && own == 0
       case OneIndexer => MattersThenIndexed(t, e, layout.matters) && own == 0
       case NestedSigs => MattersThenList(t, e, layout.matters, if version == V1 then 'A' else 'K', own)
  }

  lemma NoMatters(t: CodeTables, e: bytes)
    requires t.WellFormed()
    ensures MattersThenIndexed(t, e, 0) <==> IndexedRun(t, e, 1)
  {
    hide MatterSpan, IndexedRun;
    var none: seq<bytes> := [];
    assert Flatten(none) == e[..0];
    assert MatterRun(t, e[..0], 0);
    assert e[0..] == e;
    forall k: nat | k <= |e| && MatterRun(t, e[..k], 0)
      ensures k == 0
    {
      var parts: seq<bytes> :| |parts| == 0 && Flatten(parts) == e[..k];
      assert |e[..k]| == 0;
    }
  }

  /** What the letter of a counter says about its elements. */
  lemma LetterExact(t: CodeTables, version: CesrVersion, letter: char, e: bytes, sigs: nat)
    requires t.WellFormed() && letter < 128 as char
    ensures var layout := LayoutOf(version, letter as int);
            layout.Elements? && InTable(version, Small(letter as int)) ==>
              (IsElement(t, version, letter, e, sigs) <==> sigs >= layout.sigsEach && FitsLayout(t, version, layout, e, sigs - layout.sigsEach))
  {
    hide MatterRun, IndexedRun, MattersThenIndexed, MattersThenList;
    NoMatters(t, e);
  }

  lemma FlatWire(t: CodeTables, layout: Layout, s: bytes, len: nat)
    requires t.WellFormed() && layout.Elements? && layout.tail != NestedSigs
    ensures FlatSpan(t, layout, s) == Ok(len) <==>
      len <= |s| && if layout.tail == OneIndexer then MattersThenIndexed(t, s[..len], layout.matters) else MatterRun(t, s[..len], layout.matters)
  {
    hide MattersFrom, IndexerSpan, IndexersFrom, MatterRun, IndexedRun;
    var pos := MattersFrom(t, s, 0, layout.matters);
    if pos.Ok? {
      MattersExact(t, s, 0, layout.matters, pos.value);
      OneIndexed(t, s, pos.value, len);
      if pos.value <= len <= |s| {
        SplitAtEnd(s, pos.value, len);
      }
    }
    if len <= |s| {
      if layout.tail == OneIndexer {
        forall k: nat | k <= len && MatterRun(t, s[..len][..k], layout.matters) && IndexedRun(t, s[..len][k..], 1)
          ensures FlatSpan(t, layout, s) == Ok(len)
        {
          SplitAtEnd(s, k, len);
          MattersExact(t, s, 0, layout.matters, k);
          OneIndexed(t, s, k, len);
        }
      } else {
        MattersExact(t, s, 0, layout.matters, len);
      }
    }
  }

  lemma SplitAtEnd(s: bytes, k: nat, len: nat)
    requires k <= len <= |s|
    ensures s[..len][..k] == s[0..k] && s[..len][k..] == s[k..len]
  {
  }

  lemma OneIndexed(t: CodeTables, s: bytes, pos: nat, end: nat)
    requires t.WellFormed() && pos <= |s|
    ensures IndexerSpan(t, s[pos..]).Ok? && pos + IndexerSpan(t, s[pos..]).value == end <==> pos <= end <= |s| && IndexedRun(t, s[pos..end], 1)
  {
    hide IndexerSpan, IndexedRun;
    IndexersExact(t, s, pos, 1, end);
    OneStep(t, s, pos);
  }

  lemma OneStep(t: CodeTables, s: bytes, pos: nat)
    requires t.WellFormed() && pos <= |s|
    ensures IndexersFrom(t, s, pos, 1) ==
      if IndexerSpan(t, s[pos..]).Ok? then Ok(pos + IndexerSpan(t, s[pos..]).value) else Err(IndexerSpan(t, s[pos..]).error)
  {
    hide IndexerSpan;
    if IndexerSpan(t, s[pos..]).Ok? {
      assert IndexersFrom(t, s, pos + IndexerSpan(t, s[pos..]).value, 0) == Ok(pos + IndexerSpan(t, s[pos..]).value);
    }
  }

  // ── Counters ───────────────────────────────────────────────────────────

  /** A counter of four or eight characters. */
  function CounterText(letter: char, big: bool, count: nat): bytes
    requires letter < 128 as char
  {
    if big then ['-' as int, '-' as int, letter as int] + SoftField(count, 5)
    else ['-' as int, letter as int] + SoftField(count, 2)
  }

  lemma NestedCounterExact(t: CodeTables, version: CesrVersion, s: bytes, count: nat)
    requires count <= USIZE_MAX
    ensures NestedCounter(version, s, USIZE_MAX, USIZE_MAX) == Ok(Counter(NestedCode(version), count)) <==>
      |s| >= 4 && count < 4096 && s[..4] == CounterText(if version == V1 then 'A' else 'K', false, count)
    ensures NestedCounter(version, s, USIZE_MAX, USIZE_MAX).Ok? ==>
      NestedCounter(version, s, USIZE_MAX, USIZE_MAX).value.code == NestedCode(version) && NestedCounter(version, s, USIZE_MAX, USIZE_MAX).value.count <= USIZE_MAX
  {
    hide ReadCounter, SoftField;
    var c := Counter(NestedCode(version), count);
    assert Print(c) == CounterText(if version == V1 then 'A' else 'K', false, count);
    assert Pow64(2) == 4096;
    if ReadCounter(version, s) == Ok(c) {
      PrintRead(version, s);
    }
    if |s| >= 4 && count < 4096 && s[..4] == Print(c) {
      ReadPrinted(version, c, s[4..]);
      assert s == Print(c) + s[4..];
    }
  }

  lemma ListWire(t: CodeTables, head: GroupHead, s: bytes, len: nat, own: nat)
    requires t.WellFormed() && Inside(head, FreshElement(head)) && head.layout.tail == NestedSigs && |s| <= USIZE_MAX
    ensures NestedFrom(t, head.version, s, FreshElement(head), USIZE_MAX, USIZE_MAX) == Ok(Extent(len, own)) <==>
      len <= |s| && MattersThenList(t, s[..len], head.layout.matters, if head.version == V1 then 'A' else 'K', own)
  {
    hide MattersFrom, IndexersFrom, NestedCounter, MatterRun, IndexedRun, SoftField;
    var letter := if head.version == V1 then 'A' else 'K';
    var n := head.layout.matters;
    var pos := MattersFrom(t, s, 0, n);
    if NestedFrom(t, head.version, s, FreshElement(head), USIZE_MAX, USIZE_MAX) == Ok(Extent(len, own)) {
      MattersExact(t, s, 0, n, pos.value);
      NestedCounterExact(t, head.version, s[pos.value..], own);
      IndexersExact(t, s, pos.value + 4, own, len);
      SplitAtEnd(s, pos.value, len);
      assert s[pos.value..len][..4] == s[pos.value..][..4] && s[pos.value..len][4..] == s[pos.value + 4..len];
    }
    if len <= |s| {
      forall k: nat | k <= len && MatterRun(t, s[..len][..k], n) && ListOf(t, s[..len][k..], letter, own)
        ensures NestedFrom(t, head.version, s, FreshElement(head), USIZE_MAX, USIZE_MAX) == Ok(Extent(len, own))
      {
        SplitAtEnd(s, k, len);
        MattersExact(t, s, 0, n, k);
        assert s[k..len][..4] == s[k..][..4] && s[k..len][4..] == s[k + 4..len];
        NestedCounterExact(t, head.version, s[k..], own);
        IndexersExact(t, s, k + 4, own, len);
      }
    }
  }

  /** An element is stepped over exactly if it stands there. */
  lemma ElementWire(t: CodeTables, head: GroupHead, s: bytes, len: nat, own: nat)
    requires t.WellFormed() && Inside(head, FreshElement(head)) && |s| <= USIZE_MAX
    ensures ElementFrom(t, head, s, FreshElement(head), USIZE_MAX, USIZE_MAX) == Ok(Extent(len, own)) <==>
      len <= |s| && FitsLayout(t, head.version, head.layout, s[..len], own)
  {
    hide NestedFrom, FlatSpan, MattersThenIndexed, MattersThenList, MatterRun;
    if head.layout.tail == NestedSigs {
      ListWire(t, head, s, len, own);
    } else {
      FlatWire(t, head.layout, s, len);
    }
  }

  // ── A run of elements ──────────────────────────────────────────────────

  function Sum(ns: seq<nat>): nat {
    if ns == [] then 0 else ns[0] + Sum(ns[1..])
  }

  function Largest(ns: seq<nat>): nat {
    if ns == [] then 0 else Max(ns[0], Largest(ns[1..]))
  }

  ghost predicate Laid(t: CodeTables, head: GroupHead, parts: seq<bytes>, own: seq<nat>)
    requires t.WellFormed()
  {
    |own| == |parts| && forall i | 0 <= i < |parts| :: FitsLayout(t, head.version, head.layout, parts[i], own[i])
  }

  /** The largest nested list, which only some elements have. */
  function PeakOf(head: GroupHead, own: seq<nat>): nat {
    if head.layout.Elements? && head.layout.tail == NestedSigs then Largest(own) else 0
  }

  /** The unlimited window is everything that is left. */
  lemma FreeWindow(s: bytes, end: nat)
    requires end <= |s| <= USIZE_MAX
    ensures Window(s, end, USIZE_MAX) == s[end..]
  {
  }

  /** The next element, under whatever signatures are left of an unlimited budget. */
  lemma NextWire(t: CodeTables, g: GroupPos, s: bytes, len: nat, own: nat)
    requires Fresh(t, g, s, FREE) && g.remaining > 0 && |s| <= USIZE_MAX
    ensures ElementFrom(t, g.head, Window(s, g.end, USIZE_MAX), g.part, USIZE_MAX, USIZE_MAX - g.sigs) == Ok(Extent(len, own)) <==>
      g.end + len <= |s| && FitsLayout(t, g.head.version, g.head.layout, s[g.end..][..len], own) && g.sigs + own <= USIZE_MAX
  {
    hide ElementFrom, FitsLayout, Window;
    FreeWindow(s, g.end);
    var w := s[g.end..];
    ElementWire(t, g.head, w, len, own);
    ElementExact(t, g.head, w, w, USIZE_MAX, USIZE_MAX, USIZE_MAX - g.sigs, USIZE_MAX);
  }

  lemma {:induction false} ElementsSplit(t: CodeTables, g: GroupPos, s: bytes) returns (parts: seq<bytes>, own: seq<nat>)
    requires Fresh(t, g, s, FREE) && |s| <= USIZE_MAX && ElementsFrom(t, g, s, FREE).Ok?
    ensures var extent := ElementsFrom(t, g, s, FREE).value;
            && |parts| == g.remaining && Laid(t, g.head, parts, own)
            && Flatten(parts) == s[g.end..extent.len]
            && extent.sigs == g.sigs + Sum(own) && PeakFrom(t, g, s) == PeakOf(g.head, own)
    decreases g.remaining
  {
    hide ElementFrom, ElementsFrom, PeakFrom, Window, FitsLayout;
    if g.remaining == 0 {
      NoneLeft(t, g, s);
      return [], [];
    }
    UnfoldElements(t, g, s, FREE);
    UnfoldPeak(t, g, s);
    var element := ElementFrom(t, g.head, Window(s, g.end, USIZE_MAX), g.part, USIZE_MAX, USIZE_MAX - g.sigs).value;
    NextWire(t, g, s, element.len, element.sigs);
    var next := NextElement(g, element);
    var parts', own' := ElementsSplit(t, next, s);
    var first := s[g.end..][..element.len];
    parts, own := [first] + parts', [element.sigs] + own';
    assert parts[1..] == parts' && own[1..] == own';
    var len := ElementsFrom(t, g, s, FREE).value.len;
    assert s[g.end..len] == first + s[next.end..len];
    ListedOwn(g.head, element, own');
  }

  lemma NoneLeft(t: CodeTables, g: GroupPos, s: bytes)
    requires Fresh(t, g, s, FREE) && g.remaining == 0
    ensures ElementsFrom(t, g, s, FREE) == if |s| < g.end then Err(NeedBytes(g.end - |s|)) else Ok(Extent(g.end, g.sigs))
    ensures PeakFrom(t, g, s) == 0
  {
  }

  lemma ListedOwn(head: GroupHead, element: Extent, own: seq<nat>)
    ensures PeakOf(head, [element.sigs] + own) == Max(DeclaredList(head, element), PeakOf(head, own))
  {
    assert ([element.sigs] + own)[1..] == own;
  }

  lemma {:induction false} ElementsJoin(t: CodeTables, g: GroupPos, s: bytes, parts: seq<bytes>, own: seq<nat>)
    requires Fresh(t, g, s, FREE) && |s| <= USIZE_MAX && |parts| == g.remaining && Laid(t, g.head, parts, own)
    requires g.end <= |s| && Flatten(parts) <= s[g.end..] && g.sigs + Sum(own) <= USIZE_MAX
    ensures ElementsFrom(t, g, s, FREE) == Ok(Extent(g.end + |Flatten(parts)|, g.sigs + Sum(own)))
    ensures PeakFrom(t, g, s) == PeakOf(g.head, own)
    decreases g.remaining
  {
    hide ElementFrom, ElementsFrom, PeakFrom, Window, FitsLayout;
    if g.remaining == 0 {
      NoneLeft(t, g, s);
    } else {
      var first, rest := parts[0], parts[1..];
      var tail := s[g.end..];
      assert tail[..|Flatten(parts)|] == first + Flatten(rest);
      assert tail[..|first|] == first;
      NextWire(t, g, s, |first|, own[0]);
      UnfoldElements(t, g, s, FREE);
      UnfoldPeak(t, g, s);
      var next := NextElement(g, Extent(|first|, own[0]));
      assert s[next.end..] == tail[|first|..];
      ElementsJoin(t, next, s, rest, own[1..]);
      ListedOwn(g.head, Extent(|first|, own[0]), own[1..]);
      assert [own[0]] + own[1..] == own;
    }
  }

  /** Every signature of an element is one of its bytes. */
  lemma {:induction false} OwnWithin(t: CodeTables, head: GroupHead, parts: seq<bytes>, own: seq<nat>)
    requires t.WellFormed() && Inside(head, FreshElement(head)) && Laid(t, head, parts, own) && |Flatten(parts)| <= USIZE_MAX
    ensures Sum(own) <= |Flatten(parts)|
    decreases |parts|
  {
    hide ElementFrom, FitsLayout;
    if parts != [] {
      assert parts[0][..|parts[0]|] == parts[0];
      ElementWire(t, head, parts[0], |parts[0]|, own[0]);
      OwnWithin(t, head, parts[1..], own[1..]);
    }
  }

  // ── Heads ──────────────────────────────────────────────────────────────

  /** The letters of the small or big counters of a version. */
  function Letters(version: CesrVersion, big: bool): string {
    if version == V2 then "ABCDEFGHIJKLMNOPQRSTUVWXYZabc"
    else if big then "LTUVWZ"
    else "ABCDEFGHILTUVWZ"
  }

  /** The letters of the groups whose counter counts quadlets and not elements. */
  function Opaque(version: CesrVersion): string {
    if version == V1 then "LTUVWZ" else "ABCDEFGHIJPZ"
  }

  /** Those of them that enclose further groups. */
  function Enclosing(version: CesrVersion): string {
    if version == V1 then "TUV" else "ABC"
  }

  /** The letters of the groups whose elements end in a list. */
  function Listed(version: CesrVersion): string {
    if version == V1 then "FH" else "XY"
  }

  lemma LettersExact(version: CesrVersion, letter: char)
    requires letter < 128 as char
    ensures letter in Letters(version, false) <==> InTable(version, Small(letter as int))
    ensures letter in Letters(version, true) <==> InTable(version, Big(letter as int))
    ensures letter in Letters(version, false) ==> LayoutSays(version, letter)
    ensures letter in Letters(version, true) ==> letter in Letters(version, false)
  {
    hide LayoutOf, LayoutSays;
    if letter in Letters(version, false) {
      if version == V1 {
        LayoutsV1(letter);
      } else {
        LayoutsV2(letter);
      }
    }
  }

  /** The layout behind a letter counts quadlets, encloses, is an envelope or ends in lists as the
      letter says. */
  predicate LayoutSays(version: CesrVersion, letter: char)
    requires letter < 128 as char
  {
    var layout := LayoutOf(version, letter as int);
    && (layout.Quadlets? <==> letter in Opaque(version))
    && (layout.Quadlets? && layout.enclosing <==> letter in Enclosing(version))
    && (layout.Quadlets? && layout.envelope <==> version == V1 && letter == 'V')
    && (layout.Elements? && layout.tail == NestedSigs <==> letter in Listed(version))
    && (letter in Listed(version) ==> layout.sigsEach == 0)
  }

  lemma LayoutsV1(letter: char)
    requires letter < 128 as char && letter in Letters(V1, false)
    ensures LayoutSays(V1, letter)
  {
  }

  lemma LayoutsV2(letter: char)
    requires letter < 128 as char && letter in Letters(V2, false)
    ensures LayoutSays(V2, letter)
  {
    hide LayoutSays;
    if letter in "ABCDEFGHIJPZ" {
      QuadletsV2(letter);
    } else {
      ListsV2(letter);
    }
  }

  lemma QuadletsV2(letter: char)
    requires letter in "ABCDEFGHIJPZ"
    ensures LayoutSays(V2, letter)
  {
  }

  lemma ListsV2(letter: char)
    requires letter in "KLMNOQRSTUVWXYabc"
    ensures LayoutSays(V2, letter)
  {
  }

  /** A counter of the table stands at the head of `s`. */
  predicate CounterAt(version: CesrVersion, s: bytes, letter: char, big: bool, count: nat) {
    && letter < 128 as char
    && letter in Letters(version, big)
    && count < (if big then 0x4000_0000 else 4096)
    && CounterText(letter, big, count) <= s
  }

  function HeadFor(version: CesrVersion, letter: char, big: bool, count: nat): GroupHead
    requires letter < 128 as char
  {
    GroupHead(version, LayoutOf(version, letter as int), count, if big then 8 else 4)
  }

  function CodeOf(letter: char, big: bool): CounterCode
    requires letter < 128 as char
  {
    if big then Big(letter as int) else Small(letter as int)
  }

  lemma TextIsPrint(letter: char, big: bool, count: nat)
    requires letter < 128 as char
    ensures CounterText(letter, big, count) == Print(Counter(CodeOf(letter, big), count))
    ensures Capacity(CodeOf(letter, big)) == (if big then 0x4000_0000 else 4096) - 1
  {
    hide SoftField;
    assert Pow64(5) == 0x4000_0000 && Pow64(2) == 4096;
  }

  lemma CounterIsHead(version: CesrVersion, s: bytes, letter: char, big: bool, count: nat)
    requires CounterAt(version, s, letter, big, count)
    ensures ReadHead(version, s) == Ok(HeadFor(version, letter, big, count))
  {
    hide ReadCounter, SoftField, Letters;
    LettersExact(version, letter);
    TextIsPrint(letter, big, count);
    var c := Counter(CodeOf(letter, big), count);
    assert s == Print(c) + s[|Print(c)|..];
    ReadPrinted(version, c, s[|Print(c)|..]);
  }

  lemma HeadIsCounter(version: CesrVersion, s: bytes) returns (letter: char, big: bool)
    requires ReadHead(version, s).Ok?
    ensures CounterAt(version, s, letter, big, ReadHead(version, s).value.count)
  {
    hide ReadCounter, SoftField, Letters;
    var c := ReadCounter(version, s).value;
    PrintRead(version, s);
    big := c.code.Big?;
    LetterIsAscii(version, c.code);
    letter := c.code.letter as char;
    LettersExact(version, letter);
    TextIsPrint(letter, big, c.count);
    assert s[..c.code.FullSize()] <= s;
  }

  lemma LetterIsAscii(version: CesrVersion, code: CounterCode)
    requires InTable(version, code) && !code.Genus?
    ensures code.letter < 128
  {
  }

  // ── Whole groups ───────────────────────────────────────────────────────

  /** What a counter of this letter and count is followed by. */
  ghost predicate Contents(t: CodeTables, version: CesrVersion, letter: char, count: nat, body: bytes, sigs: nat, peak: nat)
    requires t.WellFormed()
  {
    if letter in Opaque(version) then |body| == 4 * count && sigs == 0 && peak == 0
    else exists parts: seq<bytes>, each: seq<nat> :: ElementsAre(t, version, letter, count, body, sigs, peak, parts, each)
  }

  /** The elements `parts`, `count` of them, with the signatures of each. */
  ghost predicate ElementsAre(t: CodeTables, version: CesrVersion, letter: char, count: nat, body: bytes, sigs: nat, peak: nat, parts: seq<bytes>, each: seq<nat>)
    requires t.WellFormed()
  {
    && |parts| == |each| == count
    && Flatten(parts) == body
    && (forall i | 0 <= i < count :: IsElement(t, version, letter, parts[i], each[i]))
    && sigs == Sum(each)
    && peak == Max(count, if letter in Listed(version) then Largest(each) else 0)
  }

  /** A whole group stands at the head of `s`: its counter and its contents. */
  ghost predicate GroupAt(t: CodeTables, version: CesrVersion, s: bytes, letter: char, big: bool, count: nat, framed: Framed)
    requires t.WellFormed()
  {
    && CounterAt(version, s, letter, big, count)
    && (if big then 8 else 4) <= framed.len <= |s|
    && Contents(t, version, letter, count, s[if big then 8 else 4..framed.len], framed.sigs, framed.peak)
  }

  /** Nested signatures and those that every element has. */
  function Each(own: seq<nat>, sigsEach: nat): (each: seq<nat>)
    ensures |each| == |own| && forall i | 0 <= i < |own| :: each[i] == own[i] + sigsEach
  {
    seq(|own|, i requires 0 <= i < |own| => own[i] + sigsEach)
  }

  lemma {:induction false} SumEach(own: seq<nat>, each: seq<nat>, sigsEach: nat)
    requires |each| == |own| && forall i | 0 <= i < |own| :: each[i] == own[i] + sigsEach
    ensures Sum(each) == Sum(own) + |own| * sigsEach
    ensures sigsEach == 0 ==> Largest(each) == Largest(own)
  {
    if own != [] {
      SumEach(own[1..], each[1..], sigsEach);
      assert |own| * sigsEach == sigsEach + |own[1..]| * sigsEach;
    }
  }

  lemma QuadletsExact(t: CodeTables, head: GroupHead, s: bytes, framed: Framed)
    requires t.WellFormed() && head.layout.Quadlets? && 4 <= head.start <= |s| <= ISIZE_MAX && head.start <= 8 && head.count < 0x4000_0000
    ensures FreeGroup(t, head, s) == Some(framed) <==> framed == Framed(head.start + 4 * head.count, 0, 0) && framed.len <= |s|
  {
  }

  lemma ElementsFound(t: CodeTables, version: CesrVersion, letter: char, big: bool, count: nat, s: bytes, framed: Framed)
    requires t.WellFormed() && |s| <= ISIZE_MAX && CounterAt(version, s, letter, big, count) && letter !in Opaque(version)
    requires HeadFor(version, letter, big, count).start <= |s|
    requires FreeGroup(t, HeadFor(version, letter, big, count), s) == Some(framed)
    ensures Contents(t, version, letter, count, s[if big then 8 else 4..framed.len], framed.sigs, framed.peak)
  {
    hide ElementFrom, ElementsFrom, PeakFrom, FitsLayout, IsElement, Letters, SoftField;
    LettersExact(version, letter);
    var head := HeadFor(version, letter, big, count);
    var g := StartOf(head);
    var parts, own := ElementsSplit(t, g, s);
    var each := Each(own, head.layout.sigsEach);
    SumEach(own, each, head.layout.sigsEach);
    forall i | 0 <= i < count
      ensures IsElement(t, version, letter, parts[i], each[i])
    {
      LetterExact(t, version, letter, parts[i], each[i]);
    }
    assert ElementsAre(t, version, letter, count, s[if big then 8 else 4..framed.len], framed.sigs, framed.peak, parts, each);
  }

  lemma ElementsFramed(t: CodeTables, version: CesrVersion, letter: char, big: bool, count: nat, s: bytes, framed: Framed, parts: seq<bytes>, each: seq<nat>)
    requires t.WellFormed() && |s| <= ISIZE_MAX && CounterAt(version, s, letter, big, count) && letter !in Opaque(version)
    requires (if big then 8 else 4) <= framed.len <= |s|
    requires ElementsAre(t, version, letter, count, s[if big then 8 else 4..framed.len], framed.sigs, framed.peak, parts, each)
    ensures FreeGroup(t, HeadFor(version, letter, big, count), s) == Some(framed)
  {
    hide ElementFrom, ElementsFrom, PeakFrom, FitsLayout, IsElement, Letters, SoftField;
    LettersExact(version, letter);
    var head := HeadFor(version, letter, big, count);
    var g := StartOf(head);
    var sigsEach := head.layout.sigsEach;
    forall i | 0 <= i < count
      ensures each[i] >= sigsEach && FitsLayout(t, version, head.layout, parts[i], each[i] - sigsEach)
    {
      LetterExact(t, version, letter, parts[i], each[i]);
    }
    var own := seq(count, i requires 0 <= i < count => each[i] - sigsEach);
    SumEach(own, each, sigsEach);
    OwnWithin(t, head, parts, own);
    assert s[g.end..][..framed.len - g.end] == s[g.end..framed.len];
    ElementsJoin(t, g, s, parts, own);
  }

  /** Main result: a group is framed, without limits, exactly if a counter of the table and what its
      letter and count announce stand at the head of the input. */
  lemma GroupOnWire(t: CodeTables, version: CesrVersion, s: bytes, head: GroupHead, framed: Framed)
    requires t.WellFormed() && |s| <= ISIZE_MAX
    ensures FreeHead(t, s, version) == Some((head, framed)) <==>
      exists letter: char, big: bool ::
        GroupAt(t, version, s, letter, big, head.count, framed) && head == HeadFor(version, letter, big, head.count)
  {
    hide ReadHead, FreeGroup, ElementsAre, SoftField, Letters;
    if FreeHead(t, s, version) == Some((head, framed)) {
      var letter, big := HeadIsCounter(version, s);
      CounterIsHead(version, s, letter, big, head.count);
      LettersExact(version, letter);
      if letter in Opaque(version) {
        QuadletsExact(t, head, s, framed);
      } else {
        ElementsFound(t, version, letter, big, head.count, s, framed);
      }
      assert GroupAt(t, version, s, letter, big, head.count, framed);
    }
    forall letter: char, big: bool | GroupAt(t, version, s, letter, big, head.count, framed) && head == HeadFor(version, letter, big, head.count)
      ensures FreeHead(t, s, version) == Some((head, framed))
    {
      CounterIsHead(version, s, letter, big, head.count);
      LettersExact(version, letter);
      if letter in Opaque(version) {
        QuadletsExact(t, head, s, framed);
      } else {
        var parts: seq<bytes>, each: seq<nat> :|
          ElementsAre(t, version, letter, head.count, s[if big then 8 else 4..framed.len], framed.sigs, framed.peak, parts, each);
        ElementsFramed(t, version, letter, big, head.count, s, framed, parts, each);
      }
    }
  }
}
