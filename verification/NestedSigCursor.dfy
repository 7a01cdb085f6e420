/** The retained position inside one element that ends in a nested signature list. */
module NestedSigCursors {
  import opened Prelude
  import opened CounterCodes
  import opened Primitives
  import opened GroupGrammar

  // ── Completed pieces are never read again ──────────────────────────────

  lemma MatterStep(t: CodeTables, version: CesrVersion, s: bytes, x: bytes, p: Partial, size: nat, maxElements: nat, maxSignatures: nat)
    requires t.WellFormed() && s <= x && p.pos <= |s| && p.mattersLeft > 0
    requires MatterSpan(t, s[p.pos..]) == Ok(size)
    ensures NestedFrom(t, version, x, p, maxElements, maxSignatures)
         == NestedFrom(t, version, x, Partial(p.pos + size, p.mattersLeft - 1, p.run), maxElements, maxSignatures)
  {
    hide MatterSpan, IndexersFrom, NestedCounter;
    SliceOfPrefix(s, x, p.pos, p.pos);
    MatterSpanStable(t, s[p.pos..], x[p.pos..]);
    assert MattersFrom(t, x, p.pos, p.mattersLeft) == MattersFrom(t, x, p.pos + size, p.mattersLeft - 1);
  }

  lemma CounterStep(t: CodeTables, version: CesrVersion, s: bytes, x: bytes, p: Partial, c: Counter, maxElements: nat, maxSignatures: nat)
    requires t.WellFormed() && s <= x && p.pos <= |s| && p.mattersLeft == 0 && p.run.None?
    requires NestedCounter(version, s[p.pos..], maxElements, maxSignatures) == Ok(c)
    ensures NestedFrom(t, version, x, p, maxElements, maxSignatures)
         == NestedFrom(t, version, x, Partial(p.pos + c.code.FullSize(), 0, Some(SigRun(c.count, c.count))), maxElements, maxSignatures)
  {
    hide ReadCounter;
    SliceOfPrefix(s, x, p.pos, p.pos);
    ReadCounterStable(version, s[p.pos..], x[p.pos..]);
  }

  lemma SignatureStep(t: CodeTables, version: CesrVersion, s: bytes, x: bytes, p: Partial, size: nat, maxElements: nat, maxSignatures: nat)
    requires t.WellFormed() && s <= x && p.pos <= |s| && p.mattersLeft == 0 && p.run.Some? && p.run.value.left > 0
    requires IndexerSpan(t, s[p.pos..]) == Ok(size)
    ensures NestedFrom(t, version, x, p, maxElements, maxSignatures)
         == NestedFrom(t, version, x, Partial(p.pos + size, 0, Some(SigRun(p.run.value.left - 1, p.run.value.declared))), maxElements, maxSignatures)
  {
    hide IndexerSpan;
    SliceOfPrefix(s, x, p.pos, p.pos);
    IndexerSpanStable(t, s[p.pos..], x[p.pos..]);
  }

  /** Both positions lead every extension of `s` to the same result. */
  ghost predicate SameNested(t: CodeTables, version: CesrVersion, s: bytes, p: Partial, q: Partial, maxElements: nat, maxSignatures: nat)
    requires t.WellFormed() && p.pos <= |s| && q.pos <= |s|
  {
    forall x | s <= x ::
      NestedFrom(t, version, x, p, maxElements, maxSignatures) == NestedFrom(t, version, x, q, maxElements, maxSignatures)
  }

  /** The primitive, counter or signature at the position itself is the one that fails: everything
      complete lies behind it. */
  ghost predicate Stuck(t: CodeTables, version: CesrVersion, s: bytes, p: Partial, maxElements: nat, maxSignatures: nat, e: ParseError)
    requires t.WellFormed() && p.pos <= |s|
  {
    if p.mattersLeft > 0 then MatterSpan(t, s[p.pos..]) == Err(e)
    else if p.run.None? then NestedCounter(version, s[p.pos..], maxElements, maxSignatures) == Err(e)
    else p.run.value.left > 0 && IndexerSpan(t, s[p.pos..]) == Err(e)
  }

  // ── The cursor ─────────────────────────────────────────────────────────

  class NestedSigCursor {
    const initialMatters: nat
    var pos: nat
    var mattersLeft: nat
    var sigsLeft: Option<nat>
    var declaredSigs: Option<nat>

    ghost predicate Valid()
      reads this
    {
      && initialMatters > 0
      && (sigsLeft.Some? <==> declaredSigs.Some?)
      && (sigsLeft.Some? ==> mattersLeft == 0)
      && Part().Sound()
    }

    ghost function Part(): Partial
      reads this
    {
      Partial(pos, mattersLeft,
              if sigsLeft.Some? && declaredSigs.Some? then Some(SigRun(sigsLeft.value, declaredSigs.value)) else None)
    }

    constructor (matters: nat)
      requires matters > 0
      ensures Valid() && initialMatters == matters && Part() == Partial(0, matters, None)
    {
      initialMatters, pos, mattersLeft := matters, 0, matters;
      sigsLeft, declaredSigs := None, None;
    }

    method Reset()
      requires Valid()
      modifies this
      ensures Valid() && Part() == Partial(0, initialMatters, None)
    {
      pos, mattersLeft, sigsLeft, declaredSigs := 0, initialMatters, None, None;
    }

    /** The answer is that of a scan of the whole element; what is retained never changes any
        later answer, whether this call succeeded, starved or failed. After an error the retained
        position is that of the failing piece, so a later call retries that piece alone. */
    method AdvanceBounded(t: CodeTables, input: bytes, version: CesrVersion, maxElements: nat, maxSignatures: nat)
      returns (r: Result<nat>)
      requires Valid() && t.WellFormed() && pos <= |input| <= ISIZE_MAX
      modifies this
      ensures Valid() && old(pos) <= pos <= |input|
      ensures match NestedFrom(t, version, input, old(Part()), maxElements, maxSignatures)
        case Ok(extent) => r == Ok(extent.len) && declaredSigs == Some(extent.sigs)
        case Err(e) => r == Err(e)
      ensures SameNested(t, version, input, Part(), old(Part()), maxElements, maxSignatures)
      ensures r.Ok? ==> pos == r.value
      ensures r.Err? ==> Stuck(t, version, input, Part(), maxElements, maxSignatures, r.error)
      ensures if old(declaredSigs).Some? then declaredSigs == old(declaredSigs)
              else declaredSigs.Some? ==> declaredSigs.value <= maxSignatures
    {
      hide MatterSpan, IndexerSpan, ReadCounter;
      ghost var p0 := Part();
      r := SkipLeadingMatters(t, input, version, maxElements, maxSignatures);
      if r.Err? {
        return;
      }
      if sigsLeft.None? {
        r := ReadNestedCounter(t, input, version, maxElements, maxSignatures);
        if r.Err? {
          return;
        }
      }
      r := SkipSignatures(t, input, version, maxElements, maxSignatures);
    }

    /** The loop over the leading primitives. */
    method SkipLeadingMatters(t: CodeTables, input: bytes, version: CesrVersion, ghost maxElements: nat, ghost maxSignatures: nat)
      returns (r: Result<nat>)
      requires Valid() && t.WellFormed() && pos <= |input| <= ISIZE_MAX
      modifies this
      ensures Valid() && old(pos) <= pos <= |input|
      ensures sigsLeft == old(sigsLeft) && declaredSigs == old(declaredSigs)
      ensures r.Ok? ==> mattersLeft == 0
      ensures r.Err? ==> NestedFrom(t, version, input, old(Part()), maxElements, maxSignatures) == Err(r.error)
      ensures r.Err? ==> mattersLeft > 0 && Stuck(t, version, input, Part(), maxElements, maxSignatures, r.error)
      ensures SameNested(t, version, input, Part(), old(Part()), maxElements, maxSignatures)
    {
      hide MatterSpan, NestedFrom;
      while mattersLeft > 0
        invariant Valid() && old(pos) <= pos <= |input|
        invariant sigsLeft == old(sigsLeft) && declaredSigs == old(declaredSigs)
        invariant SameNested(t, version, input, Part(), old(Part()), maxElements, maxSignatures)
        decreases mattersLeft
      {
        var ts := new TextStream(input[pos..]);
        var one := ts.SkipMatter(t);
        if one.Err? {
          MatterFails(t, version, input, Part(), one.error, maxElements, maxSignatures);
          return Err(one.error);
        }
        ghost var p := Part();
        forall x | input <= x
          ensures NestedFrom(t, version, x, p, maxElements, maxSignatures)
               == NestedFrom(t, version, x, Partial(p.pos + ts.pos, p.mattersLeft - 1, p.run), maxElements, maxSignatures)
        {
          MatterStep(t, version, input, x, p, ts.pos, maxElements, maxSignatures);
        }
        if pos + ts.pos > USIZE_MAX {
          assert false;
        }
        pos, mattersLeft := pos + ts.pos, mattersLeft - 1;
      }
      r := Ok(pos);
    }

    /** The nested counter, under the caller's element and signature limits. */
    method ReadNestedCounter(t: CodeTables, input: bytes, version: CesrVersion, maxElements: nat, maxSignatures: nat)
      returns (r: Result<nat>)
      requires Valid() && t.WellFormed() && pos <= |input| <= ISIZE_MAX && mattersLeft == 0 && sigsLeft.None?
      modifies this
      ensures Valid() && old(pos) <= pos <= |input| && mattersLeft == 0
      ensures r.Ok? ==> declaredSigs.Some? && declaredSigs.value <= maxSignatures
      ensures r.Err? ==> declaredSigs.None? && NestedFrom(t, version, input, old(Part()), maxElements, maxSignatures) == Err(r.error)
      ensures r.Err? ==> Stuck(t, version, input, Part(), maxElements, maxSignatures, r.error)
      ensures SameNested(t, version, input, Part(), old(Part()), maxElements, maxSignatures)
    {
      hide ReadCounter, IndexersFrom;
      ghost var p := Part();
      var ts := new TextStream(input[pos..]);
      var read := ts.ReadCounter(version);
      if read.Err? {
        return Err(read.error);
      }
      var Counter(code, count) := read.value;
      if code != NestedCode(version) {
        return Err(NestedCounterMismatch(code.Hard()));
      }
      if count > maxElements {
        return Err(LimitExceeded(GroupElements, maxElements, count));
      }
      if count > maxSignatures {
        return Err(LimitExceeded(Signatures, maxSignatures, count));
      }
      forall x | input <= x
        ensures NestedFrom(t, version, x, p, maxElements, maxSignatures)
             == NestedFrom(t, version, x, Partial(p.pos + code.FullSize(), 0, Some(SigRun(count, count))), maxElements, maxSignatures)
      {
        CounterStep(t, version, input, x, p, read.value, maxElements, maxSignatures);
      }
      if pos + ts.pos > USIZE_MAX {
        assert false;
      }
      pos, sigsLeft, declaredSigs := pos + ts.pos, Some(count), Some(count);
      r := Ok(pos);
    }

    /** The loop over the declared signatures. */
    method SkipSignatures(t: CodeTables, input: bytes, version: CesrVersion, ghost maxElements: nat, ghost maxSignatures: nat)
      returns (r: Result<nat>)
      requires Valid() && t.WellFormed() && pos <= |input| <= ISIZE_MAX && mattersLeft == 0 && sigsLeft.Some?
      modifies this
      ensures Valid() && old(pos) <= pos <= |input| && declaredSigs == old(declaredSigs)
      ensures match NestedFrom(t, version, input, old(Part()), maxElements, maxSignatures)
        case Ok(extent) => r == Ok(extent.len) && declaredSigs == Some(extent.sigs)
        case Err(e) => r == Err(e)
      ensures r.Ok? ==> pos == r.value
      ensures r.Err? ==> Stuck(t, version, input, Part(), maxElements, maxSignatures, r.error)
      ensures SameNested(t, version, input, Part(), old(Part()), maxElements, maxSignatures)
    {
      hide IndexerSpan, NestedFrom;
      while sigsLeft.Some? && sigsLeft.value > 0
        invariant Valid() && old(pos) <= pos <= |input| && mattersLeft == 0
        invariant sigsLeft.Some? && declaredSigs == old(declaredSigs)
        invariant SameNested(t, version, input, Part(), old(Part()), maxElements, maxSignatures)
        decreases sigsLeft.value
      {
        ghost var p := Part();
        var ts := new TextStream(input[pos..]);
        var one := ts.SkipIndexer(t);
        if one.Err? {
          SignatureFails(t, version, input, p, one.error, maxElements, maxSignatures);
          return Err(one.error);
        }
        forall x | input <= x
          ensures NestedFrom(t, version, x, p, maxElements, maxSignatures)
               == NestedFrom(t, version, x, Partial(p.pos + ts.pos, 0, Some(SigRun(p.run.value.left - 1, p.run.value.declared))), maxElements, maxSignatures)
        {
          SignatureStep(t, version, input, x, p, ts.pos, maxElements, maxSignatures);
        }
        if pos + ts.pos > USIZE_MAX {
          assert false;
        }
        pos, sigsLeft := pos + ts.pos, Some(sigsLeft.value - 1);
      }
      NestedDone(t, version, input, Part(), maxElements, maxSignatures);
      r := Ok(pos);
    }
  }

  lemma MatterFails(t: CodeTables, version: CesrVersion, s: bytes, p: Partial, e: ParseError, maxElements: nat, maxSignatures: nat)
    requires t.WellFormed() && p.pos <= |s| && p.mattersLeft > 0 && MatterSpan(t, s[p.pos..]) == Err(e)
    ensures NestedFrom(t, version, s, p, maxElements, maxSignatures) == Err(e)
  {
    hide MatterSpan;
  }

  lemma SignatureFails(t: CodeTables, version: CesrVersion, s: bytes, p: Partial, e: ParseError, maxElements: nat, maxSignatures: nat)
    requires t.WellFormed() && p.pos <= |s| && p.mattersLeft == 0 && p.run.Some? && p.run.value.left > 0
    requires IndexerSpan(t, s[p.pos..]) == Err(e)
    ensures NestedFrom(t, version, s, p, maxElements, maxSignatures) == Err(e)
  {
    hide IndexerSpan;
  }

  lemma NestedDone(t: CodeTables, version: CesrVersion, s: bytes, p: Partial, maxElements: nat, maxSignatures: nat)
    requires t.WellFormed() && p.pos <= |s| && p.mattersLeft == 0 && p.run.Some? && p.run.value.left == 0
    ensures NestedFrom(t, version, s, p, maxElements, maxSignatures) == Ok(Extent(p.pos, p.run.value.declared))
  {
  }
}
