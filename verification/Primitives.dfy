/** Sizing of text-domain primitives, and the checked cursor over a text-domain stream. */
module Primitives {
  import opened Prelude
  import opened CounterCodes

  // ── Code tables ────────────────────────────────────────────────────────

  datatype FullSize = Fixed(chars: nat) | Variable

  /** One Matter code: soft width, prepad inside the soft field, full size, and whether the code
      names a signature. */
  datatype Sizage = Sizage(ss: nat, xs: nat, fs: FullSize, signature: bool)

  /** One indexed-signature code: soft width, ondex width and full size. */
  datatype Xizage = Xizage(ss: nat, os: nat, fs: FullSize)

  /** The Matter and Indexer code tables, keyed by hard code. The framing laws hold for every
      well-formed pair of tables. */
  datatype CodeTables = CodeTables(matter: map<bytes, Sizage>, indexer: map<bytes, Xizage>) {
    /** What every entry of the shipped tables satisfies: a code is not empty, a fixed size
        covers the code and its soft field, and a length field has at most four digits. */
    ghost predicate WellFormed() {
      && (forall code <- matter.Keys :: SaneSize(code, matter[code].ss, matter[code].xs, matter[code].fs))
      && (forall code <- indexer.Keys :: SaneSize(code, indexer[code].ss, indexer[code].os, indexer[code].fs))
    }
  }

  predicate SaneSize(code: bytes, ss: nat, unused: nat, fs: FullSize) {
    && code != []
    && unused <= ss
    && |code| + ss < 256
    && match fs
       case Fixed(chars) => |code| + ss <= chars < 0x1_0000
       case Variable => ss - unused <= 4
  }

  predicate IsLetter(b: byte) {
    65 <= b <= 90 || 97 <= b <= 122
  }

  /** Hard size announced by a Matter code's first byte. */
  function MatterHardSize(first: byte): Option<nat> {
    if IsLetter(first) then Some(1)
    else if first == 48 || 52 <= first <= 54 then Some(2)
    else if 49 <= first <= 51 || 55 <= first <= 57 then Some(4)
    else None
  }

  /** Hard size announced by an indexed code's first byte. */
  function IndexerHardSize(first: byte): Option<nat> {
    if IsLetter(first) then Some(1)
    else if 48 <= first <= 52 then Some(2)
    else None
  }

  // ── Sizing ─────────────────────────────────────────────────────────────

  /** `MatterCode::from_base64_stream`. */
  function MatterCode(t: CodeTables, s: bytes): (r: Result<bytes>)
    ensures r.Ok? ==> r.value in t.matter && r.value <= s
  {
    if s == [] then Err(NeedBytes(1)) else
      match MatterHardSize(s[0])
      case None => Err(MalformedMatter)
      case Some(hs) =>
        if |s| < hs then Err(NeedBytes(1))
        else if s[..hs] !in t.matter then Err(UnknownMatterCode)
        else Ok(s[..hs])
  }

  /** `MatterCode::frame_size`. */
  function MatterFrameSize(t: CodeTables, s: bytes): (r: Result<nat>)
    requires t.WellFormed()
    ensures r.Ok? ==> 0 < r.value < 0x1_0000_0000
  {
    assert Pow64(4) == 0x100_0000;
    var code :- MatterCode(t, s);
    var z := t.matter[code];
    match z.fs
    case Fixed(chars) => Ok(chars)
    case Variable =>
      var cs := |code| + z.ss;
      if |s| < cs then Err(NeedBytes(1)) else
        match DecodeInt(s[|code| + z.xs..cs])
        case Err(_) => Err(MalformedMatter)
        case Ok(size) =>
          Pow64Monotone(z.ss - z.xs, 4);
          Ok(size * 4 + cs)
  }

  /** `IndexedSigCode::frame_size`. */
  function IndexerFrameSize(t: CodeTables, s: bytes): (r: Result<nat>)
    requires t.WellFormed()
    ensures r.Ok? ==> 0 < r.value < 0x1_0000_0000
  {
    assert Pow64(4) == 0x100_0000;
    if s == [] then Err(NeedBytes(1)) else
      match IndexerHardSize(s[0])
      case None => Err(MalformedIndexer)
      case Some(hs) =>
        if |s| < hs then Err(NeedBytes(hs))
        else if s[..hs] !in t.indexer then Err(MalformedIndexer) else
          var z := t.indexer[s[..hs]];
          match z.fs
          case Fixed(chars) => Ok(chars)
          case Variable =>
            var cs := hs + z.ss;
            if |s| < cs then Err(NeedBytes(cs)) else
              match DecodeInt(s[hs..cs - z.os])
              case Err(_) => Err(MalformedIndexer)
              case Ok(index) =>
                Pow64Monotone(z.ss - z.os, 4);
                Ok(index * 4 + cs)
  }

  /** `TextStream::take`: the whole span must be there. */
  function Taken(s: bytes, size: nat): Result<nat> {
    if |s| < size then Err(NeedBytes(size - |s|)) else Ok(size)
  }

  function MatterSpan(t: CodeTables, s: bytes): (r: Result<nat>)
    requires t.WellFormed()
    ensures r.Ok? ==> 0 < r.value <= |s|
  {
    var size :- MatterFrameSize(t, s);
    Taken(s, size)
  }

  function IndexerSpan(t: CodeTables, s: bytes): (r: Result<nat>)
    requires t.WellFormed()
    ensures r.Ok? ==> 0 < r.value <= |s|
  {
    var size :- IndexerFrameSize(t, s);
    Taken(s, size)
  }

  /** The position after `left` more Matter primitives, counted from `pos`. */
  function MattersFrom(t: CodeTables, s: bytes, pos: nat, left: nat): (r: Result<nat>)
    requires t.WellFormed() && pos <= |s|
    ensures r.Ok? ==> pos <= r.value <= |s| && (left > 0 ==> pos < r.value)
    decreases left
  {
    if left == 0 then Ok(pos) else
      var size :- MatterSpan(t, s[pos..]);
      MattersFrom(t, s, pos + size, left - 1)
  }

  /** The position after `left` more indexed signatures, counted from `pos`. */
  function IndexersFrom(t: CodeTables, s: bytes, pos: nat, left: nat): (r: Result<nat>)
    requires t.WellFormed() && pos <= |s|
    ensures r.Ok? ==> pos + left <= r.value <= |s|
    decreases left
  {
    if left == 0 then Ok(pos) else
      var size :- IndexerSpan(t, s[pos..]);
      IndexersFrom(t, s, pos + size, left - 1)
  }

  /** `TextStream::skip_counter`: sized by the V1 table, or by the V2 table for a code V1 does
      not know. */
  function CounterSpan(s: bytes): (r: Result<nat>)
    ensures r.Ok? ==> r.value <= |s|
  {
    match CodeFromStream(V1, s)
    case Ok(code) => Taken(s, code.FullSize())
    case Err(UnknownCounterCode(_)) =>
      var code :- CodeFromStream(V2, s);
      Taken(s, code.FullSize())
    case Err(e) => Err(e)
  }

  // ── Answers survive the arrival of more bytes ──────────────────────────

  lemma MatterSpanStable(t: CodeTables, s: bytes, x: bytes)
    requires t.WellFormed() && s <= x && !MatterSpan(t, s).Starved()
    ensures MatterSpan(t, x) == MatterSpan(t, s)
  {
    hide DecodeInt;
    assert x[0] == s[0];
    if MatterHardSize(s[0]).Some? {
      var hs := MatterHardSize(s[0]).value;
      SliceOfPrefix(s, x, 0, hs);
      if s[..hs] in t.matter && t.matter[s[..hs]].fs.Variable? {
        var z := t.matter[s[..hs]];
        SliceOfPrefix(s, x, hs + z.xs, hs + z.ss);
      }
    }
  }

  lemma IndexerSpanStable(t: CodeTables, s: bytes, x: bytes)
    requires t.WellFormed() && s <= x && !IndexerSpan(t, s).Starved()
    ensures IndexerSpan(t, x) == IndexerSpan(t, s)
  {
    assert x[0] == s[0];
    if IndexerHardSize(s[0]).Some? {
      var hs := IndexerHardSize(s[0]).value;
      SliceOfPrefix(s, x, 0, hs);
      if s[..hs] in t.indexer && t.indexer[s[..hs]].fs.Variable? {
        var z := t.indexer[s[..hs]];
        SliceOfPrefix(s, x, hs, hs + z.ss - z.os);
      }
    }
  }

  lemma {:induction false} MattersStable(t: CodeTables, s: bytes, x: bytes, pos: nat, left: nat)
    requires t.WellFormed() && s <= x && pos <= |s| && !MattersFrom(t, s, pos, left).Starved()
    ensures MattersFrom(t, x, pos, left) == MattersFrom(t, s, pos, left)
    decreases left
  {
    hide MatterSpan;
    if left > 0 {
      var first := MatterSpan(t, s[pos..]);
      assert MatterSpan(t, x[pos..]) == first by {
        SliceOfPrefix(s, x, pos, pos);
        MatterSpanStable(t, s[pos..], x[pos..]);
      }
      if first.Ok? {
        MattersStable(t, s, x, pos + first.value, left - 1);
      }
    }
  }

  lemma {:induction false} IndexersStable(t: CodeTables, s: bytes, x: bytes, pos: nat, left: nat)
    requires t.WellFormed() && s <= x && pos <= |s| && !IndexersFrom(t, s, pos, left).Starved()
    ensures IndexersFrom(t, x, pos, left) == IndexersFrom(t, s, pos, left)
    decreases left
  {
    hide IndexerSpan;
    if left > 0 {
      var first := IndexerSpan(t, s[pos..]);
      assert IndexerSpan(t, x[pos..]) == first by {
        SliceOfPrefix(s, x, pos, pos);
        IndexerSpanStable(t, s[pos..], x[pos..]);
      }
      if first.Ok? {
        IndexersStable(t, s, x, pos + first.value, left - 1);
      }
    }
  }

  // ── Answers depend on nothing beyond what they consume ─────────────────

  lemma MatterSpanLocal(t: CodeTables, s: bytes, x: bytes)
    requires t.WellFormed() && s <= x && MatterSpan(t, x).Ok? && MatterSpan(t, x).value <= |s|
    ensures MatterSpan(t, s) == MatterSpan(t, x)
  {
    hide DecodeInt;
    assert x[0] == s[0];
    var code := MatterCode(t, x).value;
    var z := t.matter[code];
    SliceOfPrefix(s, x, 0, |code|);
    SliceOfPrefix(s, x, |code| + z.xs, |code| + z.ss);
  }

  lemma IndexerSpanLocal(t: CodeTables, s: bytes, x: bytes)
    requires t.WellFormed() && s <= x && IndexerSpan(t, x).Ok? && IndexerSpan(t, x).value <= |s|
    ensures IndexerSpan(t, s) == IndexerSpan(t, x)
  {
    hide DecodeInt;
    assert x[0] == s[0];
    var hs := IndexerHardSize(x[0]).value;
    var z := t.indexer[x[..hs]];
    SliceOfPrefix(s, x, 0, hs);
    SliceOfPrefix(s, x, hs, hs + z.ss - z.os);
  }

  lemma {:induction false} MattersLocal(t: CodeTables, s: bytes, x: bytes, pos: nat, left: nat)
    requires t.WellFormed() && s <= x && pos <= |s|
    requires MattersFrom(t, x, pos, left).Ok? && MattersFrom(t, x, pos, left).value <= |s|
    ensures MattersFrom(t, s, pos, left) == MattersFrom(t, x, pos, left)
    decreases left
  {
    hide MatterSpan;
    if left > 0 {
      var first := MatterSpan(t, x[pos..]);
      assert MatterSpan(t, s[pos..]) == first by {
        SliceOfPrefix(s, x, pos, pos);
        MatterSpanLocal(t, s[pos..], x[pos..]);
      }
      MattersLocal(t, s, x, pos + first.value, left - 1);
    }
  }

  lemma {:induction false} IndexersLocal(t: CodeTables, s: bytes, x: bytes, pos: nat, left: nat)
    requires t.WellFormed() && s <= x && pos <= |s|
    requires IndexersFrom(t, x, pos, left).Ok? && IndexersFrom(t, x, pos, left).value <= |s|
    ensures IndexersFrom(t, s, pos, left) == IndexersFrom(t, x, pos, left)
    decreases left
  {
    hide IndexerSpan;
    if left > 0 {
      var first := IndexerSpan(t, x[pos..]);
      assert IndexerSpan(t, s[pos..]) == first by {
        SliceOfPrefix(s, x, pos, pos);
        IndexerSpanLocal(t, s[pos..], x[pos..]);
      }
      IndexersLocal(t, s, x, pos + first.value, left - 1);
    }
  }

  // ── The checked cursor ─────────────────────────────────────────────────

  /** A position in one text-domain stream. Every advance goes through `Take`, so the cursor
      never leaves the input; a refused operation does not move it. */
  class TextStream {
    const input: bytes
    var pos: nat

    ghost predicate Valid()
      reads this
    {
      pos <= |input|
    }

    ghost function Remaining(): bytes
      requires Valid()
      reads this
    {
      input[pos..]
    }

    constructor (input: bytes)
      requires |input| <= ISIZE_MAX
      ensures Valid() && this.input == input && pos == 0
    {
      this.input := input;
      pos := 0;
    }

    method Take(n: nat) returns (r: Result<bytes>)
      requires Valid()
      modifies this
      ensures Valid()
      ensures if n <= |input| - old(pos)
              then r == Ok(input[old(pos)..old(pos) + n]) && pos == old(pos) + n
              else r == Err(NeedBytes(n - (|input| - old(pos)))) && pos == old(pos)
    {
      var rem := input[pos..];
      if |rem| < n {
        return Err(NeedBytes(n - |rem|));
      }
      pos := pos + n;
      assert input[old(pos)..old(pos) + n] == rem[..n];
      r := Ok(rem[..n]);
    }

    method ReadCounter(version: CesrVersion) returns (r: Result<Counter>)
      requires Valid()
      modifies this
      ensures Valid() && r == CounterCodes.ReadCounter(version, old(Remaining()))
      ensures pos == old(pos) + if r.Ok? then r.value.code.FullSize() else 0
    {
      r := CounterCodes.ReadCounter(version, input[pos..]);
      if r.Ok? {
        var _ := Take(r.value.code.FullSize());
      }
    }

    method SkipMatter(t: CodeTables) returns (r: Result<()>)
      requires Valid() && t.WellFormed()
      modifies this
      ensures Valid()
      ensures match MatterSpan(t, old(Remaining()))
        case Ok(size) => r.Ok? && pos == old(pos) + size
        case Err(e) => r == Err(e) && pos == old(pos)
    {
      var fs := MatterFrameSize(t, input[pos..]);
      if fs.Err? {
        return Err(fs.error);
      }
      var span := Take(fs.value);
      r := if span.Ok? then Ok(()) else Err(span.error);
    }

    /** `skip_matters`: on failure the cursor stands after the primitives that were complete. */
    method SkipMatters(t: CodeTables, arity: nat) returns (r: Result<()>)
      requires Valid() && t.WellFormed()
      modifies this
      ensures Valid()
      ensures match MattersFrom(t, input, old(pos), arity)
        case Ok(end) => r.Ok? && pos == end
        case Err(e) => r == Err(e)
    {
      hide MatterSpan;
      var i := 0;
      while i < arity
        invariant i <= arity && Valid()
        invariant MattersFrom(t, input, pos, arity - i) == MattersFrom(t, input, old(pos), arity)
      {
        var one := SkipMatter(t);
        if one.Err? {
          return one;
        }
        i := i + 1;
      }
      r := Ok(());
    }

    method SkipIndexer(t: CodeTables) returns (r: Result<()>)
      requires Valid() && t.WellFormed()
      modifies this
      ensures Valid()
      ensures match IndexerSpan(t, old(Remaining()))
        case Ok(size) => r.Ok? && pos == old(pos) + size
        case Err(e) => r == Err(e) && pos == old(pos)
    {
      var fs := IndexerFrameSize(t, input[pos..]);
      if fs.Err? {
        return Err(fs.error);
      }
      var span := Take(fs.value);
      r := if span.Ok? then Ok(()) else Err(span.error);
    }

    method SkipCounter() returns (r: Result<()>)
      requires Valid()
      modifies this
      ensures Valid()
      ensures match CounterSpan(old(Remaining()))
        case Ok(size) => r.Ok? && pos == old(pos) + size
        case Err(e) => r == Err(e) && pos == old(pos)
    {
      var rem := input[pos..];
      var code := CodeFromStream(V1, rem);
      if code.Err? && code.error.UnknownCounterCode? {
        code := CodeFromStream(V2, rem);
      }
      if code.Err? {
        return Err(code.error);
      }
      var span := Take(code.value.FullSize());
      r := if span.Ok? then Ok(()) else Err(span.error);
    }
  }
}
