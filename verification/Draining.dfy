/** Draining a buffer frame by frame. */
module Draining {
  import opened Prelude
  import opened Primitives
  import opened Enclosures
  import opened FrameGrammar
  import opened Framers

  // ── The spans of a whole stream ────────────────────────────────────────

  datatype Drained = Drained(spans: seq<FrameSpan>, rest: bytes, refusal: Option<ParseError>)

  /** Frame after frame until the stream ends or is refused. */
  function Drain(t: CodeTables, lim: FrameLimits, s: bytes): Drained
    requires t.WellFormed()
    decreases |s|
  {
    if s == [] then Drained([], [], None) else
      match Frame(t, lim, s, true)
      case Err(e) => Drained([], s, Some(e))
      case Ok(Some(span)) =>
        var later := Drain(t, lim, s[span.totalLen..]);
        Drained([span] + later.spans, later.rest, later.refusal)
  }

  function Length(spans: seq<FrameSpan>): nat {
    if spans == [] then 0 else spans[0].totalLen + Length(spans[1..])
  }

  predicate Proper(span: FrameSpan) {
    0 < span.totalLen && (span.bodyLen.Some? ==> 0 < span.bodyLen.value <= span.totalLen)
  }

  /** The spans tile exactly the consumed prefix, none is empty or shorter than its body, the rest
      is what follows them, and draining stops short of the end only at a refusal. */
  lemma {:induction false} DrainTiles(t: CodeTables, lim: FrameLimits, s: bytes)
    requires t.WellFormed()
    ensures var d := Drain(t, lim, s);
            && Length(d.spans) <= |s|
            && d.rest == s[Length(d.spans)..]
            && (forall i | 0 <= i < |d.spans| :: Proper(d.spans[i]))
            && (d.refusal.None? <==> d.rest == [])
    decreases |s|
  {
    hide Frame;
    if s != [] {
      var frame := Frame(t, lim, s, true);
      if frame.Ok? {
        var span := frame.value.value;
        DrainTiles(t, lim, s[span.totalLen..]);
        var later := Drain(t, lim, s[span.totalLen..]);
        assert ([span] + later.spans)[1..] == later.spans;
        assert s[span.totalLen..][Length(later.spans)..] == s[span.totalLen + Length(later.spans)..];
      }
    }
  }

  // ── The buffer adapter ─────────────────────────────────────────────────

  /** `MessageCodec`: the framer over a buffer from which every frame is split off. */
  class MessageCodec {
    const framer: MessageFramer

    ghost predicate Valid(buf: Buffer)
      reads this, framer, framer.Repr, buf
    {
      framer.Valid() && buf !in framer.Repr && this !in framer.Repr && framer.seen <= buf.data
    }

    constructor (t: CodeTables, limits: FrameLimits)
      requires t.WellFormed()
      ensures framer.Valid() && fresh(framer.Repr) && framer.seen == [] && framer.t == t && framer.limits == limits
      ensures this !in framer.Repr
    {
      var f := new MessageFramer(t, limits);
      framer := f;
    }

    /** `None` and errors leave the buffer as it is; `Some` removes exactly the framed bytes. */
    method Next(buf: Buffer, eof: bool) returns (r: Result<Option<bytes>>)
      requires Valid(buf) && |buf.data| <= ISIZE_MAX
      modifies buf, framer.Repr
      ensures Valid(buf) && fresh(framer.Repr - old(framer.Repr))
      ensures match Frame(framer.t, framer.limits, old(buf.data), eof)
        case Ok(Some(span)) => r == Ok(Some(old(buf.data)[..span.totalLen])) && buf.data == old(buf.data)[span.totalLen..] && framer.seen == []
        case Ok(None) => r == Ok(None) && buf.data == old(buf.data)
        case Err(e) => r == Err(e) && buf.data == old(buf.data)
    {
      hide Frame, MessageFramer.Begins, MessageFramer.HeadKept;
      var span := framer.Advance(buf.data, eof);
      match span {
        case Err(e) => r := Err(e);
        case Ok(None) => r := Ok(None);
        case Ok(Some(s)) =>
          r := Ok(Some(buf.data[..s.totalLen]));
          buf.data := buf.data[s.totalLen..];
      }
    }

    method Decode(buf: Buffer) returns (r: Result<Option<bytes>>)
      requires Valid(buf) && |buf.data| <= ISIZE_MAX
      modifies buf, framer.Repr
      ensures Valid(buf) && fresh(framer.Repr - old(framer.Repr))
      ensures match Frame(framer.t, framer.limits, old(buf.data), false)
        case Ok(Some(span)) => r == Ok(Some(old(buf.data)[..span.totalLen])) && buf.data == old(buf.data)[span.totalLen..]
        case Ok(None) => r == Ok(None) && buf.data == old(buf.data)
        case Err(e) => r == Err(e) && buf.data == old(buf.data)
    {
      hide Frame, MessageFramer.Begins, MessageFramer.HeadKept;
      r := Next(buf, false);
    }

    method DecodeEof(buf: Buffer) returns (r: Result<Option<bytes>>)
      requires Valid(buf) && |buf.data| <= ISIZE_MAX
      modifies buf, framer.Repr
      ensures Valid(buf) && fresh(framer.Repr - old(framer.Repr))
      ensures match Frame(framer.t, framer.limits, old(buf.data), true)
        case Ok(Some(span)) => r == Ok(Some(old(buf.data)[..span.totalLen])) && buf.data == old(buf.data)[span.totalLen..]
        case Ok(None) => r == Ok(None) && buf.data == old(buf.data)
        case Err(e) => r == Err(e) && buf.data == old(buf.data)
    {
      hide Frame, MessageFramer.Begins, MessageFramer.HeadKept;
      r := Next(buf, true);
    }
  }

  function Concat(chunks: seq<bytes>): bytes {
    if chunks == [] then [] else Concat(chunks[..|chunks| - 1]) + chunks[|chunks| - 1]
  }

  /** The later part of a drain. */
  predicate Remains(all: Drained, done: nat, later: Drained) {
    done <= |all.spans| && later == Drained(all.spans[done..], all.rest, all.refusal)
  }

  lemma NextRemains(t: CodeTables, lim: FrameLimits, s: bytes, all: Drained, done: nat)
    requires t.WellFormed() && s != [] && Remains(all, done, Drain(t, lim, s))
    ensures Frame(t, lim, s, true).Err? ==> done == |all.spans| && all.rest == s && all.refusal == Some(Frame(t, lim, s, true).error)
    ensures Frame(t, lim, s, true).Ok? ==>
      && Frame(t, lim, s, true).value.Some?
      && done < |all.spans| && all.spans[done] == Frame(t, lim, s, true).value.value
      && Remains(all, done + 1, Drain(t, lim, s[all.spans[done].totalLen..]))
  {
    hide Frame;
    var frame := Frame(t, lim, s, true);
    if frame.Ok? {
      var later := Drain(t, lim, s[frame.value.value.totalLen..]);
      assert ([frame.value.value] + later.spans)[1..] == later.spans;
      assert all.spans[done..][1..] == all.spans[done + 1..];
      assert all.spans[done..][0] == all.spans[done];
    }
  }

  /** One round of the read loop: the next chunk of the drain, or its refusal. */
  method Pull(codec: MessageCodec, buf: Buffer, ghost all: Drained, ghost done: nat) returns (r: Result<bytes>)
    requires codec.Valid(buf) && |buf.data| <= ISIZE_MAX && buf.data != [] && codec.framer.t.WellFormed()
    requires Remains(all, done, Drain(codec.framer.t, codec.framer.limits, buf.data))
    modifies buf, codec.framer.Repr
    ensures codec.Valid(buf) && fresh(codec.framer.Repr - old(codec.framer.Repr))
    ensures r.Err? ==> done == |all.spans| && all.rest == old(buf.data) == buf.data && all.refusal == Some(r.error)
    ensures r.Ok? ==> r.value != [] && old(buf.data) == r.value + buf.data
    ensures r.Ok? ==> done < |all.spans| && |r.value| == all.spans[done].totalLen
    ensures r.Ok? ==> Remains(all, done + 1, Drain(codec.framer.t, codec.framer.limits, buf.data))
  {
    hide Frame, Drain, Remains, MessageFramer.Valid;
    NextRemains(codec.framer.t, codec.framer.limits, buf.data, all, done);
    var next := codec.DecodeEof(buf);
    if next.Err? {
      return Err(next.error);
    }
    r := Ok(next.value.value);
  }

  /** How far a drain of `stream` has got: the chunks so far are its first frames, and `left` holds
      the others. */
  ghost predicate Drains(t: CodeTables, lim: FrameLimits, stream: bytes, chunks: seq<bytes>, left: bytes)
    requires t.WellFormed()
  {
    var all := Drain(t, lim, stream);
    && Concat(chunks) + left == stream
    && Remains(all, |chunks|, Drain(t, lim, left))
    && |chunks| <= |all.spans|
    && forall i | 0 <= i < |chunks| :: |chunks[i]| == all.spans[i].totalLen
  }

  /** The chunks of a whole drain, what it leaves over, and whether it was refused. */
  ghost predicate Drainage(t: CodeTables, lim: FrameLimits, stream: bytes, chunks: seq<bytes>, rest: bytes, refused: bool)
    requires t.WellFormed()
  {
    var all := Drain(t, lim, stream);
    && Concat(chunks) + rest == stream
    && |chunks| == |all.spans|
    && (forall i | 0 <= i < |chunks| :: |chunks[i]| == all.spans[i].totalLen)
    && rest == all.rest && refused == all.refusal.Some?
  }

  /** Decoding at the end of input until the buffer is empty or refused. */
  method Finish(codec: MessageCodec, buf: Buffer, before: seq<bytes>, ghost stream: bytes)
    returns (chunks: seq<bytes>, refusal: Option<ParseError>)
    requires codec.Valid(buf) && |buf.data| <= ISIZE_MAX && codec.framer.t.WellFormed()
    requires Drains(codec.framer.t, codec.framer.limits, stream, before, buf.data)
    modifies buf, codec.framer.Repr
    ensures Drainage(codec.framer.t, codec.framer.limits, stream, chunks, buf.data, refusal.Some?)
    ensures refusal == Drain(codec.framer.t, codec.framer.limits, stream).refusal
  {
    hide Frame, Drain, Remains, Concat, MessageFramer.Valid;
    chunks, refusal := before, None;
    ghost var all := Drain(codec.framer.t, codec.framer.limits, stream);
    while buf.data != []
      invariant codec.Valid(buf) && fresh(codec.framer.Repr - old(codec.framer.Repr)) && |buf.data| <= ISIZE_MAX
      invariant Drains(codec.framer.t, codec.framer.limits, stream, chunks, buf.data)
      decreases |buf.data|
    {
      ghost var left, framed := buf.data, chunks;
      var next := Pull(codec, buf, all, |chunks|);
      if next.Err? {
        return chunks, Some(next.error);
      }
      chunks := chunks + [next.value];
      ConcatNext(framed, next.value, left, buf.data);
    }
    DrainedDry(codec.framer.t, codec.framer.limits, buf.data);
    RemainsNothing(all, |chunks|);
  }

  lemma DrainsWhole(t: CodeTables, lim: FrameLimits, stream: bytes)
    requires t.WellFormed()
    ensures Drains(t, lim, stream, [], stream)
  {
    hide Drain;
  }

  /** The read loop at the end of a stream: it stops, and the chunks and what is left in the
      buffer are the stream, byte for byte. */
  method DrainAll(t: CodeTables, limits: FrameLimits, stream: bytes)
    returns (chunks: seq<bytes>, rest: bytes, refusal: Option<ParseError>)
    requires t.WellFormed() && |stream| <= ISIZE_MAX
    ensures Concat(chunks) + rest == stream
    ensures |chunks| == |Drain(t, limits, stream).spans|
    ensures forall i | 0 <= i < |chunks| :: |chunks[i]| == Drain(t, limits, stream).spans[i].totalLen
    ensures rest == Drain(t, limits, stream).rest && refusal == Drain(t, limits, stream).refusal
  {
    hide Drain, Drains, Concat, MessageFramer.Valid;
    DrainsWhole(t, limits, stream);
    var codec := new MessageCodec(t, limits);
    var buf := new Buffer(stream);
    chunks, refusal := Finish(codec, buf, [], stream);
    rest := buf.data;
  }

  lemma ConcatNext(framed: seq<bytes>, chunk: bytes, before: bytes, after: bytes)
    requires before == chunk + after
    ensures Concat(framed + [chunk]) + after == Concat(framed) + before
  {
    var chunks := framed + [chunk];
    assert chunks[..|chunks| - 1] == framed;
  }

  lemma RemainsNothing(all: Drained, done: nat)
    requires Remains(all, done, Drained([], [], None))
    ensures done == |all.spans| && all.rest == [] && all.refusal == None
  {
  }

  lemma DrainedDry(t: CodeTables, lim: FrameLimits, s: bytes)
    requires t.WellFormed() && s == []
    ensures Drain(t, lim, s) == Drained([], [], None)
  {
  }
}
