/** A drain does not depend on how the bytes of its stream arrived. */
module Streaming {
  import opened Prelude
  import opened Primitives
  import opened Enclosures
  import opened FrameGrammar
  import opened Framers
  import opened Chunking
  import opened Draining

  /** What an open buffer yields is what the whole of the stream yields next. */
  lemma OpenDrain(t: CodeTables, lim: FrameLimits, stream: bytes, chunks: seq<bytes>, s: bytes, ahead: bytes)
    requires t.WellFormed() && s != [] && Drains(t, lim, stream, chunks, s + ahead)
    ensures var r := Frame(t, lim, s, false);
            && (r.Ok? && r.value.Some? ==>
                  && 0 < r.value.value.totalLen <= |s|
                  && Drains(t, lim, stream, chunks + [s[..r.value.value.totalLen]], s[r.value.value.totalLen..] + ahead))
            && (r.Err? ==> Drainage(t, lim, stream, chunks, s + ahead, true))
  {
    hide Frame, Drain, Remains, Concat;
    var all := Drain(t, lim, stream);
    var r := Frame(t, lim, s, false);
    FrameFinal(t, lim, s, s + ahead, true);
    NextRemains(t, lim, s + ahead, all, |chunks|);
    if r.Ok? && r.value.Some? {
      var n := r.value.value.totalLen;
      assert (s + ahead)[n..] == s[n..] + ahead;
      ConcatNext(chunks, s[..n], s + ahead, s[n..] + ahead);
    }
  }

  /** Polling `decode` until it answers `None` or refuses; `ahead` has not arrived yet. */
  method Poll(codec: MessageCodec, buf: Buffer, before: seq<bytes>, ghost stream: bytes, ghost ahead: bytes)
    returns (chunks: seq<bytes>, refusal: Option<ParseError>)
    requires codec.Valid(buf) && |buf.data| <= ISIZE_MAX && codec.framer.t.WellFormed()
    requires Drains(codec.framer.t, codec.framer.limits, stream, before, buf.data + ahead)
    modifies buf, codec.framer.Repr
    ensures codec.Valid(buf) && fresh(codec.framer.Repr - old(codec.framer.Repr)) && |buf.data| <= old(|buf.data|)
    ensures refusal.None? ==>
      && Drains(codec.framer.t, codec.framer.limits, stream, chunks, buf.data + ahead)
      && Frame(codec.framer.t, codec.framer.limits, buf.data, false) == Ok(None)
    ensures refusal.Some? ==> Drainage(codec.framer.t, codec.framer.limits, stream, chunks, buf.data + ahead, true)
  {
    hide Frame, Drains, Drainage, MessageFramer.Valid;
    chunks, refusal := before, None;
    while true
      invariant codec.Valid(buf) && fresh(codec.framer.Repr - old(codec.framer.Repr)) && |buf.data| <= old(|buf.data|)
      invariant Drains(codec.framer.t, codec.framer.limits, stream, chunks, buf.data + ahead)
      decreases |buf.data|
    {
      ghost var left := buf.data;
      var next := codec.Decode(buf);
      if left != [] {
        OpenDrain(codec.framer.t, codec.framer.limits, stream, chunks, left, ahead);
      }
      match next {
        case Err(e) => return chunks, Some(e);
        case Ok(None) => return chunks, None;
        case Ok(Some(chunk)) => chunks := chunks + [chunk];
      }
    }
  }

  /** Main result: whatever the schedule of arrivals, polling after each one and finishing at the
      end of input cuts the stream into exactly the frames of the whole stream, and meets a refusal
      exactly where that drain has one. */
  method DrainInChunks(t: CodeTables, limits: FrameLimits, stream: bytes, cuts: seq<nat>)
    returns (chunks: seq<bytes>, rest: bytes, refusal: Option<ParseError>)
    requires t.WellFormed() && |stream| <= ISIZE_MAX && Schedule(cuts, |stream|)
    ensures Concat(chunks) + rest == stream
    ensures |chunks| == |Drain(t, limits, stream).spans|
    ensures forall i | 0 <= i < |chunks| :: |chunks[i]| == Drain(t, limits, stream).spans[i].totalLen
    ensures rest == Drain(t, limits, stream).rest && refusal.Some? == Drain(t, limits, stream).refusal.Some?
  {
    hide Frame, Drain, Drains, Concat, MessageFramer.Valid;
    DrainsWhole(t, limits, stream);
    var codec := new MessageCodec(t, limits);
    var buf := new Buffer([]);
    chunks, refusal := [], None;
    var arrived, i := 0, 0;
    assert [] + stream[0..] == stream;
    while i < |cuts|
      invariant i <= |cuts| && arrived == (if i == 0 then 0 else cuts[i - 1]) <= |stream|
      invariant codec.Valid(buf) && fresh(codec.framer.Repr) && |buf.data| <= arrived
      invariant codec.framer.t == t && codec.framer.limits == limits
      invariant Drains(t, limits, stream, chunks, buf.data + stream[arrived..])
    {
      ghost var left := buf.data;
      buf.Extend(stream[arrived..cuts[i]]);
      assert buf.data + stream[cuts[i]..] == left + stream[arrived..];
      chunks, refusal := Poll(codec, buf, chunks, stream, stream[cuts[i]..]);
      if refusal.Some? {
        return chunks, buf.data + stream[cuts[i]..], refusal;
      }
      arrived, i := cuts[i], i + 1;
    }
    ghost var left := buf.data;
    buf.Extend(stream[arrived..]);
    assert buf.data == left + stream[arrived..];
    chunks, refusal := Finish(codec, buf, chunks, stream);
    rest := buf.data;
  }
}
