/** All the groups of a stream, however its bytes arrived. */
module GroupStreaming {
  import opened Prelude
  import opened Primitives
  import opened GroupGrammar
  import opened Enclosures
  import opened Chunking
  import opened GroupCodec

  // ── The groups of a whole stream ───────────────────────────────────────

  datatype DecodedAll = DecodedAll(groups: seq<CesrGroup>, rest: bytes, refusal: Option<ParseError>) {
    /** The same with `before` decoded first. */
    function Behind(before: seq<CesrGroup>): DecodedAll {
      DecodedAll(before + groups, rest, refusal)
    }
  }

  /** Group after group until the stream ends or is refused; what ends inside a group is truncated. */
  function DecodeAll(t: CodeTables, lim: FrameLimits, version: CesrVersion, s: bytes): DecodedAll
    requires t.WellFormed()
    decreases |s|
  {
    if s == [] then DecodedAll([], [], None) else
      match AttemptOn(t, lim, version, s)
      case Whole(head, extent) =>
        DecodeAll(t, lim, version, s[extent.len..]).Behind([CesrGroup(head, s[head.start..extent.len])])
      case Refused(e) => DecodedAll([], s, Some(e))
      case Pending(missing) => DecodedAll([], s, Some(Truncated(missing)))
  }

  /** The bytes a run of groups takes, counters included. */
  function Length(groups: seq<CesrGroup>): nat {
    if groups == [] then 0 else groups[0].head.start + |groups[0].raw| + Length(groups[1..])
  }

  /** Group `i` holds exactly the bytes behind its own counter, which stands where the groups before
      it end. */
  predicate Tiled(version: CesrVersion, s: bytes, groups: seq<CesrGroup>)
  {
    groups != [] ==>
      var g := groups[0];
      && ReadHead(version, s) == Ok(g.head)
      && g.head.start + |g.raw| <= |s|
      && g.raw == s[g.head.start..g.head.start + |g.raw|]
      && Tiled(version, s[g.head.start + |g.raw|..], groups[1..])
  }

  /** The groups tile exactly the consumed prefix, the rest is what follows them, and decoding stops
      short of the end only at a refusal. */
  lemma {:induction false} GroupsTile(t: CodeTables, lim: FrameLimits, version: CesrVersion, s: bytes)
    requires t.WellFormed()
    ensures var d := DecodeAll(t, lim, version, s);
            && Length(d.groups) <= |s|
            && d.rest == s[Length(d.groups)..]
            && Tiled(version, s, d.groups)
            && (d.refusal.None? <==> d.rest == [])
    decreases |s|
  {
    hide AttemptOn, ReadHead, Length, Tiled;
    NoTile(version, s);
    var a := AttemptOn(t, lim, version, s);
    if s != [] && a.Whole? {
      AttemptHead(t, lim, version, s);
      GroupsTile(t, lim, version, s[a.extent.len..]);
      var later := DecodeAll(t, lim, version, s[a.extent.len..]);
      TileFirst(version, s, CesrGroup(a.head, s[a.head.start..a.extent.len]), a.extent.len, later.groups);
    }
  }

  lemma NoTile(version: CesrVersion, s: bytes)
    ensures Length([]) == 0 && Tiled(version, s, [])
  {
  }

  lemma TileFirst(version: CesrVersion, s: bytes, group: CesrGroup, len: nat, later: seq<CesrGroup>)
    requires ReadHead(version, s) == Ok(group.head) && group.head.start <= len <= |s| && group.raw == s[group.head.start..len]
    requires Length(later) <= |s| - len && Tiled(version, s[len..], later)
    ensures Length([group] + later) == len + Length(later)
    ensures s[len..][Length(later)..] == s[len + Length(later)..]
    ensures Tiled(version, s, [group] + later)
  {
    hide ReadHead;
    assert ([group] + later)[1..] == later;
  }

  lemma AttemptHead(t: CodeTables, lim: FrameLimits, version: CesrVersion, s: bytes)
    requires t.WellFormed() && AttemptOn(t, lim, version, s).Whole?
    ensures ReadHead(version, s) == Ok(AttemptOn(t, lim, version, s).head)
  {
    hide ReadHead;
  }

  // ── One step ───────────────────────────────────────────────────────────

  /** Every group so far and every group still ahead make up the whole stream. */
  ghost predicate Decoding(t: CodeTables, lim: FrameLimits, version: CesrVersion, stream: bytes, groups: seq<CesrGroup>, left: bytes)
    requires t.WellFormed()
  {
    DecodeAll(t, lim, version, stream) == DecodeAll(t, lim, version, left).Behind(groups)
  }

  /** The groups of the whole stream, with what is left over and whether that is refused. */
  ghost predicate Decoded(t: CodeTables, lim: FrameLimits, version: CesrVersion, stream: bytes, groups: seq<CesrGroup>, rest: bytes, refused: bool)
    requires t.WellFormed()
  {
    var all := DecodeAll(t, lim, version, stream);
    all.groups == groups && all.rest == rest && all.refusal.Some? == refused
  }

  /** A call on an open buffer gives what the whole of the stream gives next. */
  lemma OpenDecode(t: CodeTables, lim: FrameLimits, version: CesrVersion, stream: bytes, groups: seq<CesrGroup>, s: bytes, ahead: bytes, r: Result<Option<CesrGroup>>, left: bytes)
    requires t.WellFormed() && s != [] && Decoding(t, lim, version, stream, groups, s + ahead)
    requires Decodes(t, lim, version, s, r, left)
    ensures r.Ok? && r.value.Some? ==> |left| < |s| && Decoding(t, lim, version, stream, groups + [r.value.value], left + ahead)
    ensures r == Ok(None) ==> left == s
    ensures r.Err? ==> left == s && Decoded(t, lim, version, stream, groups, s + ahead, true)
  {
    hide AttemptOn;
    var x := s + ahead;
    assert x[|s|..] == ahead;
    DecodesEarly(t, lim, version, s, x, r, left);
    var a := AttemptOn(t, lim, version, x);
    if r.Ok? && r.value.Some? {
      var later := DecodeAll(t, lim, version, left + ahead);
      assert a.Whole? && left + ahead == x[a.extent.len..];
      assert groups + ([r.value.value] + later.groups) == groups + [r.value.value] + later.groups;
    }
  }

  /** A call at the end of input gives what the stream gives next, or its refusal. */
  lemma ClosedDecode(t: CodeTables, lim: FrameLimits, version: CesrVersion, stream: bytes, groups: seq<CesrGroup>, s: bytes, r: Result<Option<CesrGroup>>, left: bytes)
    requires t.WellFormed() && s != [] && Decoding(t, lim, version, stream, groups, s)
    requires if AttemptOn(t, lim, version, s).Pending? then r == Err(Truncated(AttemptOn(t, lim, version, s).missing)) && left == s
             else Decodes(t, lim, version, s, r, left)
    ensures r.Ok? ==> r.value.Some? && |left| < |s| && Decoding(t, lim, version, stream, groups + [r.value.value], left)
    ensures r.Err? ==> left == s && DecodeAll(t, lim, version, stream) == DecodedAll(groups, s, Some(r.error))
  {
    hide AttemptOn;
    var a := AttemptOn(t, lim, version, s);
    if a.Whole? {
      var later := DecodeAll(t, lim, version, left);
      assert groups + ([r.value.value] + later.groups) == groups + [r.value.value] + later.groups;
    }
  }

  // ── The read loop ──────────────────────────────────────────────────────

  /** Polling `decode` until it answers `None` or refuses; `ahead` has not arrived yet. */
  method PollGroups(codec: CesrCodec, buf: Buffer, before: seq<CesrGroup>, ghost stream: bytes, ghost ahead: bytes)
    returns (groups: seq<CesrGroup>, refusal: Option<ParseError>)
    requires codec.Valid() && buf !in codec.Repr && codec.seen <= buf.data && |buf.data| <= ISIZE_MAX && codec.t.WellFormed()
    requires Decoding(codec.t, codec.limits, codec.version, stream, before, buf.data + ahead)
    modifies buf, codec.Repr
    ensures codec.Valid() && buf !in codec.Repr && fresh(codec.Repr - old(codec.Repr)) && codec.seen <= buf.data
    ensures |buf.data| <= old(|buf.data|)
    ensures refusal.None? ==>
      && Decoding(codec.t, codec.limits, codec.version, stream, groups, buf.data + ahead)
      && (buf.data != [] ==> AttemptOn(codec.t, codec.limits, codec.version, buf.data).Pending?)
    ensures refusal.Some? ==> Decoded(codec.t, codec.limits, codec.version, stream, groups, buf.data + ahead, true)
  {
    hide AttemptOn, Decoding, Decoded, CesrCodec.Valid;
    groups, refusal := before, None;
    while true
      invariant codec.Valid() && buf !in codec.Repr && fresh(codec.Repr - old(codec.Repr)) && codec.seen <= buf.data
      invariant |buf.data| <= old(|buf.data|)
      invariant Decoding(codec.t, codec.limits, codec.version, stream, groups, buf.data + ahead)
      decreases |buf.data|
    {
      ghost var s := buf.data;
      var next := codec.Decode(buf);
      if s != [] {
        OpenDecode(codec.t, codec.limits, codec.version, stream, groups, s, ahead, next, buf.data);
      }
      match next {
        case Err(e) => return groups, Some(e);
        case Ok(None) => return groups, None;
        case Ok(Some(group)) => groups := groups + [group];
      }
    }
  }

  /** Decoding at the end of input until the buffer is empty or refused. */
  method FinishGroups(codec: CesrCodec, buf: Buffer, before: seq<CesrGroup>, ghost stream: bytes)
    returns (groups: seq<CesrGroup>, refusal: Option<ParseError>)
    requires codec.Valid() && buf !in codec.Repr && codec.seen <= buf.data && |buf.data| <= ISIZE_MAX && codec.t.WellFormed()
    requires Decoding(codec.t, codec.limits, codec.version, stream, before, buf.data)
    modifies buf, codec.Repr
    ensures DecodeAll(codec.t, codec.limits, codec.version, stream) == DecodedAll(groups, buf.data, refusal)
  {
    hide AttemptOn, Decoding, Decodes, CesrCodec.Valid;
    groups, refusal := before, None;
    while buf.data != []
      invariant codec.Valid() && buf !in codec.Repr && fresh(codec.Repr - old(codec.Repr)) && codec.seen <= buf.data
      invariant |buf.data| <= ISIZE_MAX
      invariant Decoding(codec.t, codec.limits, codec.version, stream, groups, buf.data)
      decreases |buf.data|
    {
      ghost var s := buf.data;
      var next := codec.DecodeEof(buf);
      ClosedDecode(codec.t, codec.limits, codec.version, stream, groups, s, next, buf.data);
      if next.Err? {
        return groups, Some(next.error);
      }
      groups := groups + [next.value.value];
    }
    DecodedDry(codec.t, codec.limits, codec.version, stream, groups, buf.data);
  }

  lemma DecodedDry(t: CodeTables, lim: FrameLimits, version: CesrVersion, stream: bytes, groups: seq<CesrGroup>, s: bytes)
    requires t.WellFormed() && s == [] && Decoding(t, lim, version, stream, groups, s)
    ensures DecodeAll(t, lim, version, stream) == DecodedAll(groups, [], None)
  {
    assert groups + [] == groups;
  }

  lemma DecodingWhole(t: CodeTables, lim: FrameLimits, version: CesrVersion, stream: bytes)
    requires t.WellFormed()
    ensures Decoding(t, lim, version, stream, [], stream)
  {
    hide DecodeAll;
  }

  /** Main result: whatever the schedule of arrivals, polling after each one and finishing at the end
      of input yields exactly the groups of decoding the whole stream, leaves exactly what that
      leaves, and meets a refusal exactly where that does. */
  method DecodeAllInChunks(t: CodeTables, lim: FrameLimits, version: CesrVersion, stream: bytes, cuts: seq<nat>)
    returns (groups: seq<CesrGroup>, rest: bytes, refusal: Option<ParseError>)
    requires t.WellFormed() && |stream| <= ISIZE_MAX && Schedule(cuts, |stream|)
    ensures groups == DecodeAll(t, lim, version, stream).groups
    ensures rest == DecodeAll(t, lim, version, stream).rest
    ensures refusal.Some? == DecodeAll(t, lim, version, stream).refusal.Some?
    ensures cuts == [] ==> refusal == DecodeAll(t, lim, version, stream).refusal
  {
    hide AttemptOn, DecodeAll, Decoding, CesrCodec.Valid;
    DecodingWhole(t, lim, version, stream);
    var codec := new CesrCodec(t, version, lim);
    var buf := new Buffer([]);
    groups, refusal := [], None;
    var arrived, i := 0, 0;
    assert [] + stream[0..] == stream;
    while i < |cuts|
      invariant i <= |cuts| && arrived == (if i == 0 then 0 else cuts[i - 1]) <= |stream|
      invariant codec.Valid() && fresh(codec.Repr) && buf !in codec.Repr && codec.seen <= buf.data && |buf.data| <= arrived
      invariant codec.t == t && codec.limits == lim && codec.version == version
      invariant Decoding(t, lim, version, stream, groups, buf.data + stream[arrived..])
    {
      ghost var s := buf.data;
      buf.Extend(stream[arrived..cuts[i]]);
      assert buf.data + stream[cuts[i]..] == s + stream[arrived..];
      groups, refusal := PollGroups(codec, buf, groups, stream, stream[cuts[i]..]);
      if refusal.Some? {
        return groups, buf.data + stream[cuts[i]..], refusal;
      }
      arrived, i := cuts[i], i + 1;
    }
    ghost var s := buf.data;
    buf.Extend(stream[arrived..]);
    assert buf.data == s + stream[arrived..];
    groups, refusal := FinishGroups(codec, buf, groups, stream);
    rest := buf.data;
  }
}
