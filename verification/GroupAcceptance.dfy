/** Which groups the group codec decodes. */
module GroupAcceptance {
  import opened Prelude
  import opened Primitives
  import opened GroupGrammar
  import opened GroupLimits
  import opened Enclosures
  import opened Forests
  import opened FrameGrammar
  import opened GroupCodec

  /** A whole group of this version stands at the head of `s`, it is within the limits on bytes,
      lists and signatures, and if it encloses a payload, that is a forest within all limits of a
      scan, read with the version of the codec. */
  ghost predicate Acceptable(t: CodeTables, lim: FrameLimits, version: CesrVersion, s: bytes, head: GroupHead, extent: Extent)
    requires t.WellFormed()
  {
    && FreeHead(t, s, version).Some?
    && var (free, framed) := FreeHead(t, s, version).value;
    && head == free && extent == Extent(framed.len, framed.sigs)
    && framed.Within(BareBounds(lim))
    && (head.IsEnclosing() ==>
          var forest := PayloadForest(t, s[head.start..framed.len], version);
          forest.Some? && Admits(lim, forest.value, 1, Tally(0, framed.sigs)))
  }

  /** Main result: the codec decodes a group exactly if a whole one stands at the head of the buffer
      and it and everything it encloses are within the limits. */
  lemma AttemptExact(t: CodeTables, lim: FrameLimits, version: CesrVersion, s: bytes, head: GroupHead, extent: Extent)
    requires t.WellFormed() && |s| <= USIZE_MAX
    ensures AttemptOn(t, lim, version, s) == Whole(head, extent) <==> Acceptable(t, lim, version, s, head, extent)
  {
    hide ReadHead, RunFrom, FreeGroup, Scan, PayloadForest, Admits;
    var read := ReadHead(version, s);
    if read.Ok? {
      GroupExact(t, read.value, s, BareBounds(lim));
      if FreeGroup(t, read.value, s).Some? {
        ElementsWithinPeak(t, read.value, s);
      }
      var run := RunFrom(t, StartOf(read.value), s, BareBounds(lim));
      if run.Ok? && run.value.sigs <= lim.maxSignatures {
        ScanExact(t, lim, s[read.value.start..run.value.len], run.value.sigs, version);
      }
    }
  }

  lemma ElementsWithinPeak(t: CodeTables, head: GroupHead, s: bytes)
    requires t.WellFormed() && head.layout.Solid() && head.start <= |s| && FreeGroup(t, head, s).Some?
    ensures head.ElementCount().Some? ==> head.count <= FreeGroup(t, head, s).value.peak
  {
    hide RunFrom;
  }

  /** The codec waits only while less than its byte limit has arrived. */
  lemma PendingIsBounded(t: CodeTables, lim: FrameLimits, version: CesrVersion, s: bytes)
    requires t.WellFormed() && |s| <= USIZE_MAX && AttemptOn(t, lim, version, s).Pending?
    ensures |s| < lim.maxAttachmentBytes
  {
    hide ReadHead, RunFrom, EnclosedSigs;
    if ReadHead(version, s).Ok? {
      StarvedWithin(t, StartOf(ReadHead(version, s).value), s, BareBounds(lim));
    }
  }

  /** A group that counts its bytes lacks exactly the rest of them. */
  lemma MissingIsExact(t: CodeTables, lim: FrameLimits, version: CesrVersion, s: bytes, head: GroupHead)
    requires t.WellFormed() && ReadHead(version, s) == Ok(head) && head.layout.Quadlets?
    requires |s| < head.start + 4 * head.count <= lim.maxAttachmentBytes
    ensures AttemptOn(t, lim, version, s) == Pending(head.start + 4 * head.count - |s|)
  {
    hide ReadHead;
  }
}
