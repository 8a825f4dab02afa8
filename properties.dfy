/**
 * Properties of the box engine that relate several operations: a header
 * written by `writeHeader` reads back through the header constructor, a
 * resize grows exactly the chain it reaches, rewrites exactly its size fields
 * and touches no other byte, and `append` lays out a child that traversal
 * reads back.
 */
module SisoProperties {
  import opened Codec
  import opened Stream
  import opened Siso

  // ---------------------------------------------------------------------------
  // Header round trip
  // ---------------------------------------------------------------------------

  /** Header bytes that came from `writeHeader` decode to the tag and the size modulo 2^32. */
  lemma HeaderDecode(data: seq<Byte>, n: Node, parent: Box)
    requires Fetch(data, n.offset, 8) == HeaderBytes(n)
    ensures HeaderBox(data, n.offset, parent) == Box(Node(n.tag, SizeField(n.size), n.offset), parent.Nodes(), parent.attached)
  {
    var h := Fetch(data, n.offset, 8);
    assert h[..4] == BigEndian(SizeField(n.size), 4) && h[4..8] == BigEndian(n.tag, 4);
    BigEndianRoundTrip(SizeField(n.size), 4);
    BigEndianRoundTrip(n.tag, 4);
  }

  /**
   * `writeHeader` then `box(offset, parent)`: when the 8 header bytes are
   * stored, reading the header back gives the box's tag, its size modulo
   * 2^32 and its offset.
   */
  lemma HeaderRoundTrip(data: seq<Byte>, limit: nat, n: Node, parent: Box)
    requires Fits(limit, n.offset, 8)
    ensures HeaderBox(Stored(data, limit, n.offset, HeaderBytes(n)), n.offset, parent)
         == Box(Node(n.tag, SizeField(n.size), n.offset), parent.Nodes(), parent.attached)
  {
    FetchStored(data, limit, n.offset, HeaderBytes(n));
    HeaderDecode(Stored(data, limit, n.offset, HeaderBytes(n)), n, parent);
  }

  /** The header is what `writeHeader` builds: `swap32` of the size field and of the type code, as the host keeps them. */
  lemma HeaderBytesSwapped(n: Node)
    ensures HeaderBytes(n) == HostBytes32(Swap32(SizeField(n.size))) + HostBytes32(Swap32(n.tag))
    ensures HeaderBytes(n)[..4] == BigEndian32(SizeField(n.size)) && HeaderBytes(n)[4..] == BigEndian32(n.tag)
  {
    BigEndianIsSwapped(SizeField(n.size));
    BigEndianIsSwapped(n.tag);
    SwappedIsBigEndian(SizeField(n.size));
    SwappedIsBigEndian(n.tag);
  }

  // ---------------------------------------------------------------------------
  // Resize
  // ---------------------------------------------------------------------------

  /** Dropping the head of a chain whose head is tagged and whose size write fits shifts the growing levels by one. */
  lemma GrowsShift(nodes: seq<Node>, limit: nat, i: nat)
    requires nodes != [] && nodes[0].tag != 0 && Fits(limit, nodes[0].offset, 4) && 0 < i
    ensures Grows(nodes, limit, i) <==> Grows(nodes[1..], limit, i - 1)
  {
    var tail := nodes[1..];
    if Grows(tail, limit, i - 1) {
      forall j | 0 < j <= i
        ensures nodes[j].tag != 0 && (j < i ==> Fits(limit, nodes[j].offset, 4))
      {
        assert nodes[j] == tail[j - 1];
      }
    }
    if Grows(nodes, limit, i) {
      forall j | 0 <= j <= i - 1
        ensures tail[j].tag != 0 && (j < i - 1 ==> Fits(limit, tail[j].offset, 4))
      {
        assert tail[j] == nodes[j + 1];
      }
    }
  }

  /**
   * Resize sizes: level `i` of the chain ends up `delta` larger exactly
   * when the walk reaches it, and is left as it was otherwise. The file
   * (tag 0) and everything above it, and everything above a failed write,
   * keeps its size.
   */
  lemma {:induction false} PropagateSizes(data: seq<Byte>, limit: nat, nodes: seq<Node>, delta: nat)
    ensures var g := Propagate(data, limit, nodes, delta);
      forall i :: 0 <= i < |nodes| ==>
        g.nodes[i] == (if Grows(nodes, limit, i) then nodes[i].(size := nodes[i].size + delta) else nodes[i])
    decreases |nodes|
  {
    var g := Propagate(data, limit, nodes, delta);
    if nodes == [] || nodes[0].tag == 0 {
      forall i | 0 <= i < |nodes|
        ensures !Grows(nodes, limit, i)
      {
        assert nodes[0].tag == 0;
      }
    } else {
      var written := Stored(data, limit, nodes[0].offset, SizeBytes(nodes[0].size + delta));
      PropagateStep(data, limit, nodes, delta, written, nodes[1..]);
      if !Fits(limit, nodes[0].offset, 4) {
        forall i | 0 < i < |nodes|
          ensures !Grows(nodes, limit, i) && g.nodes[i] == nodes[i]
        {
          assert g.nodes[i] == g.nodes[1..][i - 1];
        }
      } else {
        var rest := Propagate(written, limit, nodes[1..], delta);
        PropagateSizes(written, limit, nodes[1..], delta);
        forall i | 0 < i < |nodes|
          ensures g.nodes[i] == (if Grows(nodes, limit, i) then nodes[i].(size := nodes[i].size + delta) else nodes[i])
        {
          GrowsShift(nodes, limit, i);
          assert g.nodes[i] == rest.nodes[i - 1];
          assert nodes[i] == nodes[1..][i - 1];
        }
      }
    }
  }

  /** The walk of a resize reaches a level whose size write does not fit. */
  ghost predicate WriteFails(nodes: seq<Node>, limit: nat) {
    exists i: nat :: Grows(nodes, limit, i) && !Fits(limit, nodes[i].offset, 4)
  }

  /** Resize result: -1 exactly when the walk reaches a level whose size write does not fit, 0 otherwise. */
  lemma {:induction false} PropagateStatus(data: seq<Byte>, limit: nat, nodes: seq<Node>, delta: nat)
    ensures Propagate(data, limit, nodes, delta).status == (if WriteFails(nodes, limit) then -1 else 0)
    decreases |nodes|
  {
    if nodes == [] || nodes[0].tag == 0 {
      forall i: nat
        ensures !Grows(nodes, limit, i)
      {
        if i < |nodes| {
          assert nodes[0].tag == 0;
        }
      }
    } else {
      var written := Stored(data, limit, nodes[0].offset, SizeBytes(nodes[0].size + delta));
      PropagateStep(data, limit, nodes, delta, written, nodes[1..]);
      if !Fits(limit, nodes[0].offset, 4) {
        assert Grows(nodes, limit, 0);
      } else {
        PropagateStatus(written, limit, nodes[1..], delta);
        WriteFailsShift(nodes, limit);
      }
    }
  }

  /** Past a tagged head whose size write fits, a resize fails exactly when the rest of the walk does. */
  lemma WriteFailsShift(nodes: seq<Node>, limit: nat)
    requires nodes != [] && nodes[0].tag != 0 && Fits(limit, nodes[0].offset, 4)
    ensures WriteFails(nodes, limit) <==> WriteFails(nodes[1..], limit)
  {
    var tail := nodes[1..];
    if WriteFails(nodes, limit) {
      var i: nat :| Grows(nodes, limit, i) && !Fits(limit, nodes[i].offset, 4);
      GrowsShift(nodes, limit, i);
      assert tail[i - 1] == nodes[i];
    }
    if WriteFails(tail, limit) {
      var i: nat :| Grows(tail, limit, i) && !Fits(limit, tail[i].offset, 4);
      GrowsShift(nodes, limit, i + 1);
      assert tail[i] == nodes[i + 1];
    }
  }

  /** `p` lies in none of the 4-byte size fields a resize of `nodes` rewrites. */
  predicate OutsideSizeFields(nodes: seq<Node>, limit: nat, p: nat) {
    forall i: nat :: i < |nodes| && Grows(nodes, limit, i) ==> !(nodes[i].offset <= p < nodes[i].offset + 4)
  }

  /** Resize frame: a resize changes no byte of the file outside the size fields it rewrites. */
  lemma {:induction false} PropagateFrame(data: seq<Byte>, limit: nat, nodes: seq<Node>, delta: nat, p: nat)
    requires p < |data| && OutsideSizeFields(nodes, limit, p)
    ensures var g := Propagate(data, limit, nodes, delta);
      p < |g.data| && g.data[p] == data[p]
    decreases |nodes|
  {
    if nodes != [] && nodes[0].tag != 0 {
      var written := Stored(data, limit, nodes[0].offset, SizeBytes(nodes[0].size + delta));
      PropagateStep(data, limit, nodes, delta, written, nodes[1..]);
      assert Grows(nodes, limit, 0);
      StoredFrame(data, limit, nodes[0].offset, SizeBytes(nodes[0].size + delta), p);
      if Fits(limit, nodes[0].offset, 4) {
        StoredLength(data, limit, nodes[0].offset, SizeBytes(nodes[0].size + delta));
        forall i: nat | Grows(nodes[1..], limit, i)
          ensures !(nodes[1..][i].offset <= p < nodes[1..][i].offset + 4)
        {
          GrowsShift(nodes, limit, i + 1);
          assert nodes[1..][i] == nodes[i + 1];
        }
        PropagateFrame(written, limit, nodes[1..], delta, p);
      }
    }
  }

  /** A resize never shortens the file, and keeps its length when every size field it rewrites lies inside it. */
  lemma {:induction false} PropagateLength(data: seq<Byte>, limit: nat, nodes: seq<Node>, delta: nat)
    ensures |Propagate(data, limit, nodes, delta).data| >= |data|
    ensures (forall i: nat :: Grows(nodes, limit, i) ==> nodes[i].offset + 4 <= |data|) ==>
      |Propagate(data, limit, nodes, delta).data| == |data|
    decreases |nodes|
  {
    if nodes != [] && nodes[0].tag != 0 {
      var written := Stored(data, limit, nodes[0].offset, SizeBytes(nodes[0].size + delta));
      PropagateStep(data, limit, nodes, delta, written, nodes[1..]);
      StoredLength(data, limit, nodes[0].offset, SizeBytes(nodes[0].size + delta));
      if Fits(limit, nodes[0].offset, 4) {
        PropagateLength(written, limit, nodes[1..], delta);
        if forall i: nat :: Grows(nodes, limit, i) ==> nodes[i].offset + 4 <= |data| {
          assert Grows(nodes, limit, 0);
          forall i: nat | Grows(nodes[1..], limit, i)
            ensures nodes[1..][i].offset + 4 <= |written|
          {
            GrowsShift(nodes, limit, i + 1);
            assert nodes[1..][i] == nodes[i + 1];
          }
        }
      }
    }
  }

  /** Along a nested chain, every tagged ancestor starts at least a header's length before the box at the head. */
  lemma {:induction false} OffsetsBelow(nodes: seq<Node>, j: nat)
    requires Nested(nodes) && 0 < j < |nodes|
    requires forall k :: 0 < k <= j ==> nodes[k].tag != 0
    ensures nodes[j].offset + 8 <= nodes[0].offset
    decreases j
  {
    if j > 1 {
      var tail := nodes[1..];
      forall k | 0 < k <= j - 1
        ensures tail[k].tag != 0
      {
        assert tail[k] == nodes[k + 1];
      }
      OffsetsBelow(tail, j - 1);
      assert tail[j - 1] == nodes[j];
    }
  }

  /** On a nested chain, the head's new size field survives the writes further up the chain. */
  lemma PropagateHeadField(data: seq<Byte>, limit: nat, nodes: seq<Node>, delta: nat)
    requires Nested(nodes) && nodes != [] && nodes[0].tag != 0 && Fits(limit, nodes[0].offset, 4)
    ensures Fetch(Propagate(data, limit, nodes, delta).data, nodes[0].offset, 4) == SizeBytes(nodes[0].size + delta)
  {
    var g := Propagate(data, limit, nodes, delta);
    var off := nodes[0].offset;
    var field := SizeBytes(nodes[0].size + delta);
    var written := Stored(data, limit, off, field);
    var tail := nodes[1..];
    PropagateStep(data, limit, nodes, delta, written, tail);
    FetchStored(data, limit, off, field);
    StoredAt(data, limit, off, field, 0);
    StoredLength(data, limit, off, field);
    forall p | off <= p < off + 4
      ensures p < |g.data| && g.data[p] == written[p]
    {
      TailMissesHead(nodes, limit, p);
      PropagateFrame(written, limit, tail, delta, p);
    }
    assert off + 3 < |g.data| && g.data[off + 3] == written[off + 3];
    FetchAgree(g.data, written, off, 4);
  }

  /** No size field further up a nested chain overlaps the head's size field. */
  lemma TailMissesHead(nodes: seq<Node>, limit: nat, p: nat)
    requires Nested(nodes) && nodes != [] && nodes[0].tag != 0 && Fits(limit, nodes[0].offset, 4)
    requires nodes[0].offset <= p < nodes[0].offset + 4
    ensures OutsideSizeFields(nodes[1..], limit, p)
  {
    var tail := nodes[1..];
    forall i: nat | i < |tail| && Grows(tail, limit, i)
      ensures !(tail[i].offset <= p < tail[i].offset + 4)
    {
      GrowsShift(nodes, limit, i + 1);
      assert tail[i] == nodes[i + 1];
      OffsetsBelow(nodes, i + 1);
    }
  }

  /** So a header read at the head of the chain sees its new size, as a 32-bit field. */
  lemma PropagateHeadRead(data: seq<Byte>, limit: nat, nodes: seq<Node>, delta: nat)
    requires Nested(nodes) && nodes != [] && nodes[0].tag != 0 && Fits(limit, nodes[0].offset, 4)
    ensures SizeFieldAt(Propagate(data, limit, nodes, delta).data, nodes[0].offset) == SizeField(nodes[0].size + delta)
  {
    PropagateHeadField(data, limit, nodes, delta);
    SizeFieldDecode(Propagate(data, limit, nodes, delta).data, nodes[0].offset, nodes[0].size + delta);
  }

  /** On a nested chain, the resize reaches level `i` and its size write there fits. */
  predicate Rewrites(nodes: seq<Node>, limit: nat, i: nat) {
    Nested(nodes) && Grows(nodes, limit, i) && Fits(limit, nodes[i].offset, 4)
  }

  /**
   * Resize size fields: on a nested chain, every level the walk reaches
   * whose write fits holds its new size: a header read there sees the new
   * size as a 32-bit field.
   */
  lemma {:induction false} PropagateSizeFields(data: seq<Byte>, limit: nat, nodes: seq<Node>, delta: nat, i: nat)
    requires Rewrites(nodes, limit, i)
    ensures SizeFieldAt(Propagate(data, limit, nodes, delta).data, nodes[i].offset) == SizeField(nodes[i].size + delta)
    decreases i
  {
    if i == 0 {
      PropagateHeadRead(data, limit, nodes, delta);
    } else {
      var written := Stored(data, limit, nodes[0].offset, SizeBytes(nodes[0].size + delta));
      GrowsShift(nodes, limit, i);
      PropagateSizeFields(written, limit, nodes[1..], delta, i - 1);
      PropagateTailRead(data, limit, nodes, delta, i, written);
    }
  }

  /** A size field further up the chain reads the same after the whole resize as after the resize of the levels above the head. */
  lemma PropagateTailRead(data: seq<Byte>, limit: nat, nodes: seq<Node>, delta: nat, i: nat, written: seq<Byte>)
    requires 0 < i && Grows(nodes, limit, i)
    requires written == Stored(data, limit, nodes[0].offset, SizeBytes(nodes[0].size + delta))
    ensures SizeFieldAt(Propagate(data, limit, nodes, delta).data, nodes[i].offset)
         == SizeFieldAt(Propagate(written, limit, nodes[1..], delta).data, nodes[1..][i - 1].offset)
  {
    assert Fits(limit, nodes[0].offset, 4);
    PropagateStep(data, limit, nodes, delta, written, nodes[1..]);
    assert nodes[1..][i - 1] == nodes[i];
  }

  /** Four bytes that came from a size write decode to that size modulo 2^32. */
  lemma SizeFieldDecode(data: seq<Byte>, offset: nat, size: nat)
    requires Fetch(data, offset, 4) == SizeBytes(size)
    ensures SizeFieldAt(data, offset) == SizeField(size)
  {
    BigEndianRoundTrip(SizeField(size), 4);
  }

  // ---------------------------------------------------------------------------
  // Append
  // ---------------------------------------------------------------------------

  /** Every size field a resize of a nested chain rewrites lies before the end of the box at its head. */
  lemma FieldsBelowEnd(b: Box, limit: nat, i: nat)
    requires Nested(b.Nodes()) && (b.node.tag != 0 ==> b.node.size >= 4)
    requires i < |b.Nodes()| && Grows(b.Nodes(), limit, i)
    ensures b.Nodes()[i].offset + 4 <= b.End()
  {
    if i > 0 {
      OffsetsBelow(b.Nodes(), i);
    }
  }

  /** A resize of a nested chain leaves every byte from the end of the box at its head onwards as it was. */
  lemma PropagateKeepsTail(data: seq<Byte>, limit: nat, b: Box, delta: nat, p: nat)
    requires Nested(b.Nodes()) && (b.node.tag != 0 ==> b.node.size >= 4)
    requires b.End() <= p < |data|
    ensures var g := Propagate(data, limit, b.Nodes(), delta);
      p < |g.data| && g.data[p] == data[p]
  {
    forall i: nat | i < |b.Nodes()| && Grows(b.Nodes(), limit, i)
      ensures !(b.Nodes()[i].offset <= p < b.Nodes()[i].offset + 4)
    {
      FieldsBelowEnd(b, limit, i);
    }
    PropagateFrame(data, limit, b.Nodes(), delta, p);
  }

  /** A resize of a nested chain leaves the bytes from the end of the box at its head onwards as they were. */
  lemma PropagateKeepsRange(data: seq<Byte>, limit: nat, b: Box, delta: nat, pos: nat, n: nat)
    requires Nested(b.Nodes()) && (b.node.tag != 0 ==> b.node.size >= 4)
    requires b.End() <= pos && pos + n <= |data|
    ensures Fetch(Propagate(data, limit, b.Nodes(), delta).data, pos, n) == Fetch(data, pos, n)
  {
    var g := Propagate(data, limit, b.Nodes(), delta);
    forall p | pos <= p < pos + n
      ensures p < |g.data| && g.data[p] == data[p]
    {
      PropagateKeepsTail(data, limit, b, delta, p);
    }
    PropagateLength(data, limit, b.Nodes(), delta);
    FetchAgree(g.data, data, pos, n);
  }

  /** A resize of a nested chain inside the file keeps the file's length. */
  lemma PropagateKeepsLength(data: seq<Byte>, limit: nat, b: Box, delta: nat)
    requires Nested(b.Nodes()) && (b.node.tag != 0 ==> b.node.size >= 4)
    requires b.End() <= |data|
    ensures |Propagate(data, limit, b.Nodes(), delta).data| == |data|
  {
    forall i: nat | Grows(b.Nodes(), limit, i)
      ensures b.Nodes()[i].offset + 4 <= |data|
    {
      FieldsBelowEnd(b, limit, i);
    }
    PropagateLength(data, limit, b.Nodes(), delta);
  }

  /**
   * Staging a child: after the header write and the payload write, the
   * header bytes are at the box's end, the payload bytes follow them, and
   * the file reaches at least to the child's end.
   */
  lemma StagedLayout(data: seq<Byte>, limit: nat, b: Box, tag: U32, payloadSize: nat, payload: Payload)
    requires payload.Buffer? ==> payloadSize <= |payload.bytes|
    requires Fits(limit, b.End(), payloadSize + 8)
    ensures var staged := Staged(data, limit, b, tag, payloadSize, payload);
      && b.End() + 8 + payloadSize <= |staged|
      && Fetch(staged, b.End(), 8) == HeaderBytes(ChildNode(b, tag, payloadSize))
      && Fetch(staged, b.End() + 8, payloadSize) == Content(payload, payloadSize)
      && (b.End() >= |data| ==> |staged| == b.End() + 8 + payloadSize)
  {
    var c := ChildNode(b, tag, payloadSize);
    var header := HeaderBytes(c);
    var body := Content(payload, payloadSize);
    assert Staged(data, limit, b, tag, payloadSize, payload) == Stored(Stored(data, limit, c.offset, header), limit, c.offset + 8, body);
    StoredTwice(data, limit, c.offset, header, body);
  }

  /** Bytes written at the box's end survive the resize of the chain, and so does the file's length. */
  lemma PropagateKeepsStaged(staged: seq<Byte>, limit: nat, b: Box, delta: nat, header: seq<Byte>, body: seq<Byte>)
    requires Nested(b.Nodes()) && (b.node.tag != 0 ==> b.node.size >= 4)
    requires b.End() + 8 + |body| <= |staged|
    requires Fetch(staged, b.End(), 8) == header && Fetch(staged, b.End() + 8, |body|) == body
    ensures var g := Propagate(staged, limit, b.Nodes(), delta);
      && Fetch(g.data, b.End(), 8) == header
      && Fetch(g.data, b.End() + 8, |body|) == body
      && |g.data| == |staged|
  {
    PropagateKeepsRange(staged, limit, b, delta, b.End(), 8);
    PropagateKeepsRange(staged, limit, b, delta, b.End() + 8, |body|);
    PropagateKeepsLength(staged, limit, b, delta);
  }

  /**
   * `append(tag, P, data)` layout: on a nested chain whose head has at least
   * room for its size field, and when the child's bytes fit on the device,
   * the child's header (size `P + 8` and the tag, big-endian) sits at the
   * box's old end, the payload (the buffer, or zeros) follows it, the file
   * holds both, and appending at the end of the file grows it by exactly
   * `P + 8`.
   */
  lemma AppendChildLayout(data: seq<Byte>, limit: nat, b: Box, tag: U32, payloadSize: nat, payload: Payload)
    requires payload.Buffer? ==> payloadSize <= |payload.bytes|
    requires Nested(b.Nodes()) && (b.node.tag != 0 ==> b.node.size >= 4)
    requires Fits(limit, b.End(), payloadSize + 8)
    ensures var a := AppendChild(data, limit, b, tag, payloadSize, payload);
      && a.child.node == Node(tag, payloadSize + 8, b.End())
      && Fetch(a.data, b.End(), 8) == HeaderBytes(a.child.node)
      && Fetch(a.data, b.End() + 8, payloadSize) == Content(payload, payloadSize)
      && b.End() + 8 + payloadSize <= |a.data|
      && (b.End() >= |data| ==> |a.data| == b.End() + payloadSize + 8)
  {
    var staged := Staged(data, limit, b, tag, payloadSize, payload);
    var g := Propagate(staged, limit, b.Nodes(), payloadSize + 8);
    assert AppendChild(data, limit, b, tag, payloadSize, payload).data == g.data;
    StagedLayout(data, limit, b, tag, payloadSize, payload);
    PropagateKeepsStaged(staged, limit, b, payloadSize + 8, HeaderBytes(ChildNode(b, tag, payloadSize)), Content(payload, payloadSize));
  }

  /**
   * Append, then read: `read(0, buf, P)` on the returned child copies all
   * `P` bytes, and they are the payload that was appended (zeros for a null
   * buffer).
   */
  lemma AppendThenRead(data: seq<Byte>, limit: nat, b: Box, tag: U32, payloadSize: nat, payload: Payload)
    requires payload.Buffer? ==> payloadSize <= |payload.bytes|
    requires Nested(b.Nodes()) && (b.node.tag != 0 ==> b.node.size >= 4)
    requires Fits(limit, b.End(), payloadSize + 8)
    ensures var a := AppendChild(data, limit, b, tag, payloadSize, payload);
      && ReadCount(a.data, a.child, 0, payloadSize) == payloadSize
      && PayloadPos(a.child, 0) + payloadSize <= |a.data|
      && a.data[PayloadPos(a.child, 0)..PayloadPos(a.child, 0) + payloadSize] == Content(payload, payloadSize)
  {
    var a := AppendChild(data, limit, b, tag, payloadSize, payload);
    AppendChildLayout(data, limit, b, tag, payloadSize, payload);
    ReadsPayload(a.data, a.child, Content(payload, payloadSize));
  }

  /** A box of size `|p| + 8` whose payload bytes `p` lie inside the file reads back as `p` from offset 0. */
  lemma ReadsPayload(data: seq<Byte>, c: Box, p: seq<Byte>)
    requires c.node.size == |p| + 8 && c.node.offset + 8 + |p| <= |data|
    requires Fetch(data, c.node.offset + 8, |p|) == p
    ensures ReadCount(data, c, 0, |p|) == |p|
    ensures PayloadPos(c, 0) + |p| <= |data| && data[PayloadPos(c, 0)..PayloadPos(c, 0) + |p|] == p
  {
    FetchInside(data, c.node.offset + 8, |p|);
  }

  /** A header read at the new child's offset gives back the returned child, with its size as a 32-bit field. */
  lemma AppendChildReadBack(data: seq<Byte>, limit: nat, b: Box, tag: U32, payloadSize: nat, payload: Payload)
    requires payload.Buffer? ==> payloadSize <= |payload.bytes|
    requires Nested(b.Nodes()) && (b.node.tag != 0 ==> b.node.size >= 4)
    requires Fits(limit, b.End(), payloadSize + 8)
    ensures var a := AppendChild(data, limit, b, tag, payloadSize, payload);
      HeaderBox(a.data, b.End(), a.grown)
      == Box(Node(tag, SizeField(payloadSize + 8), b.End()), a.child.parents, a.child.attached)
  {
    var a := AppendChild(data, limit, b, tag, payloadSize, payload);
    AppendChildLayout(data, limit, b, tag, payloadSize, payload);
    assert a.child.parents == a.grown.Nodes() && a.child.attached == a.grown.attached;
    HeaderDecode(a.data, a.child.node, a.grown);
  }

  /**
   * `append(tag, P, data)` growth: the returned child has size `P + 8` at the
   * box's old end and the grown chain as its parents; each level of the box's
   * chain grows by `P + 8` exactly when the resize reaches it.
   */
  lemma AppendChildGrows(data: seq<Byte>, limit: nat, b: Box, tag: U32, payloadSize: nat, payload: Payload)
    requires payload.Buffer? ==> payloadSize <= |payload.bytes|
    ensures var a := AppendChild(data, limit, b, tag, payloadSize, payload);
      && a.child.node == ChildNode(b, tag, payloadSize)
      && a.child.parents == a.grown.Nodes()
      && a.child.attached == a.grown.attached == b.attached
      && |a.grown.Nodes()| == |b.Nodes()|
      && forall i :: 0 <= i < |b.Nodes()| ==>
           a.grown.Nodes()[i] == (if Grows(b.Nodes(), limit, i)
                                  then b.Nodes()[i].(size := b.Nodes()[i].size + (payloadSize + 8))
                                  else b.Nodes()[i])
  {
    var staged := Staged(data, limit, b, tag, payloadSize, payload);
    var g := Propagate(staged, limit, b.Nodes(), payloadSize + 8);
    PropagateSizes(staged, limit, b.Nodes(), payloadSize + 8);
    assert GrownBox(g, b.attached).Nodes() == g.nodes;
  }

  /** A size field of the file `append(tag, P, data)` leaves reads as it does after the resize of the staged file. */
  lemma AppendChildField(data: seq<Byte>, limit: nat, b: Box, tag: U32, payloadSize: nat, payload: Payload, offset: nat, v: nat)
    requires payload.Buffer? ==> payloadSize <= |payload.bytes|
    requires SizeFieldAt(Propagate(Staged(data, limit, b, tag, payloadSize, payload), limit, b.Nodes(), payloadSize + 8).data, offset) == v
    ensures SizeFieldAt(AppendChild(data, limit, b, tag, payloadSize, payload).data, offset) == v
  {
  }

  /** `append(tag, P, data)` size fields: on a nested chain every level the resize reaches and whose write fits holds its size grown by `P + 8`. */
  lemma AppendChildSizeFields(data: seq<Byte>, limit: nat, b: Box, tag: U32, payloadSize: nat, payload: Payload, i: nat)
    requires payload.Buffer? ==> payloadSize <= |payload.bytes|
    requires Rewrites(b.Nodes(), limit, i)
    ensures SizeFieldAt(AppendChild(data, limit, b, tag, payloadSize, payload).data, b.Nodes()[i].offset)
         == SizeField(b.Nodes()[i].size + (payloadSize + 8))
  {
    PropagateSizeFields(Staged(data, limit, b, tag, payloadSize, payload), limit, b.Nodes(), payloadSize + 8, i);
    AppendChildField(data, limit, b, tag, payloadSize, payload, b.Nodes()[i].offset, SizeField(b.Nodes()[i].size + (payloadSize + 8)));
  }

  /**
   * `append(data, bytes)`: the bytes (or zeros) land at the box's old end
   * and survive the resize, each level of the chain grows by `bytes` exactly
   * when the resize reaches it, and the result is -1 exactly when one of
   * the size writes it reaches does not fit.
   */
  lemma AppendRawEffect(data: seq<Byte>, limit: nat, b: Box, payload: Payload, bytes: nat)
    requires payload.Buffer? ==> bytes <= |payload.bytes|
    requires Nested(b.Nodes()) && (b.node.tag != 0 ==> b.node.size >= 4)
    requires Fits(limit, b.End(), bytes)
    ensures var g := AppendRaw(data, limit, b, payload, bytes);
      && Fetch(g.data, b.End(), bytes) == Content(payload, bytes)
      && g.status == (if WriteFails(b.Nodes(), limit) then -1 else 0)
      && forall i :: 0 <= i < |b.Nodes()| ==>
           g.nodes[i] == (if Grows(b.Nodes(), limit, i) then b.Nodes()[i].(size := b.Nodes()[i].size + bytes) else b.Nodes()[i])
  {
    var body := Content(payload, bytes);
    var written := Stored(data, limit, b.End(), body);
    var g := Propagate(written, limit, b.Nodes(), bytes);
    FetchStored(data, limit, b.End(), body);
    StoredAt(data, limit, b.End(), body, 0);
    forall p | b.End() <= p < b.End() + bytes
      ensures p < |g.data| && g.data[p] == written[p]
    {
      PropagateKeepsTail(written, limit, b, bytes, p);
    }
    PropagateLength(written, limit, b.Nodes(), bytes);
    if bytes > 0 {
      FetchAgree(g.data, written, b.End(), bytes);
    }
    PropagateStatus(written, limit, b.Nodes(), bytes);
    PropagateSizes(written, limit, b.Nodes(), bytes);
  }

  /**
   * `isLast` after `append(tag, P, data)`: on a chain that ends with the
   * file, the new child counts as last exactly when its end equals the
   * file's size as recorded when the file was opened. The file's own size
   * is never grown, so it stays at that value.
   */
  lemma AppendChildIsLast(data: seq<Byte>, limit: nat, b: Box, tag: U32, payloadSize: nat, payload: Payload)
    requires payload.Buffer? ==> payloadSize <= |payload.bytes|
    requires b.Top().tag == 0
    ensures var a := AppendChild(data, limit, b, tag, payloadSize, payload);
      && a.child.Top() == b.Top()
      && (IsLast(a.child) <==> b.End() + payloadSize + 8 == b.Top().size)
  {
    var a := AppendChild(data, limit, b, tag, payloadSize, payload);
    AppendChildGrows(data, limit, b, tag, payloadSize, payload);
    var last := |b.Nodes()| - 1;
    assert b.Nodes()[last] == b.Top();
    assert !Grows(b.Nodes(), limit, last);
    assert a.child.Top() == a.child.parents[last];
  }

  // ---------------------------------------------------------------------------
  // Nested chains
  // ---------------------------------------------------------------------------

  /** Whether a chain is nested depends only on its tags and offsets, not on its sizes. */
  lemma {:induction false} NestedShape(xs: seq<Node>, ys: seq<Node>)
    requires |xs| == |ys|
    requires forall i :: 0 <= i < |xs| ==> xs[i].tag == ys[i].tag && xs[i].offset == ys[i].offset
    ensures Nested(xs) <==> Nested(ys)
    decreases |xs|
  {
    if |xs| >= 2 {
      assert xs[1].tag == ys[1].tag && xs[1].offset == ys[1].offset;
      assert xs[0].offset == ys[0].offset;
      forall i | 0 <= i < |xs| - 1
        ensures xs[1..][i].tag == ys[1..][i].tag && xs[1..][i].offset == ys[1..][i].offset
      {
        assert xs[1..][i] == xs[i + 1] && ys[1..][i] == ys[i + 1];
      }
      NestedShape(xs[1..], ys[1..]);
    }
  }

  /** The first box `first` reads inside a box on a nested chain is on a nested chain. */
  lemma FirstChildNested(data: seq<Byte>, b: Box, extra: nat)
    requires Nested(b.Nodes())
    ensures Nested(HeaderBox(data, FirstStart(b, extra), b).Nodes())
  {
    assert HeaderBox(data, FirstStart(b, extra), b).Nodes()[1..] == b.Nodes();
  }

  /** Every box a sibling walk visits from a box on a nested chain is on a nested chain. */
  lemma SiblingsNested(data: seq<Byte>, c: Box, i: nat)
    requires Nested(c.Nodes()) && i < |Siblings(data, c)|
    ensures Nested(Siblings(data, c)[i].Nodes())
  {
    var s := Siblings(data, c)[i];
    assert c.Nodes()[1..] == c.parents == s.Nodes()[1..];
    assert c.parents[0] == c.Nodes()[1];
  }

  /** The box a sibling search returns from a box on a nested chain is on a nested chain. */
  lemma EarliestNested(data: seq<Byte>, c: Box, tag: U32, anyTag: bool, r: Box)
    requires Nested(c.Nodes()) && IsEarliest(Siblings(data, c), tag, anyTag, r)
    ensures Nested(r.Nodes())
  {
    if r != Sentinel() {
      var i :| 0 <= i < |Siblings(data, c)| && r == Siblings(data, c)[i];
      SiblingsNested(data, c, i);
    }
  }

  /** What `first(tag, extra)` returns inside a box on a nested chain is on a nested chain. */
  lemma FirstNested(data: seq<Byte>, b: Box, tag: U32, extra: nat, r: Box)
    requires Nested(b.Nodes())
    requires IsEarliest(Siblings(data, HeaderBox(data, FirstStart(b, extra), b)), tag, tag == 0, r)
    ensures Nested(r.Nodes())
  {
    FirstChildNested(data, b, extra);
    EarliestNested(data, HeaderBox(data, FirstStart(b, extra), b), tag, tag == 0, r);
  }

  /** `next()` of a box on a nested chain is on a nested chain. */
  lemma NextNested(data: seq<Byte>, b: Box)
    requires b.parents != [] && Nested(b.Nodes())
    ensures Nested(Next(data, b).Nodes())
  {
    var n := Next(data, b);
    if n != Sentinel() {
      assert b.Nodes()[1..] == b.parents == n.Nodes()[1..];
      assert b.parents[0] == b.Nodes()[1];
    }
  }

  /** What `next(tag)` returns from a box on a nested chain is on a nested chain. */
  lemma NextTaggedNested(data: seq<Byte>, b: Box, tag: U32, r: Box)
    requires b.parents != [] && Nested(b.Nodes())
    requires IsEarliest(Siblings(data, Next(data, b)), tag, false, r)
    ensures Nested(r.Nodes())
  {
    NextNested(data, b);
    EarliestNested(data, Next(data, b), tag, false, r);
  }

  /**
   * `append(tag, P, data)` keeps chains nested: the grown box is on a nested
   * chain, and so is the new child, when the box it is appended to is the
   * file or holds at least its own header.
   */
  lemma AppendChildNested(data: seq<Byte>, limit: nat, b: Box, tag: U32, payloadSize: nat, payload: Payload)
    requires payload.Buffer? ==> payloadSize <= |payload.bytes|
    requires Nested(b.Nodes()) && (b.node.tag == 0 || b.node.size >= 8)
    ensures var a := AppendChild(data, limit, b, tag, payloadSize, payload);
      && Nested(a.grown.Nodes())
      && Nested(a.child.Nodes())
      && a.child.node.size >= 4
  {
    var a := AppendChild(data, limit, b, tag, payloadSize, payload);
    AppendChildGrows(data, limit, b, tag, payloadSize, payload);
    NestedShape(b.Nodes(), a.grown.Nodes());
    assert a.child.Nodes()[1..] == a.grown.Nodes();
    assert a.child.Nodes()[1] == a.grown.Nodes()[0];
  }
}
