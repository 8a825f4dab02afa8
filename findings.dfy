/**
 * Two places where the engine does not do what its documentation promises,
 * each shown on a concrete input against the code as written, next to a
 * corrected definition with the intended property proved about it.
 *
 * `isLast` is documented as "this box is last in file", but it compares the
 * box's end with the size the file had when it was opened, which no append
 * ever changes. `read` is documented as reading part of a box's payload, but
 * it clips the count to the whole payload size instead of to what is left
 * after `offset`, so it can copy bytes that belong to the next box.
 */
module SisoFindings {
  import opened Codec
  import opened Stream
  import opened Siso
  import opened SisoProperties

  // ---------------------------------------------------------------------------
  // isLast
  // ---------------------------------------------------------------------------

  /** The type code `TEST`. */
  const TestTag: U32 := 0x54455354

  /** The handle an empty file opens as. */
  function EmptyRoot(): Box { Box(Node(0, 0, 0), [], true) }

  /**
   * Appending a 4-byte child to an empty file, at the root: the file becomes
   * the child's 12 bytes (big-endian size 12, the type code, the payload),
   * but `isLast` says the new child is not last, because the file's recorded
   * size is still 0.
   */
  lemma AppendToEmptyFile(data: seq<Byte>, limit: nat, root: Box, payload: Payload)
    requires data == [] && root == EmptyRoot() && payload == Buffer([1, 2, 3, 4]) && limit >= 12
    ensures var a := AppendChild(data, limit, root, TestTag, 4, payload);
      && a.data == [0, 0, 0, 12, 0x54, 0x45, 0x53, 0x54, 1, 2, 3, 4]
      && a.child.node == Node(TestTag, 12, 0)
      && !IsLast(a.child)
  {
    var a := AppendChild(data, limit, root, TestTag, 4, payload);
    EmptyFileLayout(data, limit, root, TestTag, 4, payload);
    assert Content(payload, 4) == [1, 2, 3, 4];
    TestHeader();
    TestFile(a.data, HeaderBytes(Node(TestTag, 12, 0)), [1, 2, 3, 4]);
  }

  /** The 8 header bytes of the `TEST` box followed by its payload `[1, 2, 3, 4]`. */
  lemma TestFile(d: seq<Byte>, h: seq<Byte>, p: seq<Byte>)
    requires h == [0, 0, 0, 12, 0x54, 0x45, 0x53, 0x54] && p == [1, 2, 3, 4] && d == h + p
    ensures d == [0, 0, 0, 12, 0x54, 0x45, 0x53, 0x54, 1, 2, 3, 4]
  {
  }

  /**
   * Appending to an empty file, at the root: the file becomes the child's
   * header and payload, and `isLast` says the child is not last.
   */
  lemma EmptyFileLayout(data: seq<Byte>, limit: nat, root: Box, tag: U32, payloadSize: nat, payload: Payload)
    requires data == [] && root == EmptyRoot()
    requires (payload.Buffer? ==> payloadSize <= |payload.bytes|) && limit >= payloadSize + 8
    ensures var a := AppendChild(data, limit, root, tag, payloadSize, payload);
      && a.data == HeaderBytes(Node(tag, payloadSize + 8, 0)) + Content(payload, payloadSize)
      && a.child.node == Node(tag, payloadSize + 8, 0)
      && !IsLast(a.child)
  {
    var a := AppendChild(data, limit, root, tag, payloadSize, payload);
    var c := Node(tag, payloadSize + 8, 0);
    assert root.End() == 0 && Nested(root.Nodes());
    AppendChildLayout(data, limit, root, tag, payloadSize, payload);
    assert a.child.node == c && |a.data| == 8 + payloadSize;
    assert Fetch(a.data, 0, 8) == HeaderBytes(c) && Fetch(a.data, 8, payloadSize) == Content(payload, payloadSize);
    AppendChildIsLast(data, limit, root, tag, payloadSize, payload);
    TwoParts(a.data, HeaderBytes(c), Content(payload, payloadSize));
  }

  /** The header of a 12-byte `TEST` box at offset 0. */
  lemma TestHeader()
    ensures HeaderBytes(Node(TestTag, 12, 0)) == [0, 0, 0, 12, 0x54, 0x45, 0x53, 0x54]
  {
    assert SizeField(12) == 12;
    assert BigEndian(12, 4) == [0, 0, 0, 12];
    assert BigEndian(TestTag, 4) == [0x54, 0x45, 0x53, 0x54];
  }

  /** A file that holds `h` from its start and `p` right after it, and nothing more, is `h + p`. */
  lemma TwoParts(d: seq<Byte>, h: seq<Byte>, p: seq<Byte>)
    requires |d| == |h| + |p| && Fetch(d, 0, |h|) == h && Fetch(d, |h|, |p|) == p
    ensures d == h + p
  {
    FetchInside(d, 0, |h|);
    FetchInside(d, |h|, |p|);
    assert d == d[..|h|] + d[|h|..];
  }

  /** Corrected `isLast`: the box ends where the file currently ends. */
  predicate IsLastInFile(b: Box, data: seq<Byte>) {
    b.End() == |data|
  }

  /**
   * With the corrected test, a child appended at the end of the file is
   * last, whatever size the file had when it was opened.
   */
  lemma AppendChildLastInFile(data: seq<Byte>, limit: nat, b: Box, tag: U32, payloadSize: nat, payload: Payload)
    requires payload.Buffer? ==> payloadSize <= |payload.bytes|
    requires Nested(b.Nodes()) && (b.node.tag != 0 ==> b.node.size >= 4)
    requires Fits(limit, b.End(), payloadSize + 8)
    requires b.End() >= |data|
    ensures var a := AppendChild(data, limit, b, tag, payloadSize, payload);
      IsLastInFile(a.child, a.data)
  {
    AppendChildLayout(data, limit, b, tag, payloadSize, payload);
  }

  /** As long as the file still has the length it was opened with, both tests agree. */
  lemma IsLastAgrees(b: Box, data: seq<Byte>)
    requires b.Top().size == |data|
    ensures IsLast(b) <==> IsLastInFile(b, data)
  {
  }

  /** On the empty file, the corrected test reports the appended child as last. */
  lemma AppendToEmptyFileIsLast(data: seq<Byte>, limit: nat, root: Box, payload: Payload)
    requires data == [] && root == EmptyRoot() && payload == Buffer([1, 2, 3, 4]) && limit >= 12
    ensures var a := AppendChild(data, limit, root, TestTag, 4, payload);
      IsLastInFile(a.child, a.data)
  {
    AppendChildLastInFile(data, limit, root, TestTag, 4, payload);
  }

  // ---------------------------------------------------------------------------
  // read
  // ---------------------------------------------------------------------------

  /**
   * A 16-byte box (8 payload bytes) followed by another box: reading 8 bytes
   * from payload offset 4 copies 8 bytes, the last 4 of which lie past the
   * box's end.
   */
  lemma ReadPastBoxEnd()
    ensures var b := Box(Node(TestTag, 16, 0), [Node(0, 32, 0)], true);
      && ReadCount(Zeros(32), b, 4, 8) == 8
      && PayloadPos(b, 4) + ReadCount(Zeros(32), b, 4, 8) > b.End()
  {
  }

  /** Corrected count: `bytes` clipped to what is left of the payload after `offset`, and to what the file has. */
  function ClippedReadCount(data: seq<Byte>, b: Box, offset: nat, bytes: nat): (k: nat)
    ensures k <= bytes
    ensures k > 0 ==> PayloadPos(b, offset) + k <= b.End() && PayloadPos(b, offset) + k <= |data|
    ensures offset + 8 < b.node.size && k < Min(bytes, b.node.size - 8 - offset) ==> PayloadPos(b, offset) + k >= |data|
  {
    if offset + 8 >= b.node.size then 0
    else Readable(data, PayloadPos(b, offset), Min(bytes, b.node.size - 8 - offset))
  }

  /**
   * The corrected count copies every byte asked for that lies in both the
   * payload and the file: it is the least of `bytes`, the payload left after
   * `offset` and the file left after the read position.
   */
  lemma ClippedReadIsMaximal(data: seq<Byte>, b: Box, offset: nat, bytes: nat)
    requires offset + 8 < b.node.size && PayloadPos(b, offset) < |data|
    ensures ClippedReadCount(data, b, offset, bytes)
         == Min(bytes, Min(b.End() - PayloadPos(b, offset), |data| - PayloadPos(b, offset)))
  {
  }

  /** From the start of the payload both counts agree: the bug only shows for a non-zero offset. */
  lemma ClippedReadAgreesAtStart(data: seq<Byte>, b: Box, bytes: nat)
    ensures ClippedReadCount(data, b, 0, bytes) == ReadCount(data, b, 0, bytes)
  {
  }
}
