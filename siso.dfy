/**
 * The box engine of `siso.h`: reading and writing the box structure of the
 * ISO base media file format (ISO/IEC 14496-12, section 4.2, "Object
 * Structure") and of QuickTime atoms, using the compact header only: a
 * big-endian 32-bit size followed by the 4-byte type code.
 *
 * A box handle is a value: type code, size, header offset, the chain of its
 * ancestors and whether it holds the open stream. The file's bytes live in a
 * `File` object, whose methods are the operations that read or change them.
 */
module Siso {
  import opened Codec
  import opened Stream

  /** One box as a handle records it: type code in host order (0 for the file itself), size including the header, offset of the header. */
  datatype Node = Node(tag: U32, size: nat, offset: nat) {
    /** `end()`: the offset just past the box. */
    function End(): nat { offset + size }
  }

  /**
   * A box handle. `parents` stands for the source's parent pointer chain,
   * nearest ancestor first, ending with the file; `attached` says whether the
   * handle holds the open stream (a non-null `fd`).
   */
  datatype Box = Box(node: Node, parents: seq<Node>, attached: bool) {
    function End(): nat { node.End() }

    /** `operator bool`: the box exists. */
    predicate Exists() { node.size != 0 }

    function Parent(): Box
      requires parents != []
    {
      Box(parents[0], parents[1..], attached)
    }

    /** The box followed by its ancestors. */
    function Nodes(): seq<Node> { [node] + parents }

    /** The outermost box of the chain, where `isLast` ends its walk up the parent pointers. */
    function Top(): Node { if parents == [] then node else parents[|parents| - 1] }
  }

  /** `box()`: the absent box a search returns when it finds nothing. */
  function Sentinel(): Box { Box(Node(0, 0, 0), [], false) }

  /** The size as a header stores it: `swap32` takes a `uint32_t`, so only the low 32 bits of the size survive. */
  function SizeField(size: nat): U32 {
    size % 0x1_0000_0000
  }

  /**
   * The 4 bytes `resize` writes for a size: the size field in network byte
   * order. The source writes `swap32` of the field as the host keeps it in
   * memory, which is the same bytes (`Codec.BigEndianIsSwapped`).
   */
  function SizeBytes(size: nat): (f: seq<Byte>)
    ensures |f| == 4
  {
    BigEndian(SizeField(size), 4)
  }

  /** What a header read at `offset` gives as the size: the first word, in network byte order. */
  function SizeFieldAt(data: seq<Byte>, offset: nat): nat {
    FromBigEndian(Fetch(data, offset, 4))
  }

  /** The 8 bytes `writeHeader` writes: the size field, then the type code, both in network byte order. */
  function HeaderBytes(n: Node): (h: seq<Byte>)
    ensures |h| == 8
  {
    SizeBytes(n.size) + BigEndian(n.tag, 4)
  }

  /**
   * `box(offset, parent)`: the handle for the box whose header is read at
   * `offset`: both words in network byte order, which is what `swap32` makes
   * of them (`Codec.FromBigEndianIsSwapped`). Header bytes past the end of the
   * file read as zero.
   */
  function HeaderBox(data: seq<Byte>, offset: nat, parent: Box): Box {
    var h := Fetch(data, offset, 8);
    Box(Node(FromBigEndian(h[4..8]), FromBigEndian(h[..4]), offset), parent.Nodes(), parent.attached)
  }

  /** `next()`: the box at this box's end while that is before the parent's end, otherwise the sentinel. */
  function Next(data: seq<Byte>, b: Box): Box
    requires b.parents != []
  {
    if b.End() < b.Parent().End() then HeaderBox(data, b.End(), b.Parent()) else Sentinel()
  }

  /** Room left between a box's offset and its parent's end: what bounds a sibling walk. */
  function SiblingSpan(c: Box): nat {
    if c.parents == [] then 0
    else if c.node.offset <= c.Parent().End() then c.Parent().End() - c.node.offset + 1
    else 1
  }

  /**
   * The boxes a sibling walk visits from `c` on, as `first` and `next(tag)`
   * do: every box exists and shares `c`'s parent, and every one after `c`
   * starts later than `c` and before the parent's end.
   */
  function Siblings(data: seq<Byte>, c: Box): (s: seq<Box>)
    ensures s != [] ==> c.parents != [] && s[0] == c
    ensures forall i :: 0 <= i < |s| ==> s[i].Exists() && s[i].parents == c.parents && s[i].attached == c.attached
    ensures forall i :: 0 < i < |s| ==> c.node.offset < s[i].node.offset < c.Parent().End()
    decreases SiblingSpan(c)
  {
    if c.parents == [] || !c.Exists() then []
    else
      var n := Next(data, c);
      assert n.Exists() ==> n.parents == c.parents && n.node.offset == c.End() && n.node.offset < c.Parent().End();
      assert n.Exists() ==> n.Parent() == c.Parent();
      [c] + Siblings(data, n)
  }

  /** The tag test of a sibling walk: `first` takes any box when asked for tag 0, `next(tag)` always compares. */
  predicate Wanted(c: Box, tag: U32, anyTag: bool) {
    anyTag || c.node.tag == tag
  }

  /** `r` is the earliest box of `s` that is wanted, or the sentinel when none is. */
  predicate IsEarliest(s: seq<Box>, tag: U32, anyTag: bool, r: Box) {
    || (r == Sentinel() && forall i :: 0 <= i < |s| ==> !Wanted(s[i], tag, anyTag))
    || (exists i :: 0 <= i < |s| && r == s[i] && Wanted(s[i], tag, anyTag)
                    && forall j :: 0 <= j < i ==> !Wanted(s[j], tag, anyTag))
  }

  /** Siblings are contiguous: each box of a walk starts exactly where the one before it ends. */
  lemma {:induction false} SiblingsContiguous(data: seq<Byte>, c: Box, i: nat)
    requires 0 < i < |Siblings(data, c)|
    ensures Siblings(data, c)[i].node.offset == Siblings(data, c)[i - 1].End()
    decreases i
  {
    var n := Next(data, c);
    assert Siblings(data, c) == [c] + Siblings(data, n);
    if i > 1 {
      SiblingsContiguous(data, n, i - 1);
    }
  }

  /** A walk from a box of a known chain is empty exactly when that box is absent, and otherwise starts with it. */
  lemma SiblingsStart(data: seq<Byte>, c: Box)
    requires c.parents != []
    ensures Siblings(data, c) == [] <==> !c.Exists()
    ensures c.Exists() ==> Siblings(data, c)[0] == c
  {
  }

  /** Each box of a walk is followed by its `next()`, and the box after the last one is absent. */
  lemma {:induction false} SiblingsAdvance(data: seq<Byte>, c: Box, i: nat)
    requires i < |Siblings(data, c)|
    ensures Siblings(data, c)[i].parents != []
    ensures i + 1 < |Siblings(data, c)| ==> Siblings(data, c)[i + 1] == Next(data, Siblings(data, c)[i])
    ensures i + 1 == |Siblings(data, c)| ==> !Next(data, Siblings(data, c)[i]).Exists()
    decreases i
  {
    var n := Next(data, c);
    assert Siblings(data, c) == [c] + Siblings(data, n);
    if i == 0 {
      if n.Exists() {
        assert n.parents == c.parents;
        SiblingsStart(data, n);
      }
    } else {
      SiblingsAdvance(data, n, i - 1);
    }
  }

  /** A wanted box reached after only unwanted ones is the earliest. */
  lemma EarliestAt(s: seq<Box>, i: nat, tag: U32, anyTag: bool)
    requires i < |s| && Wanted(s[i], tag, anyTag)
    requires forall j :: 0 <= j < i ==> !Wanted(s[j], tag, anyTag)
    ensures IsEarliest(s, tag, anyTag, s[i])
  {
  }

  /** A walk that passed only unwanted boxes has found nothing. */
  lemma EarliestNone(s: seq<Box>, tag: U32, anyTag: bool)
    requires forall j :: 0 <= j < |s| ==> !Wanted(s[j], tag, anyTag)
    ensures IsEarliest(s, tag, anyTag, Sentinel())
  {
  }

  /** Where `first` reads the first child: after the header and `extra` bytes, or at 0 for the file (tag 0). */
  function FirstStart(b: Box, extra: nat): nat {
    if b.node.tag != 0 then b.node.offset + 8 + extra else 0
  }

  /** `isLast`: the box ends where the outermost box of its chain ends. */
  predicate IsLast(b: Box) {
    b.End() == b.Top().size
  }

  /**
   * Every tagged parent starts at least a header's length before its child.
   * The file's root is such a chain, and `first`, `next` and `append` keep it
   * (`SisoProperties.FirstNested`, `NextTaggedNested`, `AppendChildNested`).
   */
  predicate Nested(nodes: seq<Node>) {
    |nodes| < 2 || ((nodes[1].tag != 0 ==> nodes[1].offset + 8 <= nodes[0].offset) && Nested(nodes[1..]))
  }

  /**
   * Level `i` of a resize: its size grows when it and every level below it are
   * tagged (the file, tag 0, ends the walk) and the size write of every level
   * below it succeeded (a failure ends the walk).
   */
  predicate Grows(nodes: seq<Node>, limit: nat, i: nat) {
    && i < |nodes|
    && (forall j :: 0 <= j <= i ==> nodes[j].tag != 0)
    && (forall j :: 0 <= j < i ==> Fits(limit, nodes[j].offset, 4))
  }

  /** The state after a resize: the file's bytes, the chain with its new sizes, the result code. */
  datatype Grown = Grown(data: seq<Byte>, nodes: seq<Node>, status: int)

  /**
   * `resize(delta)` applied to the chain `nodes` (the box first): each level
   * adds `delta` to its size and writes the new size field at its offset,
   * until the file (tag 0) is reached or a write fails.
   */
  function Propagate(data: seq<Byte>, limit: nat, nodes: seq<Node>, delta: nat): (g: Grown)
    ensures |g.nodes| == |nodes|
    decreases |nodes|
  {
    if nodes == [] || nodes[0].tag == 0 then Grown(data, nodes, 0)
    else
      var n := nodes[0].(size := nodes[0].size + delta);
      var written := Stored(data, limit, n.offset, SizeBytes(n.size));
      if !Fits(limit, n.offset, 4) then Grown(written, [n] + nodes[1..], -1)
      else
        var g := Propagate(written, limit, nodes[1..], delta);
        Grown(g.data, [n] + g.nodes, g.status)
  }

  /**
   * One level of a resize, for a tagged head: its size field is written
   * (giving `written`), then on success the rest of the chain, `tail`.
   */
  lemma PropagateStep(data: seq<Byte>, limit: nat, nodes: seq<Node>, delta: nat, written: seq<Byte>, tail: seq<Node>)
    requires nodes != [] && nodes[0].tag != 0 && tail == nodes[1..]
    requires written == Stored(data, limit, nodes[0].offset, SizeBytes(nodes[0].size + delta))
    ensures var g := Propagate(data, limit, nodes, delta);
      var rest := Propagate(written, limit, tail, delta);
      && g.nodes[0] == nodes[0].(size := nodes[0].size + delta)
      && g.nodes[1..] == (if Fits(limit, nodes[0].offset, 4) then rest.nodes else tail)
      && g.data == (if Fits(limit, nodes[0].offset, 4) then rest.data else written)
      && g.status == (if Fits(limit, nodes[0].offset, 4) then rest.status else -1)
  {
    var g := Propagate(data, limit, nodes, delta);
    if Fits(limit, nodes[0].offset, 4) {
      assert g.nodes == [nodes[0].(size := nodes[0].size + delta)] + Propagate(written, limit, tail, delta).nodes;
    } else {
      assert g.nodes == [nodes[0].(size := nodes[0].size + delta)] + tail;
    }
  }

  /** The handle a resize leaves behind for the box at the head of the chain. */
  function GrownBox(g: Grown, attached: bool): Box
    requires g.nodes != []
  {
    Box(g.nodes[0], g.nodes[1..], attached)
  }

  /** The outcome of `append(tag, payloadSize, data)`: the file, the new child, and the grown box. */
  datatype Appended = Appended(data: seq<Byte>, child: Box, grown: Box)

  function ChildNode(b: Box, tag: U32, payloadSize: nat): Node {
    Node(tag, payloadSize + 8, b.End())
  }

  /** The file once the new child's header and payload are written, before any size is changed. */
  function Staged(data: seq<Byte>, limit: nat, b: Box, tag: U32, payloadSize: nat, payload: Payload): seq<Byte>
    requires payload.Buffer? ==> payloadSize <= |payload.bytes|
  {
    var c := ChildNode(b, tag, payloadSize);
    Stored(Stored(data, limit, c.offset, HeaderBytes(c)), limit, c.offset + 8, Content(payload, payloadSize))
  }

  function AppendChild(data: seq<Byte>, limit: nat, b: Box, tag: U32, payloadSize: nat, payload: Payload): Appended
    requires payload.Buffer? ==> payloadSize <= |payload.bytes|
  {
    var g := Propagate(Staged(data, limit, b, tag, payloadSize, payload), limit, b.Nodes(), payloadSize + 8);
    var grown := GrownBox(g, b.attached);
    Appended(g.data, Box(ChildNode(b, tag, payloadSize), grown.Nodes(), b.attached), grown)
  }

  /** The outcome of `append(data, bytes)`: the bytes go at the box's end, then the box and its ancestors grow. */
  function AppendRaw(data: seq<Byte>, limit: nat, b: Box, payload: Payload, bytes: nat): Grown
    requires payload.Buffer? ==> bytes <= |payload.bytes|
  {
    Propagate(Stored(data, limit, b.End(), Content(payload, bytes)), limit, b.Nodes(), bytes)
  }

  /** Where `read` and `update` put payload-relative `offset`: after the 8-byte header. */
  function PayloadPos(b: Box, offset: nat): nat {
    b.node.offset + 8 + offset
  }

  /**
   * How many bytes `read(offset, buf, bytes)` copies: none once `offset` is
   * past the payload, otherwise `bytes` clipped to `size - 8` and to what the
   * file still has: a count below the clipped request means the file ended.
   */
  function ReadCount(data: seq<Byte>, b: Box, offset: nat, bytes: nat): (k: nat)
    ensures k <= bytes
    ensures k > 0 ==> offset + 8 < b.node.size && k <= b.node.size - 8 && PayloadPos(b, offset) + k <= |data|
    ensures offset + 8 < b.node.size && k < Min(bytes, b.node.size - 8) ==> PayloadPos(b, offset) + k >= |data|
  {
    if offset + 8 >= b.node.size then 0
    else Readable(data, PayloadPos(b, offset), Min(bytes, b.node.size - 8))
  }

  /** The open file: its bytes, the capacity of the device, and the root box. */
  class File {
    var data: seq<Byte>
    const limit: nat
    /** The file as a headerless box of tag 0, with the length the file had when it was opened. */
    const root: Box

    ghost predicate Valid()
      reads this
    {
      root.node.tag == 0 && root.node.offset == 0 && root.parents == [] && root.node.size <= |data|
    }

    /**
     * `box(path)`: `isOpen` says whether `fopen` succeeded, `contents` is what
     * the file then holds. A file that did not open is an absent root.
     */
    constructor Open(isOpen: bool, contents: seq<Byte>, limit: nat)
      ensures Valid() && this.limit == limit
      ensures isOpen ==> data == contents && root == Box(Node(0, |contents|, 0), [], true)
      ensures !isOpen ==> data == [] && root == Sentinel() && !root.Exists()
    {
      this.limit := limit;
      if isOpen {
        data := contents;
        root := Box(Node(0, |contents|, 0), [], true);
      } else {
        data := [];
        root := Sentinel();
      }
    }

    /** `fwrite` after `fseek(pos)`: stores what fits on the device and returns how many bytes that was. */
    method Put(pos: nat, d: seq<Byte>) returns (k: nat)
      requires Valid()
      modifies this
      ensures Valid()
      ensures data == Stored(old(data), limit, pos, d)
      ensures k == Accepted(limit, pos, |d|)
    {
      StoredLength(data, limit, pos, d);
      data := Stored(data, limit, pos, d);
      k := Accepted(limit, pos, |d|);
    }

    /** `fread` after `fseek(pos)`: the bytes the file has in the next `n`. */
    method Get(pos: nat, n: nat) returns (k: nat, buf: seq<Byte>)
      ensures k == Readable(data, pos, n) && |buf| == k
      ensures k > 0 ==> buf == data[pos..pos + k]
    {
      k := Readable(data, pos, n);
      buf := if k == 0 then [] else data[pos..pos + k];
    }

    /** `clear(offset, bytes)`: writes zeros in chunks of 32; only the last chunk's result decides the result code. */
    method Clear(pos: nat, bytes: nat) returns (status: int)
      requires Valid()
      modifies this
      ensures Valid()
      ensures data == Stored(old(data), limit, pos, Zeros(bytes))
      ensures status == (if Fits(limit, pos, bytes) then 0 else -1)
    {
      var at := pos;
      var left: nat := bytes;
      ghost var done: nat := 0;
      while left > 32
        invariant Valid()
        invariant done + left == bytes && (bytes > 0 ==> left > 0)
        invariant at == pos + Accepted(limit, pos, done)
        invariant data == Stored(old(data), limit, pos, Zeros(done))
      {
        ZerosStep(old(data), limit, pos, done, 32, done + 32);
        var k := Put(at, Zeros(32));
        at := at + k;
        left := left - 32;
        done := done + 32;
      }
      ZerosStep(old(data), limit, pos, done, left, bytes);
      var k := Put(at, Zeros(left));
      status := if k == left then 0 else -1;
    }

    /** `write(offset, data, bytes)`: the buffer's bytes, or zeros for a null buffer; 0 when all were stored, -1 otherwise. */
    method Write(pos: nat, payload: Payload, bytes: nat) returns (status: int)
      requires Valid()
      requires payload.Buffer? ==> bytes <= |payload.bytes|
      modifies this
      ensures Valid()
      ensures data == Stored(old(data), limit, pos, Content(payload, bytes))
      ensures status == (if Fits(limit, pos, bytes) then 0 else -1)
    {
      if payload.Null? {
        status := Clear(pos, bytes);
        return;
      }
      var k := Put(pos, payload.bytes[..bytes]);
      status := if k == bytes then 0 else -1;
    }

    /** `writeHeader`: the box's size and type code, big-endian, at its offset; the result is dropped. */
    method WriteHeader(b: Box)
      requires Valid() && b.attached
      modifies this
      ensures Valid()
      ensures data == Stored(old(data), limit, b.node.offset, HeaderBytes(b.node))
    {
      var h := HostBytes32(Swap32(SizeField(b.node.size))) + HostBytes32(Swap32(b.node.tag));
      BigEndianIsSwapped(SizeField(b.node.size));
      BigEndianIsSwapped(b.node.tag);
      assert h == HeaderBytes(b.node);
      assert Content(Buffer(h), 8) == h;
      var ignored := Write(b.node.offset, Buffer(h), 8);
    }

    /**
     * `resize(bytes)`: nothing for the file (tag 0); otherwise the size grows,
     * the new size field is written, and on success the parent is resized in
     * turn. The first failed write ends the walk with -1.
     */
    method Resize(b: Box, delta: nat) returns (status: int, grown: Box)
      requires Valid() && (b.attached || b.node.tag == 0)
      modifies this
      ensures Valid()
      ensures var g := Propagate(old(data), limit, b.Nodes(), delta);
        data == g.data && status == g.status && grown == GrownBox(g, b.attached)
      decreases |b.parents|
    {
      assert b.Nodes()[0] == b.node && b.Nodes()[1..] == b.parents;
      if b.node.tag == 0 {
        return 0, b;
      }
      var n := b.node.(size := b.node.size + delta);
      var field := HostBytes32(Swap32(SizeField(n.size)));
      BigEndianIsSwapped(SizeField(n.size));
      assert field == SizeBytes(n.size);
      assert Content(Buffer(field), 4) == field;
      var s := Write(n.offset, Buffer(field), 4);
      assert data == Stored(old(data), limit, n.offset, field);
      assert b.Nodes()[0].offset == n.offset && b.Nodes()[0].size + delta == n.size;
      PropagateStep(old(data), limit, b.Nodes(), delta, data, b.parents);
      if s != 0 {
        return -1, Box(n, b.parents, b.attached);
      }
      if b.parents == [] {
        return 0, Box(n, [], b.attached);
      }
      assert b.Parent().Nodes() == b.parents && b.Parent().attached == b.attached;
      ghost var rest := Propagate(data, limit, b.parents, delta);
      var upper: Box;
      status, upper := Resize(b.Parent(), delta);
      assert upper.Nodes() == rest.nodes;
      grown := Box(n, upper.Nodes(), b.attached);
    }

    /**
     * `append(tag, payloadSize, data)`: a new child at this box's end with
     * size `payloadSize + 8`, its header, its payload (zeros for a null
     * buffer), then this box and its ancestors grow by `payloadSize + 8`. The
     * child's parent is the grown box.
     */
    method Append(b: Box, tag: U32, payloadSize: nat, payload: Payload) returns (child: Box, grown: Box)
      requires Valid() && b.attached
      requires payload.Buffer? ==> payloadSize <= |payload.bytes|
      modifies this
      ensures Valid()
      ensures var a := AppendChild(old(data), limit, b, tag, payloadSize, payload);
        data == a.data && child == a.child && grown == a.grown
    {
      var c := Box(ChildNode(b, tag, payloadSize), b.Nodes(), b.attached);
      ghost var staged := Staged(old(data), limit, b, tag, payloadSize, payload);
      WriteHeader(c);
      if payloadSize != 0 {
        var ignored := Write(c.node.offset + 8, payload, payloadSize);
      } else {
        StoredNothing(data, limit, c.node.offset + 8, Content(payload, payloadSize));
      }
      assert data == staged;
      ghost var g := Propagate(staged, limit, b.Nodes(), payloadSize + 8);
      var ignored;
      ignored, grown := Resize(b, payloadSize + 8);
      assert data == g.data && grown == GrownBox(g, b.attached);
      child := Box(c.node, grown.Nodes(), b.attached);
    }

    /** `append(data, bytes)`: the bytes (zeros for a null buffer) at this box's end, then the resize; its code is the result. */
    method AppendBytes(b: Box, payload: Payload, bytes: nat) returns (status: int, grown: Box)
      requires Valid() && b.attached
      requires payload.Buffer? ==> bytes <= |payload.bytes|
      modifies this
      ensures Valid()
      ensures var g := AppendRaw(old(data), limit, b, payload, bytes);
        data == g.data && status == g.status && grown == GrownBox(g, b.attached)
    {
      var ignored := Write(b.End(), payload, bytes);
      status, grown := Resize(b, bytes);
    }

    /**
     * `update(offset, data, bytes)`: -1 and no write when the range passes the
     * box's end; otherwise the bytes go after the header at `offset`, and no
     * other byte of the file changes.
     */
    method Update(b: Box, offset: nat, payload: Payload, bytes: nat) returns (status: int)
      requires Valid()
      requires offset + 8 + bytes <= b.node.size ==> b.attached && (payload.Buffer? ==> bytes <= |payload.bytes|)
      modifies this
      ensures Valid()
      ensures offset + 8 + bytes > b.node.size ==> status == -1 && data == old(data)
      ensures offset + 8 + bytes <= b.node.size ==>
        && data == Stored(old(data), limit, PayloadPos(b, offset), Content(payload, bytes))
        && status == (if Fits(limit, PayloadPos(b, offset), bytes) then 0 else -1)
      ensures forall p :: 0 <= p < |old(data)| && !(PayloadPos(b, offset) <= p < PayloadPos(b, offset) + bytes) ==>
        p < |data| && data[p] == old(data)[p]
      ensures b.End() <= |old(data)| ==> |data| == |old(data)|
    {
      if offset + 8 + bytes > b.node.size {
        return -1;
      }
      ghost var before := data;
      status := Write(PayloadPos(b, offset), payload, bytes);
      StoredLength(before, limit, PayloadPos(b, offset), Content(payload, bytes));
      forall p | 0 <= p < |before| && !(PayloadPos(b, offset) <= p < PayloadPos(b, offset) + bytes)
        ensures p < |data| && data[p] == before[p]
      {
        StoredFrame(before, limit, PayloadPos(b, offset), Content(payload, bytes), p);
      }
    }

    /**
     * `read(offset, buf, bytes)`: copies from after the header at `offset`.
     * It copies nothing once `offset` is past the payload, and never more than
     * `size - 8` bytes.
     */
    method Read(b: Box, offset: nat, bytes: nat) returns (n: nat, buf: seq<Byte>)
      requires offset + 8 < b.node.size ==> b.attached
      ensures n == ReadCount(data, b, offset, bytes) && |buf| == n
      ensures n > 0 ==> buf == data[PayloadPos(b, offset)..PayloadPos(b, offset) + n]
    {
      if offset + 8 >= b.node.size {
        return 0, [];
      }
      var want := bytes;
      if want > b.node.size - 8 {
        want := b.node.size - 8;
      }
      n, buf := Get(b.node.offset + offset + 8, want);
    }

    /** `box(offset, parent)`: reads the 8 header bytes at `offset`; bytes the file does not have read as zero. */
    method ReadHeader(offset: nat, parent: Box) returns (b: Box)
      ensures b == HeaderBox(data, offset, parent)
    {
      var k, buf := Get(offset, 8);
      var h := buf + Zeros(8 - k);
      assert h == Fetch(data, offset, 8);
      FromBigEndianIsSwapped(h[4..8]);
      FromBigEndianIsSwapped(h[..4]);
      b := Box(Node(Swap32(FromHostBytes32(h[4..8])), Swap32(FromHostBytes32(h[..4])), offset),
               parent.Nodes(), parent.attached);
    }

    /** `next()`: the box whose header is at this box's end while that is before the parent's end, otherwise the sentinel. */
    method NextSibling(b: Box) returns (r: Box)
      requires b.parents != []
      ensures r == Next(data, b)
      ensures r.Exists() ==> r.node.offset == b.End() && r.parents == b.parents && r.End() == r.node.offset + r.node.size
    {
      if b.End() < b.Parent().End() {
        r := ReadHeader(b.End(), b.Parent());
      } else {
        r := Sentinel();
      }
    }

    /**
     * `first(tag, extra)`: the sentinel when the start is not before this
     * box's end; otherwise the earliest box of the sibling walk from the start
     * with the given tag (any box for tag 0), or the sentinel.
     */
    method First(b: Box, tag: U32, extra: nat) returns (r: Box)
      requires FirstStart(b, extra) < b.End() ==> b.attached
      ensures FirstStart(b, extra) >= b.End() ==> r == Sentinel()
      ensures FirstStart(b, extra) < b.End() ==>
        IsEarliest(Siblings(data, HeaderBox(data, FirstStart(b, extra), b)), tag, tag == 0, r)
    {
      var start := FirstStart(b, extra);
      if start < b.End() {
        var c := ReadHeader(start, b);
        ghost var head := c;
        ghost var walk := Siblings(data, head);
        SiblingsStart(data, head);
        ghost var i: nat := 0;
        while c.Exists()
          invariant i <= |walk|
          invariant i < |walk| ==> c == walk[i]
          invariant i == |walk| ==> !c.Exists()
          invariant forall j :: 0 <= j < i ==> !Wanted(walk[j], tag, tag == 0)
          decreases |walk| - i
        {
          if Wanted(c, tag, tag == 0) {
            EarliestAt(walk, i, tag, tag == 0);
            return c;
          }
          SiblingsAdvance(data, head, i);
          c := NextSibling(c);
          i := i + 1;
        }
        EarliestNone(walk, tag, tag == 0);
      }
      return Sentinel();
    }

    /** `operator[](type)`: the same as `first(type)`. */
    method Index(b: Box, tag: U32) returns (r: Box)
      requires FirstStart(b, 0) < b.End() ==> b.attached
      ensures FirstStart(b, 0) >= b.End() ==> r == Sentinel()
      ensures FirstStart(b, 0) < b.End() ==> IsEarliest(Siblings(data, HeaderBox(data, FirstStart(b, 0), b)), tag, tag == 0, r)
    {
      r := First(b, tag, 0);
    }

    /** `next(tag)`: the earliest later sibling whose tag equals `tag`, or the sentinel. */
    method NextTagged(b: Box, tag: U32) returns (r: Box)
      requires b.parents != []
      requires b.End() < b.Parent().End() ==> b.attached
      ensures IsEarliest(Siblings(data, Next(data, b)), tag, false, r)
    {
      var c := NextSibling(b);
      ghost var head := c;
      ghost var walk := Siblings(data, head);
      if c.Exists() {
        SiblingsStart(data, head);
      }
      ghost var i: nat := 0;
      while c.Exists()
        invariant i <= |walk|
        invariant i < |walk| ==> c == walk[i]
        invariant i == |walk| ==> !c.Exists()
        invariant forall j :: 0 <= j < i ==> !Wanted(walk[j], tag, false)
        decreases |walk| - i
      {
        if c.node.tag == tag {
          EarliestAt(walk, i, tag, false);
          return c;
        }
        SiblingsAdvance(data, head, i);
        c := NextSibling(c);
        i := i + 1;
      }
      EarliestNone(walk, tag, false);
      return Sentinel();
    }
  }
}
