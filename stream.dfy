/**
 * The byte stream the engine works on, as seen through `fseek`, `fwrite` and
 * `fread`.
 *
 * The file is a sequence of bytes. The device behind it holds at most `limit`
 * bytes: a write that would pass this point is short, storing only the bytes
 * below it, which is how a write can fail (a full disk, a quota). Seeking past
 * the end of the file and writing there fills the gap with zeros, as on a
 * POSIX file system. Reading past the end yields fewer bytes.
 */
module Stream {
  import opened Codec

  /** A caller's buffer pointer: `Null` stands for the null pointer, which makes the engine write zeros. */
  datatype Payload = Null | Buffer(bytes: seq<Byte>)

  function Min(a: nat, b: nat): nat { if a <= b then a else b }

  function Max(a: nat, b: nat): nat { if a <= b then b else a }

  /** A write of `n` bytes at `pos` is stored in full. */
  predicate Fits(limit: nat, pos: nat, n: nat) {
    n == 0 || pos + n <= limit
  }

  /** How many of `n` bytes written at `pos` the device stores: what `fwrite` returns. */
  function Accepted(limit: nat, pos: nat, n: nat): (k: nat)
    ensures k <= n
    ensures k == n <==> Fits(limit, pos, n)
    ensures pos + k <= limit || k == 0
    ensures k < n ==> pos + k >= limit
  {
    if pos >= limit then 0 else if pos + n <= limit then n else limit - pos
  }

  /** `n` zero bytes. */
  function Zeros(n: nat): (z: seq<Byte>)
    ensures |z| == n
    ensures forall i :: 0 <= i < n ==> z[i] == 0
  {
    seq(n, _ => 0)
  }

  /** The `n` bytes a write takes from `p`: the buffer's first `n` bytes, or zeros for a null buffer. */
  function Content(p: Payload, n: nat): (c: seq<Byte>)
    requires p.Buffer? ==> n <= |p.bytes|
    ensures |c| == n
  {
    match p
    case Null => Zeros(n)
    case Buffer(bytes) => bytes[..n]
  }

  /** Byte `i` of the file once all of `w` is written at `pos`. */
  function PutByte(data: seq<Byte>, pos: nat, w: seq<Byte>, i: nat): Byte {
    if pos <= i < pos + |w| then w[i - pos] else if i < |data| then data[i] else 0
  }

  /** The file once the byte `x` is written at `pos`: a gap between the end of the file and `pos` reads zero. */
  function PutOne(data: seq<Byte>, pos: nat, x: Byte): (r: seq<Byte>)
    ensures |r| == Max(|data|, pos + 1)
  {
    if pos < |data| then data[pos := x] else data + Zeros(pos - |data|) + [x]
  }

  /** The file once all of `w` is written at `pos`, byte by byte. */
  function Put(data: seq<Byte>, pos: nat, w: seq<Byte>): seq<Byte>
    decreases |w|
  {
    if w == [] then data else Put(PutOne(data, pos, w[0]), pos + 1, w[1..])
  }

  /** The file after `fseek(pos)` and `fwrite(d)`: the device takes the prefix of `d` that fits. */
  function Stored(data: seq<Byte>, limit: nat, pos: nat, d: seq<Byte>): seq<Byte> {
    Put(data, pos, d[..Accepted(limit, pos, |d|)])
  }

  /** Byte by byte: `w` lands at `pos`, a gap before it reads zero, the rest of the file is kept. */
  lemma {:induction false} PutAt(data: seq<Byte>, pos: nat, w: seq<Byte>, i: nat)
    ensures |Put(data, pos, w)| == (if w == [] then |data| else Max(|data|, pos + |w|))
    ensures i < |Put(data, pos, w)| ==> Put(data, pos, w)[i] == PutByte(data, pos, w, i)
    decreases |w|
  {
    if w != [] {
      var one := PutOne(data, pos, w[0]);
      PutAt(one, pos + 1, w[1..], i);
      if i < |one| {
        assert one[i] == (if i == pos then w[0] else if i < |data| then data[i] else 0);
      }
    }
  }

  /** Byte by byte: the accepted prefix of `d` lands at `pos`, a gap before it reads zero, the rest is kept. */
  lemma StoredAt(data: seq<Byte>, limit: nat, pos: nat, d: seq<Byte>, i: nat)
    ensures var k := Accepted(limit, pos, |d|);
      && |Stored(data, limit, pos, d)| == (if k == 0 then |data| else Max(|data|, pos + k))
      && (i < |Stored(data, limit, pos, d)| ==>
            Stored(data, limit, pos, d)[i] == (if pos <= i < pos + k then d[i - pos] else if i < |data| then data[i] else 0))
  {
    var k := Accepted(limit, pos, |d|);
    PutAt(data, pos, d[..k], i);
  }

  /** A write never shortens the file, and keeps its length when it stays inside it. */
  lemma StoredLength(data: seq<Byte>, limit: nat, pos: nat, d: seq<Byte>)
    ensures |Stored(data, limit, pos, d)| >= |data|
    ensures pos + |d| <= |data| ==> |Stored(data, limit, pos, d)| == |data|
  {
    StoredAt(data, limit, pos, d, 0);
  }

  /** Bytes of the file outside the written range are left as they were. */
  lemma StoredFrame(data: seq<Byte>, limit: nat, pos: nat, d: seq<Byte>, i: nat)
    requires i < |data|
    requires i < pos || pos + |d| <= i
    ensures i < |Stored(data, limit, pos, d)| && Stored(data, limit, pos, d)[i] == data[i]
  {
    StoredAt(data, limit, pos, d, i);
  }

  /** Writing no bytes leaves the file as it was. */
  lemma StoredNothing(data: seq<Byte>, limit: nat, pos: nat, d: seq<Byte>)
    requires d == []
    ensures Stored(data, limit, pos, d) == data
  {
    assert d[..Accepted(limit, pos, |d|)] == [];
  }

  /** Writing `w1` and then `w2` right after it is writing `w1 + w2`. */
  lemma PutConcat(data: seq<Byte>, pos: nat, w1: seq<Byte>, pos2: nat, w2: seq<Byte>)
    requires pos2 == pos + |w1|
    ensures Put(Put(data, pos, w1), pos2, w2) == Put(data, pos, w1 + w2)
  {
    var mid := Put(data, pos, w1);
    var lhs := Put(mid, pos2, w2);
    var rhs := Put(data, pos, w1 + w2);
    PutAt(data, pos, w1, 0);
    PutAt(mid, pos2, w2, 0);
    PutAt(data, pos, w1 + w2, 0);
    forall i | 0 <= i < |lhs|
      ensures lhs[i] == rhs[i]
    {
      PutAt(mid, pos2, w2, i);
      PutAt(data, pos, w1 + w2, i);
      if i < |mid| {
        PutAt(data, pos, w1, i);
      }
    }
  }

  /** Writing `d1` and then, where it stopped, `d2` stores the same as writing `d1 + d2` at once. */
  lemma StoredConcat(data: seq<Byte>, limit: nat, pos: nat, d1: seq<Byte>, d2: seq<Byte>)
    ensures Stored(Stored(data, limit, pos, d1), limit, pos + Accepted(limit, pos, |d1|), d2)
         == Stored(data, limit, pos, d1 + d2)
  {
    var k1 := Accepted(limit, pos, |d1|);
    var k2 := Accepted(limit, pos + k1, |d2|);
    AcceptedConcat(limit, pos, |d1|, |d2|);
    assert k2 > 0 ==> k1 == |d1|;
    var w1 := d1[..k1];
    var w2 := d2[..k2];
    assert (d1 + d2)[..k1 + k2] == w1 + w2;
    PutConcat(data, pos, w1, pos + k1, w2);
  }

  /** Two writes in a row that both fit: each reads back where it was written, and the file reaches past the second. */
  lemma StoredTwice(data: seq<Byte>, limit: nat, pos: nat, w1: seq<Byte>, w2: seq<Byte>)
    requires |w1| > 0 && Fits(limit, pos, |w1| + |w2|)
    ensures var s := Stored(Stored(data, limit, pos, w1), limit, pos + |w1|, w2);
      && pos + |w1| + |w2| <= |s|
      && Fetch(s, pos, |w1|) == w1
      && Fetch(s, pos + |w1|, |w2|) == w2
      && (pos >= |data| ==> |s| == pos + |w1| + |w2|)
  {
    var s1 := Stored(data, limit, pos, w1);
    var s2 := Stored(s1, limit, pos + |w1|, w2);
    FetchStored(data, limit, pos, w1);
    StoredAt(data, limit, pos, w1, 0);
    FetchStored(s1, limit, pos + |w1|, w2);
    StoredAt(s1, limit, pos + |w1|, w2, 0);
    forall p | pos <= p < pos + |w1|
      ensures p < |s2| && s2[p] == s1[p]
    {
      StoredFrame(s1, limit, pos + |w1|, w2, p);
    }
    FetchAgree(s2, s1, pos, |w1|);
  }

  /** Counts of successive writes, each starting where the last one stopped, add up like one write. */
  lemma AcceptedConcat(limit: nat, pos: nat, a: nat, b: nat)
    ensures Accepted(limit, pos, a) + Accepted(limit, pos + Accepted(limit, pos, a), b) == Accepted(limit, pos, a + b)
  {
  }

  /** A non-empty write that starts where an earlier one stopped is stored in full exactly when both together would be. */
  lemma FitsAfter(limit: nat, pos: nat, a: nat, b: nat)
    requires b > 0
    ensures Fits(limit, pos + Accepted(limit, pos, a), b) <==> Fits(limit, pos, a + b)
  {
  }

  /** Zeros written in two runs, the second where the first stopped: the same file and the same counts as one run. */
  lemma ZerosStep(data: seq<Byte>, limit: nat, pos: nat, done: nat, n: nat, total: nat)
    requires done + n == total
    ensures Stored(Stored(data, limit, pos, Zeros(done)), limit, pos + Accepted(limit, pos, done), Zeros(n))
         == Stored(data, limit, pos, Zeros(total))
    ensures n > 0 ==> (Fits(limit, pos + Accepted(limit, pos, done), n) <==> Fits(limit, pos, total))
    ensures pos + Accepted(limit, pos, done) + Accepted(limit, pos + Accepted(limit, pos, done), n) == pos + Accepted(limit, pos, total)
  {
    StoredConcat(data, limit, pos, Zeros(done), Zeros(n));
    assert Zeros(done) + Zeros(n) == Zeros(total);
    AcceptedConcat(limit, pos, done, n);
    if n > 0 {
      FitsAfter(limit, pos, done, n);
    }
  }

  /** `n` bytes of the file from `pos`; bytes past its end read as zero. */
  function Fetch(data: seq<Byte>, pos: nat, n: nat): (r: seq<Byte>)
    ensures |r| == n
  {
    seq(n, i requires 0 <= i < n => if pos + i < |data| then data[pos + i] else 0)
  }

  /** A write that fits reads back unchanged. */
  lemma FetchStored(data: seq<Byte>, limit: nat, pos: nat, d: seq<Byte>)
    requires Fits(limit, pos, |d|)
    ensures Fetch(Stored(data, limit, pos, d), pos, |d|) == d
  {
    var s := Stored(data, limit, pos, d);
    forall i | 0 <= i < |d|
      ensures Fetch(s, pos, |d|)[i] == d[i]
    {
      StoredAt(data, limit, pos, d, pos + i);
    }
  }

  /** Two files that agree on a range, and both hold it, fetch the same bytes from it. */
  lemma FetchAgree(d1: seq<Byte>, d2: seq<Byte>, pos: nat, n: nat)
    requires pos + n <= |d1| && pos + n <= |d2|
    requires forall p :: pos <= p < pos + n ==> d1[p] == d2[p]
    ensures Fetch(d1, pos, n) == Fetch(d2, pos, n)
  {
    forall i | 0 <= i < n
      ensures Fetch(d1, pos, n)[i] == Fetch(d2, pos, n)[i]
    {
      assert d1[pos + i] == d2[pos + i];
    }
  }

  /** Fetching within the file gives a slice of it. */
  lemma FetchInside(data: seq<Byte>, pos: nat, n: nat)
    requires pos + n <= |data|
    ensures Fetch(data, pos, n) == data[pos..pos + n]
  {
  }

  /** How many of `n` bytes `fread` gets from `pos`. */
  function Readable(data: seq<Byte>, pos: nat, n: nat): (k: nat)
    ensures k <= n
    ensures pos + k <= |data| || k == 0
    ensures k < n ==> pos + k >= |data|
  {
    if pos >= |data| then 0 else Min(n, |data| - pos)
  }
}
