/** How an object is cut into fixed-size UDP chunks, and what positional writes do to a file. */
module Layouts {
  import opened Text

  datatype Layout = Layout(size: nat, chunks: nat, payload: nat)

  const MAX_CHUNKS: nat := 536_870_912

  /** What `parse_hello` guarantees about the negotiated numbers. */
  predicate ValidLayout(l: Layout) {
    256 <= l.payload <= 1424
    && l.chunks == (l.size + l.payload - 1) / l.payload
    && l.chunks <= MAX_CHUNKS
  }

  function Min(a: nat, b: nat): nat {
    if a <= b then a else b
  }

  function Max(a: nat, b: nat): nat {
    if a < b then b else a
  }

  /** `(k * payload_bytes).min(size)`: where chunk `k` starts, and where chunk `k - 1` ends. */
  function Edge(l: Layout, k: nat): (e: nat)
    ensures e <= l.size
  {
    Min(k * l.payload, l.size)
  }

  lemma EdgeMonotone(l: Layout, j: nat, k: nat)
    requires j <= k
    ensures Edge(l, j) <= Edge(l, k)
  {
    assert j * l.payload <= k * l.payload;
  }

  /** Every chunk is non-empty, starts at `k * payload` and only the last may be short. */
  lemma ChunkShape(l: Layout, k: nat)
    requires ValidLayout(l) && k < l.chunks
    ensures k * l.payload < l.size && Edge(l, k) == k * l.payload
    ensures Edge(l, k) < Edge(l, k + 1) <= Edge(l, k) + l.payload
    ensures k + 1 < l.chunks ==> Edge(l, k + 1) == (k + 1) * l.payload
  {
    ChunkStart(l, k);
    assert (k + 1) * l.payload == k * l.payload + l.payload;
    if k + 1 < l.chunks {
      ChunkStart(l, k + 1);
    }
  }

  lemma ChunkStart(l: Layout, k: nat)
    requires ValidLayout(l) && k < l.chunks
    ensures k * l.payload < l.size
  {
    var n := l.size + l.payload - 1;
    assert n / l.payload * l.payload + n % l.payload == n;
    assert (k + 1) * l.payload <= l.chunks * l.payload;
    assert (k + 1) * l.payload == k * l.payload + l.payload;
  }

  lemma LastEdge(l: Layout)
    requires ValidLayout(l)
    ensures Edge(l, 0) == 0 && Edge(l, l.chunks) == l.size
  {
    var n := l.size + l.payload - 1;
    assert n / l.payload * l.payload + n % l.payload == n;
  }

  lemma Product(a: nat, b: nat, c: nat, d: nat)
    requires a <= c && b <= d
    ensures a * b <= c * d
  {
    assert a * b <= c * b;
    assert c * b <= c * d;
  }

  /** The bytes of chunk `k`. */
  function ChunkOf(l: Layout, bytes: seq<Byte>, k: nat): seq<Byte>
    requires |bytes| == l.size
  {
    EdgeMonotone(l, k, k + 1);
    bytes[Edge(l, k)..Edge(l, k + 1)]
  }

  /** The file content after `write_all_at`. */
  function Overwrite(file: seq<Byte>, offset: nat, bytes: seq<Byte>): (r: seq<Byte>)
    requires offset + |bytes| <= |file|
    ensures |r| == |file|
    ensures forall i :: 0 <= i < |r| ==> r[i] == if offset <= i < offset + |bytes| then bytes[i - offset] else file[i]
  {
    file[..offset] + bytes + file[offset + |bytes|..]
  }

  /** A write of one chunk leaves every other chunk alone and gives this one its new bytes. */
  lemma WriteChunk(l: Layout, file: seq<Byte>, k: nat, bytes: seq<Byte>, j: nat)
    requires ValidLayout(l) && |file| == l.size && k < l.chunks && |bytes| == Edge(l, k + 1) - Edge(l, k)
    ensures Edge(l, k) + |bytes| <= |file|
    ensures ChunkOf(l, Overwrite(file, Edge(l, k), bytes), j) == if j == k then bytes else ChunkOf(l, file, j)
  {
    if j < k {
      EdgeMonotone(l, j + 1, k);
    } else if k < j {
      EdgeMonotone(l, k + 1, j);
    }
  }

  /** A write of one chunk leaves every byte before it alone. */
  lemma WriteKeepsPrefix(l: Layout, file: seq<Byte>, k: nat, bytes: seq<Byte>, n: nat)
    requires ValidLayout(l) && |file| == l.size && n <= k < l.chunks && |bytes| == Edge(l, k + 1) - Edge(l, k)
    ensures Overwrite(file, Edge(l, k), bytes)[..Edge(l, n)] == file[..Edge(l, n)]
  {
    EdgeMonotone(l, n, k);
  }

  /** Two objects that agree on every chunk are equal. */
  lemma {:induction false} EqualChunksEqualPrefixes(l: Layout, a: seq<Byte>, b: seq<Byte>, n: nat)
    requires |a| == |b| == l.size
    requires forall k: nat :: k < n ==> ChunkOf(l, a, k) == ChunkOf(l, b, k)
    ensures a[..Edge(l, n)] == b[..Edge(l, n)]
  {
    if n > 0 {
      EqualChunksEqualPrefixes(l, a, b, n - 1);
      EdgeMonotone(l, n - 1, n);
      var e, f := Edge(l, n - 1), Edge(l, n);
      assert a[..f] == a[..e] + a[e..f] && b[..f] == b[..e] + b[e..f];
      assert ChunkOf(l, a, n - 1) == a[e..f] && ChunkOf(l, b, n - 1) == b[e..f];
    }
  }

  lemma EqualChunksEqualObjects(l: Layout, a: seq<Byte>, b: seq<Byte>)
    requires ValidLayout(l) && |a| == |b| == l.size
    requires forall k: nat :: k < l.chunks ==> ChunkOf(l, a, k) == ChunkOf(l, b, k)
    ensures a == b
  {
    EqualChunksEqualPrefixes(l, a, b, l.chunks);
    LastEdge(l);
    assert a[..l.size] == a && b[..l.size] == b;
  }
}
