/** Content-defined chunks and the manifests that list them. */
module ContentChunks {
  import opened Disks

  const MIN_CHUNK_BYTES: nat := 16 * 1024
  const AVERAGE_CHUNK_BYTES: nat := 64 * 1024
  const MAX_CHUNK_BYTES: nat := 256 * 1024
  const MAX_CHUNKS: nat := 1_000_000

  datatype Chunk = Chunk(offset: nat, length: nat, hash: Bytes)

  datatype Manifest = Manifest(size: nat, chunks: seq<Chunk>, hash: Bytes)

  /** The chunks follow one another from `from` to `size` without gap or overlap, none empty. */
  predicate Tiles(chunks: seq<Chunk>, from: nat, size: nat)
    decreases |chunks|
  {
    if chunks == [] then from == size
    else chunks[0].offset == from && chunks[0].length > 0 && Tiles(chunks[1..], from + chunks[0].length, size)
  }

  /** In a tiling every chunk lies inside the object and ends where the next one starts. */
  lemma {:induction false} TileEdges(chunks: seq<Chunk>, from: nat, size: nat, i: nat)
    requires Tiles(chunks, from, size) && i < |chunks|
    ensures from <= chunks[i].offset < chunks[i].offset + chunks[i].length <= size
    ensures i + 1 < |chunks| ==> chunks[i + 1].offset == chunks[i].offset + chunks[i].length
    ensures i + 1 == |chunks| ==> chunks[i].offset + chunks[i].length == size
    decreases |chunks|
  {
    TilesForward(chunks[1..], from + chunks[0].length, size);
    if i > 0 {
      TileEdges(chunks[1..], from + chunks[0].length, size, i - 1);
    }
  }

  lemma {:induction false} TilesForward(chunks: seq<Chunk>, from: nat, size: nat)
    requires Tiles(chunks, from, size)
    ensures from <= size
    decreases |chunks|
  {
    if chunks != [] {
      TilesForward(chunks[1..], from + chunks[0].length, size);
    }
  }

  /** The chunks are those of `content`: each hash is the digest of the bytes in its place. */
  ghost predicate Describes(chunks: seq<Chunk>, digest: Bytes -> Bytes, content: Bytes) {
    forall i :: 0 <= i < |chunks| ==>
      chunks[i].offset + chunks[i].length <= |content|
      && chunks[i].hash == digest(content[chunks[i].offset..chunks[i].offset + chunks[i].length])
  }
}
