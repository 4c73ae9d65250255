/** `calculate_file_hash` of app.py: the file is read in 4096-byte blocks
    until a read returns no bytes, and every block is fed to a streaming
    SHA-256 object whose hex digest is returned. SHA-256 itself is not
    modelled: it is a function parameter from the bytes to the digest, and
    the streaming object is modelled by the bytes fed to it so far. */
module Hashing {

  newtype byte = b: int | 0 <= b < 256

  type Bytes = seq<byte>

  /** A hex digest string. */
  type Digest = string

  /** The block size passed to `f.read`. */
  const ChunkSize: nat := 4096

  /** The streaming hash object: `update` absorbs bytes; the digest depends
      only on the whole sequence absorbed, not on how it was split. */
  datatype HashState = HashState(absorbed: Bytes)

  function Update(h: HashState, block: Bytes): HashState
  {
    HashState(h.absorbed + block)
  }

  function HexDigest(h: HashState, sha256: Bytes -> Digest): Digest
  {
    sha256(h.absorbed)
  }

  /** `f.read(n)` on a regular file with contents `content` whose position is
      `pos`: the next `n` bytes, fewer at the end, none at end of file. */
  function Read(content: Bytes, pos: nat, n: nat): (block: Bytes)
    requires pos <= |content|
    ensures block <= content[pos..]
    ensures |block| == if pos + n <= |content| then n else |content| - pos
  {
    if pos + n <= |content| then content[pos..pos + n] else content[pos..]
  }

  /** Concatenation of a sequence of blocks. */
  function Flatten(blocks: seq<Bytes>): Bytes
  {
    if |blocks| == 0 then [] else blocks[0] + Flatten(blocks[1..])
  }

  /** The blocks that successive reads deliver from position `pos` on,
      stopping at the first empty read: every block non-empty and at most
      `ChunkSize` long, every block but the last exactly `ChunkSize` long, and
      together they are the rest of the content. */
  function ChunksFrom(content: Bytes, pos: nat): (blocks: seq<Bytes>)
    requires pos <= |content|
    ensures Flatten(blocks) == content[pos..]
    ensures forall i :: 0 <= i < |blocks| ==> 0 < |blocks[i]| <= ChunkSize
    ensures forall i :: 0 <= i < |blocks| - 1 ==> |blocks[i]| == ChunkSize
    decreases |content| - pos
  {
    var block := Read(content, pos, ChunkSize);
    if block == [] then []
    else
      var rest := ChunksFrom(content, pos + |block|);
      assert content[pos..] == block + content[pos + |block|..];
      [block] + rest
  }

  /** The blocks the read loop delivers for the whole content. */
  function Chunks(content: Bytes): (blocks: seq<Bytes>)
    ensures Flatten(blocks) == content
  {
    assert content[0..] == content;
    ChunksFrom(content, 0)
  }

  /** A non-empty read at `pos` delivers the first of the blocks from
      `pos` on. */
  lemma ReadIsNextBlock(content: Bytes, pos: nat)
    requires pos <= |content|
    requires Read(content, pos, ChunkSize) != []
    ensures var block := Read(content, pos, ChunkSize);
            && pos + |block| <= |content|
            && ChunksFrom(content, pos) == [block] + ChunksFrom(content, pos + |block|)
  {
  }

  /** Reading a block extends the prefix read so far by that block. */
  lemma ReadExtendsPrefix(content: Bytes, pos: nat)
    requires pos <= |content|
    ensures var block := Read(content, pos, ChunkSize);
            content[..pos + |block|] == content[..pos] + block
  {
  }

  /** One turn of the read loop keeps the loop's invariant. */
  lemma ReadStep(content: Bytes, pos: nat, blocks: seq<Bytes>)
    requires pos <= |content|
    requires Read(content, pos, ChunkSize) != []
    requires blocks + ChunksFrom(content, pos) == Chunks(content)
    ensures var block := Read(content, pos, ChunkSize);
            && pos + |block| <= |content|
            && content[..pos + |block|] == content[..pos] + block
            && blocks + [block] + ChunksFrom(content, pos + |block|) == Chunks(content)
  {
    var block := Read(content, pos, ChunkSize);
    ReadIsNextBlock(content, pos);
    ReadExtendsPrefix(content, pos);
    var later := ChunksFrom(content, pos + |block|);
    assert blocks + [block] + later == blocks + ([block] + later);
  }

  /** `calculate_file_hash`: the chunked read loop feeding the hash object.
      The ghost `blocks` records what was fed, read by read. */
  method CalculateFileHash(content: Bytes, sha256: Bytes -> Digest)
    returns (digest: Digest, ghost blocks: seq<Bytes>)
    ensures digest == sha256(content)
    ensures blocks == Chunks(content)
  {
    var h := HashState([]);
    var pos := 0;
    blocks := [];
    var block := Read(content, pos, ChunkSize);
    while block != []
      invariant pos <= |content|
      invariant h.absorbed == content[..pos]
      invariant block == Read(content, pos, ChunkSize)
      invariant blocks + ChunksFrom(content, pos) == Chunks(content)
      decreases |content| - pos
    {
      ReadStep(content, pos, blocks);
      h := Update(h, block);
      blocks := blocks + [block];
      pos := pos + |block|;
      block := Read(content, pos, ChunkSize);
    }
    assert content[..pos] == content;
    digest := HexDigest(h, sha256);
  }
}
