/** The deterministic binary fixture, built directly and streamed in chunks. */
module Payload {
  import opened Wrappers

  const MAX_SAFE_INTEGER: int := 9007199254740991
  const PERIOD: nat := 251

  /** The byte at every index is the index modulo 251. */
  function Fixture(size: nat): (s: seq<byte>)
    ensures |s| == size
  {
    seq(size, i requires 0 <= i < size => i % PERIOD)
  }

  method FillFixture(size: nat) returns (bytes: array<byte>)
    ensures fresh(bytes) && bytes[..] == Fixture(size)
  {
    bytes := new byte[size](i => 0);
    for index := 0 to size
      invariant bytes.Length == size
      invariant forall i :: 0 <= i < index ==> bytes[i] == i % PERIOD
    {
      bytes[index] := index % PERIOD;
    }
  }

  function Min(a: int, b: int): int {
    if a < b then a else b
  }

  function Concat(chunks: seq<seq<byte>>): seq<byte> {
    if chunks == [] then [] else chunks[0] + Concat(chunks[1..])
  }

  /** A window of the repeated pattern, wherever it starts, is the fixture at that offset. */
  lemma PatternWindow(size: nat, chunkBytes: nat, offset: nat, length: nat)
    requires length <= chunkBytes && offset + length <= size
    ensures var start := offset % PERIOD;
            && start + length <= chunkBytes + 250
            && Fixture(chunkBytes + 250)[start..start + length] == Fixture(size)[offset..offset + length]
  {
    var start := offset % PERIOD;
    var slice := Fixture(chunkBytes + 250)[start..start + length];
    var wanted := Fixture(size)[offset..offset + length];
    forall j | 0 <= j < length
      ensures slice[j] == wanted[j]
    {
      ShiftedRemainder(offset, j);
    }
  }

  lemma ShiftedRemainder(offset: nat, j: nat)
    ensures (offset % PERIOD + j) % PERIOD == (offset + j) % PERIOD
  {
    var q := offset / PERIOD;
    assert offset == q * PERIOD + offset % PERIOD;
    assert offset + j == q * PERIOD + (offset % PERIOD + j);
  }

  /** The chunk of the fixture that starts at `offset`. */
  function ChunkAt(size: nat, chunkBytes: nat, offset: nat): seq<byte>
    requires offset <= size
  {
    Fixture(size)[offset..offset + Min(chunkBytes, size - offset)]
  }

  /** All chunks from `offset` on. */
  function ChunksFrom(size: nat, chunkBytes: nat, offset: nat): seq<seq<byte>>
    requires chunkBytes > 0 && offset <= size
    decreases size - offset
  {
    if offset == size then []
    else [ChunkAt(size, chunkBytes, offset)] + ChunksFrom(size, chunkBytes, offset + Min(chunkBytes, size - offset))
  }

  /** For every size and chunk length the chunks concatenate to the fixture. */
  lemma {:induction false} ChunksAreTheFixture(size: nat, chunkBytes: nat, offset: nat)
    requires chunkBytes > 0 && offset <= size
    ensures Concat(ChunksFrom(size, chunkBytes, offset)) == Fixture(size)[offset..]
    decreases size - offset
  {
    if offset < size {
      var next := offset + Min(chunkBytes, size - offset);
      ChunksAreTheFixture(size, chunkBytes, next);
      assert Fixture(size)[offset..] == Fixture(size)[offset..next] + Fixture(size)[next..];
    }
  }

  predicate Acceptable(size: int, chunkBytes: int) {
    0 <= size <= MAX_SAFE_INTEGER && 1 <= chunkBytes <= MAX_SAFE_INTEGER
  }

  /** The streaming generator: slices of one pattern, each within its bounds. */
  method StreamChunks(size: int, chunkBytes: int) returns (r: Option<seq<seq<byte>>>)
    ensures r.Some? <==> Acceptable(size, chunkBytes)
    ensures r.Some? ==> r.value == ChunksFrom(size, chunkBytes, 0) && Concat(r.value) == Fixture(size)
  {
    if !Acceptable(size, chunkBytes) {
      return None;
    }
    var filled := FillFixture(chunkBytes + 250);
    var pattern := filled[..];
    var chunks: seq<seq<byte>> := [];
    var offset := 0;
    while offset < size
      invariant 0 <= offset
      invariant offset <= size ==> chunks + ChunksFrom(size, chunkBytes, offset) == ChunksFrom(size, chunkBytes, 0)
      invariant offset > size ==> chunks == ChunksFrom(size, chunkBytes, 0)
    {
      var start := offset % PERIOD;
      var length := Min(chunkBytes, size - offset);
      PatternWindow(size, chunkBytes, offset, length);
      ghost var rest := ChunksFrom(size, chunkBytes, offset + length);
      assert chunks + ([ChunkAt(size, chunkBytes, offset)] + rest) ==
               chunks + [ChunkAt(size, chunkBytes, offset)] + rest;
      assert rest == [] ==>
               chunks + [ChunkAt(size, chunkBytes, offset)] + rest == chunks + [ChunkAt(size, chunkBytes, offset)];
      chunks := chunks + [pattern[start..start + length]];
      offset := offset + chunkBytes;
    }
    assert offset == size ==> chunks + [] == chunks;
    ChunksAreTheFixture(size, chunkBytes, 0);
    assert Fixture(size)[0..] == Fixture(size);
    return Some(chunks);
  }
}
