/**
 The chunk loops of aes_encrypt and aes_decrypt, apart from what is done to
 one chunk. A message longer than 16 bytes is cut into chunks of 16 bytes,
 the last possibly shorter; a ciphertext longer than 4 words into blocks of
 4 words. Each piece is processed on its own and the results are
 concatenated in order (electronic codebook mode).
 */
module Chunking {

  /* Cutting m at n and appending the pieces to a suffix again. */
  lemma {:induction false} SplitAppend<A>(m: seq<A>, suffix: seq<A>, n: nat)
    requires n <= |m|
    ensures |m[..n]| == n && m[..n] + (m[n..] + suffix) == m + suffix
  {
    assert m[..n] + m[n..] == m;
  }

  /* Process m chunk by chunk, 16 items at a time: a message of at most 16
     items is one chunk. */
  function ChunkMap<A(!new), B>(f: seq<A> --> seq<B>, m: seq<A>): seq<B>
    requires forall c: seq<A> :: |c| <= 16 ==> f.requires(c)
    decreases |m|
  {
    if |m| <= 16 then f(m) else f(m[..16]) + ChunkMap(f, m[16..])
  }

  /* The number of chunks: one for at most 16 items (even none), and one
     more for each further 16 items started. */
  function ChunkCount(length: nat): (count: nat)
    ensures count >= 1
    ensures length > 0 ==> count == (length + 15) / 16
    ensures length == 0 ==> count == 1
    decreases length
  {
    if length <= 16 then 1 else 1 + ChunkCount(length - 16)
  }

  /* At most 16n items, for n at least one, make at most n chunks. */
  lemma {:induction false} ChunkCountBound(length: nat, n: nat)
    requires 1 <= n && length <= 16 * n
    ensures ChunkCount(length) <= n
    decreases length
  {
    if length > 16 {
      ChunkCountBound(length - 16, n - 1);
    }
  }

  /* Chunk i of m: items 16i up to 16i + 16, or to the end. */
  function Chunk<A>(m: seq<A>, i: nat): (c: seq<A>)
    requires i < ChunkCount(|m|)
    ensures |c| <= 16
  {
    if 16 * i + 16 <= |m| then m[16 * i .. 16 * i + 16] else m[16 * i ..]
  }

  /* A chunk past the first of m is a chunk of what follows the first. */
  lemma {:induction false} ChunkOfRest<A>(m: seq<A>, i: nat)
    requires |m| > 16 && 0 < i < ChunkCount(|m|)
    ensures Chunk(m, i) == Chunk(m[16..], i - 1)
  {
    var j := i - 1;
    assert 16 * i == 16 * j + 16;
    if 16 * j + 16 <= |m| - 16 {
      assert m[16 * i .. 16 * i + 16] == m[16..][16 * j .. 16 * j + 16];
    } else {
      assert m[16 * i ..] == m[16..][16 * j ..];
    }
  }

  /* When every chunk's result has 4 items, the output has 4 items per
     chunk ... */
  lemma {:induction false} ChunkMapLength<A(!new), B>(f: seq<A> --> seq<B>, m: seq<A>)
    requires forall c: seq<A> :: |c| <= 16 ==> f.requires(c) && |f(c)| == 4
    ensures |ChunkMap(f, m)| == 4 * ChunkCount(|m|)
    ensures |ChunkMap(f, m)| % 4 == 0 && |ChunkMap(f, m)| >= 4
    decreases |m|
  {
    if |m| > 16 {
      ChunkMapLength(f, m[16..]);
    }
  }

  /* ... and its i-th group of 4 items is the result for chunk i. */
  lemma {:induction false} ChunkMapBlocks<A(!new), B>(f: seq<A> --> seq<B>, m: seq<A>, i: nat)
    requires forall c: seq<A> :: |c| <= 16 ==> f.requires(c) && |f(c)| == 4
    requires i < ChunkCount(|m|)
    ensures |ChunkMap(f, m)| == 4 * ChunkCount(|m|)
    ensures ChunkMap(f, m)[4 * i .. 4 * i + 4] == f(Chunk(m, i))
    decreases |m|
  {
    ChunkMapLength(f, m);
    if |m| > 16 {
      var head, rest := f(m[..16]), ChunkMap(f, m[16..]);
      ChunkMapLength(f, m[16..]);
      if i == 0 {
        assert (head + rest)[0 .. 4] == head;
      } else {
        var j := i - 1;
        ChunkMapBlocks(f, m[16..], j);
        ChunkOfRest(m, i);
        assert 4 * i == 4 * j + 4;
        assert (head + rest)[4 * i .. 4 * i + 4] == rest[4 * j .. 4 * j + 4];
      }
    } else {
      assert Chunk(m, i) == m;
      assert f(m)[0 .. 4] == f(m);
    }
  }

  /* The loop of aes_decrypt over blocks of 4 items: the input is a whole
     number of blocks, at least one. */
  function BlockMap<B(!new), C>(g: seq<B> --> seq<C>, d: seq<B>): seq<C>
    requires |d| % 4 == 0 && |d| >= 4
    requires forall c: seq<B> :: |c| == 4 ==> g.requires(c)
    decreases |d|
  {
    if |d| == 4 then g(d) else g(d[..4]) + BlockMap(g, d[4..])
  }

  /* One result of 4 items per block keeps the length. */
  lemma {:induction false} BlockMapLength<B(!new), C>(g: seq<B> --> seq<C>, d: seq<B>)
    requires |d| % 4 == 0 && |d| >= 4
    requires forall c: seq<B> :: |c| == 4 ==> g.requires(c) && |g(c)| == 4
    ensures |BlockMap(g, d)| == |d|
    decreases |d|
  {
    if |d| > 4 {
      BlockMapLength(g, d[4..]);
    }
  }

  /* Block i of d is the input of the i-th call of g, and the result has
     the size of one result per block. */
  lemma {:induction false} BlockMapBlocks<B(!new), C>(g: seq<B> --> seq<C>, d: seq<B>, i: nat)
    requires |d| % 4 == 0 && |d| >= 4
    requires forall c: seq<B> :: |c| == 4 ==> g.requires(c) && |g(c)| == 4
    requires 4 * i < |d|
    ensures |BlockMap(g, d)| == |d|
    ensures BlockMap(g, d)[4 * i .. 4 * i + 4] == g(d[4 * i .. 4 * i + 4])
    decreases |d|
  {
    if |d| > 4 {
      var head, rest := g(d[..4]), BlockMap(g, d[4..]);
      if i == 0 {
        BlockMapBlocks(g, d[4..], 0);
        assert (head + rest)[0 .. 4] == head;
      } else {
        var j := i - 1;
        BlockMapBlocks(g, d[4..], j);
        assert 4 * i == 4 * j + 4;
        assert d[4 * i .. 4 * i + 4] == d[4..][4 * j .. 4 * j + 4];
        assert (head + rest)[4 * i .. 4 * i + 4] == rest[4 * j .. 4 * j + 4];
      }
    } else {
      assert d[0 .. 4] == d;
      assert g(d)[0 .. 4] == g(d);
    }
  }

  /* Chunks of 16 items become blocks of 4 items, and then each block is
     taken back: the result is what h, the composite of the two per-piece
     steps, makes of each chunk. */
  lemma {:induction false} ChunkMapRoundTrip<A(!new), B(!new), C>(f: seq<A> --> seq<B>, g: seq<B> --> seq<C>, h: seq<A> --> seq<C>, m: seq<A>)
    requires forall c: seq<A> :: |c| <= 16 ==> f.requires(c) && h.requires(c) && |f(c)| == 4
    requires forall d: seq<B> :: |d| == 4 ==> g.requires(d)
    requires forall c: seq<A> :: |c| <= 16 ==> g(f(c)) == h(c)
    ensures |ChunkMap(f, m)| == 4 * ChunkCount(|m|)
    ensures |ChunkMap(f, m)| % 4 == 0 && |ChunkMap(f, m)| >= 4
    ensures BlockMap(g, ChunkMap(f, m)) == ChunkMap(h, m)
    decreases |m|
  {
    ChunkMapLength(f, m);
    if |m| > 16 {
      var head, rest := f(m[..16]), ChunkMap(f, m[16..]);
      ChunkMapRoundTrip(f, g, h, m[16..]);
      assert (head + rest)[..4] == head;
      assert (head + rest)[4..] == rest;
    }
  }
}
