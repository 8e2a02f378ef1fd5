/** The transfer identifier (`build_crosschain_hash`): SHA-256 of the first
    112 bytes of an encoding, then, for each 127-byte chunk of the rest,
    `hash := H(hash ++ H(chunk))`. The loop runs `(len - 112) / 127` times,
    so a trailing remainder shorter than 127 bytes is never hashed. */
module HashChain {
  import opened Bytes
  import Codec

  /** SHA-256 (`solana_program::hash::hash`), a host primitive: every
      definition here holds for any function from byte strings to 32 bytes. */
  type Hasher = seq<byte> -> Bytes32

  const STATIC_LEN: nat := 112
  const CHUNK_LEN: nat := 127

  /** The chunk the loop body takes at iteration `i`, by the `if` of
      `build_crosschain_hash` (message.rs:109-113): a full chunk when one fits, otherwise the rest of the tail. */
  function ChunkAt(tail: seq<byte>, i: nat): (c: seq<byte>)
    requires CHUNK_LEN * i <= |tail|
    ensures |c| <= CHUNK_LEN && CHUNK_LEN * i + |c| <= |tail|
    ensures c == tail[CHUNK_LEN * i..CHUNK_LEN * i + |c|]
    ensures |c| == CHUNK_LEN || CHUNK_LEN * i + |c| == |tail|
  {
    var from := CHUNK_LEN * i;
    if from + CHUNK_LEN <= |tail| then tail[from..from + CHUNK_LEN] else tail[from..]
  }

  /** The chunks taken by `n` iterations, in order. */
  function Chunks(tail: seq<byte>, n: nat): (cs: seq<seq<byte>>)
    requires n == 0 || CHUNK_LEN * (n - 1) <= |tail|
    ensures |cs| == n
  {
    if n == 0 then [] else Chunks(tail, n - 1) + [ChunkAt(tail, n - 1)]
  }

  function Concat(cs: seq<seq<byte>>): seq<byte>
  {
    if cs == [] then [] else Concat(cs[..|cs| - 1]) + cs[|cs| - 1]
  }

  /** The running hash after absorbing `chunks` into `start`. */
  function Fold(h: Hasher, start: Bytes32, chunks: seq<seq<byte>>): Bytes32
  {
    if chunks == [] then start
    else h(Fold(h, start, chunks[..|chunks| - 1]) + h(chunks[|chunks| - 1]))
  }

  /** The loop bound of `build_crosschain_hash` (message.rs:107):
      `payload_length / chunk_length`. */
  function ChunkCount(packed: seq<byte>): nat
    requires |packed| >= STATIC_LEN
  {
    (|packed| - STATIC_LEN) / CHUNK_LEN
  }

  /** `build_crosschain_hash` as a function of its input. */
  function CrosschainHash(h: Hasher, packed: seq<byte>): Bytes32
    requires |packed| >= STATIC_LEN
  {
    Fold(h, h(packed[..STATIC_LEN]), Chunks(packed[STATIC_LEN..], ChunkCount(packed)))
  }

  /** The chunks of `n` iterations, laid end to end, are the first
      `min(127 * n, |tail|)` bytes of the tail. */
  lemma {:induction false} ChunksConcat(tail: seq<byte>, n: nat)
    requires n == 0 || CHUNK_LEN * (n - 1) <= |tail|
    ensures CHUNK_LEN * n <= |tail| ==> Concat(Chunks(tail, n)) == tail[..CHUNK_LEN * n]
    ensures CHUNK_LEN * n > |tail| ==> Concat(Chunks(tail, n)) == tail
  {
    if n > 0 {
      var cs := Chunks(tail, n);
      assert cs[..n - 1] == Chunks(tail, n - 1);
      ChunksConcat(tail, n - 1);
      var c := ChunkAt(tail, n - 1);
      assert Concat(cs) == Concat(Chunks(tail, n - 1)) + c;
      if CHUNK_LEN * n <= |tail| {
        assert tail[..CHUNK_LEN * n] == tail[..CHUNK_LEN * (n - 1)] + c;
      } else {
        assert tail == tail[..CHUNK_LEN * (n - 1)] + c;
      }
    }
  }

  /** Under `build_crosschain_hash`'s loop bound every iteration takes a full 127-byte
      chunk (the `else` branch is dead), the chunks are consecutive, and what
      is left over is shorter than one chunk. */
  lemma {:induction false} ChunksShape(packed: seq<byte>)
    requires |packed| >= STATIC_LEN
    ensures var tail := packed[STATIC_LEN..]; var n := ChunkCount(packed);
      && CHUNK_LEN * n <= |tail| < CHUNK_LEN * n + CHUNK_LEN
      && |Chunks(tail, n)| == n
      && (forall k :: 0 <= k < n ==> Chunks(tail, n)[k] == tail[CHUNK_LEN * k..CHUNK_LEN * k + CHUNK_LEN])
      && Concat(Chunks(tail, n)) == tail[..CHUNK_LEN * n]
  {
    var tail := packed[STATIC_LEN..];
    var n := ChunkCount(packed);
    ChunksConcat(tail, n);
    forall k | 0 <= k < n
      ensures Chunks(tail, n)[k] == tail[CHUNK_LEN * k..CHUNK_LEN * k + CHUNK_LEN]
    {
      ChunkIsFull(tail, n, k);
    }
  }

  lemma {:induction false} ChunkIsFull(tail: seq<byte>, n: nat, k: nat)
    requires CHUNK_LEN * n <= |tail| && k < n
    ensures Chunks(tail, n)[k] == tail[CHUNK_LEN * k..CHUNK_LEN * k + CHUNK_LEN]
  {
    if k < n - 1 {
      ChunkIsFull(tail, n - 1, k);
    }
  }

  /** `build_crosschain_hash`: the running `hash` is updated once per loop
      iteration from a 64-byte `encoded` buffer filled in place. */
  method BuildCrosschainHash(h: Hasher, packed: seq<byte>) returns (r: Bytes32)
    requires |packed| >= STATIC_LEN
    ensures r == CrosschainHash(h, packed)
  {
    var staticChunk := packed[..STATIC_LEN];
    var hash: Bytes32 := h(staticChunk);
    var payloadChunk := packed[STATIC_LEN..];
    var payloadLength := |payloadChunk|;
    var chunkLength := CHUNK_LEN;
    for i := 0 to payloadLength / chunkLength
      invariant CHUNK_LEN * i <= payloadLength
      invariant hash == Fold(h, h(staticChunk), Chunks(payloadChunk, i))
    {
      var from := chunkLength * i;
      var chunk: seq<byte>;
      FullChunkFits(payloadLength, i);
      if from + chunkLength <= payloadLength {
        chunk := payloadChunk[from..from + chunkLength];
      } else {
        // the partial-chunk branch (message.rs:111-112): never taken under this bound
        assert false;
      }
      assert chunk == ChunkAt(payloadChunk, i);
      var encoded := EncodePair(hash, h(chunk));
      FoldStep(h, h(staticChunk), payloadChunk, i);
      hash := h(encoded);
    }
    r := hash;
  }

  /** The loop body's 64-byte `encoded` buffer: zeroed, then the running
      hash and the chunk hash copied into its two halves in place. */
  method EncodePair(hash: Bytes32, chunkHash: Bytes32) returns (encoded: seq<byte>)
    ensures encoded == hash + chunkHash
  {
    var buffer := new byte[64](_ => 0);
    CopyFromSlice(buffer, 0, hash);
    CopyFromSlice(buffer, 32, chunkHash);
    SpliceConcat(hash, chunkHash);
    encoded := buffer[..];
  }

  /** Under the loop bound `len / 127`, iteration `i` has a full chunk. */
  lemma FullChunkFits(len: nat, i: nat)
    requires i < len / CHUNK_LEN
    ensures CHUNK_LEN * i + CHUNK_LEN <= len
  {
  }

  /** The 64-byte `encoded` buffer: the running hash, then the chunk hash. */
  lemma SpliceConcat(a: Bytes32, b: Bytes32)
    ensures Splice(Splice(Zeros(64), 0, a), 32, b) == a + b
  {
  }

  /** One more iteration absorbs the next chunk. */
  lemma FoldStep(h: Hasher, start: Bytes32, tail: seq<byte>, i: nat)
    requires CHUNK_LEN * i <= |tail|
    ensures Fold(h, start, Chunks(tail, i + 1))
         == h(Fold(h, start, Chunks(tail, i)) + h(ChunkAt(tail, i)))
  {
    assert Chunks(tail, i + 1)[..i] == Chunks(tail, i);
  }

  /** Two inputs with the same chunk count that agree on every byte the
      loop reaches hash alike: the trailing `(len - 112) % 127` bytes never
      influence the identifier. */
  lemma HashIgnoresTail(h: Hasher, p: seq<byte>, q: seq<byte>)
    requires |p| >= STATIC_LEN && |q| >= STATIC_LEN
    requires ChunkCount(p) == ChunkCount(q)
    requires p[..STATIC_LEN + CHUNK_LEN * ChunkCount(p)] == q[..STATIC_LEN + CHUNK_LEN * ChunkCount(q)]
    ensures CrosschainHash(h, p) == CrosschainHash(h, q)
  {
    var n := ChunkCount(p);
    var k := STATIC_LEN + CHUNK_LEN * n;
    assert p[..STATIC_LEN] == p[..k][..STATIC_LEN];
    assert q[..STATIC_LEN] == q[..k][..STATIC_LEN];
    ChunksAgree(p[STATIC_LEN..], q[STATIC_LEN..], n);
  }

  lemma {:induction false} ChunksAgree(a: seq<byte>, b: seq<byte>, n: nat)
    requires CHUNK_LEN * n <= |a| && CHUNK_LEN * n <= |b|
    requires a[..CHUNK_LEN * n] == b[..CHUNK_LEN * n]
    ensures Chunks(a, n) == Chunks(b, n)
  {
    if n > 0 {
      assert a[..CHUNK_LEN * (n - 1)] == a[..CHUNK_LEN * n][..CHUNK_LEN * (n - 1)];
      assert b[..CHUNK_LEN * (n - 1)] == b[..CHUNK_LEN * n][..CHUNK_LEN * (n - 1)];
      ChunksAgree(a, b, n - 1);
      assert ChunkAt(a, n - 1) == a[..CHUNK_LEN * n][CHUNK_LEN * (n - 1)..];
      assert ChunkAt(b, n - 1) == b[..CHUNK_LEN * n][CHUNK_LEN * (n - 1)..];
    }
  }

  /** With an empty payload the identifier is `H(H(e[0..112]) ++
      H(e[112..239]))`: one chunk, and the payload-length word at
      `[252, 256)` is never hashed. */
  lemma EmptyPayloadHash(h: Hasher, m: Codec.InitMessage)
    requires m.payload == []
    ensures var e := Codec.Encode(m);
      |e| == 256 && CrosschainHash(h, e) == h(h(e[..112]) + h(e[112..239]))
  {
    Codec.EncodeLayout(m);
    var e := Codec.Encode(m);
    assert ChunkCount(e) == 1;
    FoldStep(h, h(e[..STATIC_LEN]), e[STATIC_LEN..], 0);
    assert ChunkAt(e[STATIC_LEN..], 0) == e[112..239];
  }

  /** As written: every message with a 111-byte payload shares its
      identifier with another message whose last payload byte differs. */
  lemma LastPayloadByteIgnored(h: Hasher, m: Codec.InitMessage)
    requires |m.payload| == 111
    ensures var m' := m.(payload := m.payload[..110] + [if m.payload[110] == 255 then 0 else m.payload[110] + 1]);
      m' != m && CrosschainHash(h, Codec.Encode(m')) == CrosschainHash(h, Codec.Encode(m))
  {
    var m' := m.(payload := m.payload[..110] + [if m.payload[110] == 255 then 0 else m.payload[110] + 1]);
    assert m'.payload[110] != m.payload[110];
    var e, e' := Codec.Encode(m), Codec.Encode(m');
    Codec.EncodeLayout(m);
    Codec.EncodeLayout(m');
    assert Codec.HeaderWords(m) == Codec.HeaderWords(m');
    assert ChunkCount(e) == 2 && ChunkCount(e') == 2;
    assert m.payload[..110] == m'.payload[..110];
    assert e[..366] == Codec.Flatten(Codec.HeaderWords(m)) + m.payload[..110];
    assert e'[..366] == Codec.Flatten(Codec.HeaderWords(m')) + m'.payload[..110];
    HashIgnoresTail(h, e, e');
  }

  /** As written, more sharply: messages with the same header fields and
      payloads shorter than 110 bytes, of any contents and lengths, all
      share one identifier. The loop takes a single chunk, bytes
      `[112, 239)` of the header, so neither the payload nor its length word
      reaches the hash. */
  lemma ShortPayloadsHashAlike(h: Hasher, m1: Codec.InitMessage, m2: Codec.InitMessage)
    requires m2 == m1.(payload := m2.payload)
    requires |m1.payload| < 110 && |m2.payload| < 110
    ensures CrosschainHash(h, Codec.Encode(m1)) == CrosschainHash(h, Codec.Encode(m2))
  {
    var e1, e2 := Codec.Encode(m1), Codec.Encode(m2);
    var w1, w2 := Codec.HeaderWords(m1), Codec.HeaderWords(m2);
    forall i | 0 <= i < STATIC_LEN + CHUNK_LEN
      ensures e1[i] == e2[i]
    {
      Codec.FlattenAt(w1, i);
      Codec.FlattenAt(w2, i);
      if i >= 224 {
        assert w1[7][i % 32] == 0 && w2[7][i % 32] == 0;
      } else {
        assert w1[i / 32] == w2[i / 32];
      }
    }
    assert e1[..STATIC_LEN + CHUNK_LEN] == e2[..STATIC_LEN + CHUNK_LEN];
    assert ChunkCount(e1) == 1 && ChunkCount(e2) == 1;
    HashIgnoresTail(h, e1, e2);
  }

  /** The loop bound that makes the partial-chunk branch of
      `build_crosschain_hash` (message.rs:111-112) reachable:
      `ceil((len - 112) / 127)` iterations. */
  function CoveringChunkCount(packed: seq<byte>): nat
    requires |packed| >= STATIC_LEN
  {
    (|packed| - STATIC_LEN + CHUNK_LEN - 1) / CHUNK_LEN
  }

  /** The identifier with every byte of the input absorbed. */
  function CrosschainHashCovering(h: Hasher, packed: seq<byte>): Bytes32
    requires |packed| >= STATIC_LEN
  {
    Fold(h, h(packed[..STATIC_LEN]), Chunks(packed[STATIC_LEN..], CoveringChunkCount(packed)))
  }

  /** With the covering bound the chunks are exactly the whole tail, so the
      chunk list (and with the static part, the whole input) is determined by
      what the chain absorbs. */
  lemma CoveringChunksCoverTail(packed: seq<byte>)
    requires |packed| >= STATIC_LEN
    ensures Concat(Chunks(packed[STATIC_LEN..], CoveringChunkCount(packed))) == packed[STATIC_LEN..]
  {
    var tail := packed[STATIC_LEN..];
    var n := CoveringChunkCount(packed);
    ChunksConcat(tail, n);
    assert tail == tail[..|tail|];
  }

  /** Two inputs whose covering chains absorb the same static part and the
      same chunks are the same input. */
  lemma CoveringChainInjective(p: seq<byte>, q: seq<byte>)
    requires |p| >= STATIC_LEN && |q| >= STATIC_LEN
    requires p[..STATIC_LEN] == q[..STATIC_LEN]
    requires Chunks(p[STATIC_LEN..], CoveringChunkCount(p)) == Chunks(q[STATIC_LEN..], CoveringChunkCount(q))
    ensures p == q
  {
    CoveringChunksCoverTail(p);
    CoveringChunksCoverTail(q);
    assert p == p[..STATIC_LEN] + p[STATIC_LEN..];
    assert q == q[..STATIC_LEN] + q[STATIC_LEN..];
  }

  /** `h` maps two different byte strings to the same digest. */
  ghost predicate HasCollision(h: Hasher)
  {
    exists a: seq<byte>, b: seq<byte> :: a != b && h(a) == h(b)
  }

  /** Two chains started from the digests of 112-byte static parts that end
      in the same running hash, but differ in their static part or their
      chunks, exhibit a collision of `h`: the inputs of the last hashing
      step differ somewhere (a 112-byte input against a 64-byte one, two
      64-byte buffers, or two chunks). */
  lemma {:induction false} FoldCollision(h: Hasher, x1: seq<byte>, x2: seq<byte>, c1: seq<seq<byte>>, c2: seq<seq<byte>>)
    requires |x1| == STATIC_LEN && |x2| == STATIC_LEN
    requires x1 != x2 || c1 != c2
    requires Fold(h, h(x1), c1) == Fold(h, h(x2), c2)
    ensures HasCollision(h)
    decreases |c1| + |c2|
  {
    if c1 == [] && c2 == [] {
      assert x1 != x2 && h(x1) == h(x2);
    } else if c1 == [] {
      var y := Fold(h, h(x2), c2[..|c2| - 1]) + h(c2[|c2| - 1]);
      assert |y| == 64 && x1 != y && h(x1) == h(y);
    } else if c2 == [] {
      var y := Fold(h, h(x1), c1[..|c1| - 1]) + h(c1[|c1| - 1]);
      assert |y| == 64 && y != x2 && h(y) == h(x2);
    } else {
      var p1, p2 := c1[..|c1| - 1], c2[..|c2| - 1];
      var l1, l2 := c1[|c1| - 1], c2[|c2| - 1];
      var f1, f2 := Fold(h, h(x1), p1), Fold(h, h(x2), p2);
      var y1, y2 := f1 + h(l1), f2 + h(l2);
      assert h(y1) == h(y2);
      if y1 != y2 {
        assert HasCollision(h);
      } else {
        assert f1 == y1[..32] == y2[..32] == f2;
        assert h(l1) == y1[32..] == y2[32..] == h(l2);
        if l1 != l2 {
          assert HasCollision(h);
        } else {
          assert c1 == p1 + [l1] && c2 == p2 + [l2];
          FoldCollision(h, x1, x2, p1, p2);
        }
      }
    }
  }

  /** Corrected identifier: two different inputs share an identifier only
      through a collision of `h`, so for a collision-resistant hash every
      byte of the input is bound into the identifier. */
  lemma CoveringHashCollision(h: Hasher, p: seq<byte>, q: seq<byte>)
    requires |p| >= STATIC_LEN && |q| >= STATIC_LEN
    requires p != q
    requires CrosschainHashCovering(h, p) == CrosschainHashCovering(h, q)
    ensures HasCollision(h)
  {
    var c1 := Chunks(p[STATIC_LEN..], CoveringChunkCount(p));
    var c2 := Chunks(q[STATIC_LEN..], CoveringChunkCount(q));
    if p[..STATIC_LEN] == q[..STATIC_LEN] && c1 == c2 {
      CoveringChainInjective(p, q);
    }
    FoldCollision(h, p[..STATIC_LEN], q[..STATIC_LEN], c1, c2);
  }
}
