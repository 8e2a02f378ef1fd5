/** The canonical encoding of an outgoing cross-chain message
    (`serialize_init_message_eth`): a 256-byte header of eight 32-byte
    big-endian words laid out like the Solidity ABI encoding of a tuple with
    one dynamic `bytes` member, followed by the payload without padding. */
module Codec {
  import opened Bytes

  /** `InitMessage`: the logical content of a cross-chain message. */
  datatype InitMessage = InitMessage(
    srcChainId: u64,
    srcAddress: Bytes32,
    dstChainId: u64,
    dstAddress: Bytes32,
    txId: u32,
    payload: seq<byte>)

  const WORD_LEN: nat := 32
  const HEADER_LEN: nat := 256
  /** First header word: the offset of the tuple, as the ABI writes it. */
  const TUPLE_OFFSET: nat := 32
  /** Seventh header word: the offset of the `bytes` member within the tuple. */
  const PAYLOAD_OFFSET: nat := 192

  /** One ABI word: `s` right-aligned in 32 bytes, zero to its left. */
  function RightAligned(s: seq<byte>): (w: Bytes32)
    requires |s| <= WORD_LEN
    ensures w[WORD_LEN - |s|..] == s
    ensures forall i :: 0 <= i < WORD_LEN - |s| ==> w[i] == 0
  {
    Zeros(WORD_LEN - |s|) + s
  }

  /** The eight header words, in order. */
  function HeaderWords(m: InitMessage): (ws: seq<Bytes32>)
    ensures |ws| == 8
  {
    Pow256Widths();
    [ RightAligned(ToBe(TUPLE_OFFSET, 4)),
      RightAligned(ToBe(m.srcChainId, 8)),
      m.srcAddress,
      RightAligned(ToBe(m.dstChainId, 8)),
      m.dstAddress,
      RightAligned(ToBe(m.txId, 4)),
      RightAligned(ToBe(PAYLOAD_OFFSET, 4)),
      RightAligned(ToBe(AsU32(|m.payload|), 4)) ]
  }

  function Flatten(ws: seq<Bytes32>): (r: seq<byte>)
    ensures |r| == WORD_LEN * |ws|
  {
    if ws == [] then [] else ws[0] + Flatten(ws[1..])
  }

  lemma {:induction false} FlattenAt(ws: seq<Bytes32>, i: nat)
    requires i < WORD_LEN * |ws|
    ensures Flatten(ws)[i] == ws[i / WORD_LEN][i % WORD_LEN]
  {
    if i >= WORD_LEN {
      FlattenAt(ws[1..], i - WORD_LEN);
    }
  }

  /** The encoding the method below builds. */
  function Encode(m: InitMessage): seq<byte>
  {
    Flatten(HeaderWords(m)) + m.payload
  }

  /** The byte positions of the header that hold a field; every other header
      byte is zero padding. */
  predicate InFieldSlot(i: nat)
  {
    || 28 <= i < 32     // tuple offset
    || 56 <= i < 64     // src_chain_id
    || 64 <= i < 96     // src_address
    || 120 <= i < 128   // dst_chain_id
    || 128 <= i < 160   // dst_address
    || 188 <= i < 192   // tx_id
    || 220 <= i < 224   // payload offset
    || 252 <= i < 256   // payload length
  }

  lemma {:induction false} FlattenWord(ws: seq<Bytes32>, k: nat)
    requires k < |ws|
    ensures Flatten(ws)[WORD_LEN * k..WORD_LEN * k + WORD_LEN] == ws[k]
  {
    if k > 0 {
      FlattenWord(ws[1..], k - 1);
      assert Flatten(ws)[WORD_LEN..] == Flatten(ws[1..]);
    }
  }

  /** Each field sits big-endian in its slot (the payload length cut to 32
      bits by `as u32`), and the payload follows the header verbatim. */
  lemma EncodeSlots(m: InitMessage)
    ensures Pow256(4) == TWO_32 && Pow256(8) == TWO_64
    ensures var e := Encode(m);
      && |e| == HEADER_LEN + |m.payload|
      && e[HEADER_LEN..] == m.payload
      && e[28..32] == ToBe(TUPLE_OFFSET, 4)
      && e[56..64] == ToBe(m.srcChainId, 8)
      && e[64..96] == m.srcAddress
      && e[120..128] == ToBe(m.dstChainId, 8)
      && e[128..160] == m.dstAddress
      && e[188..192] == ToBe(m.txId, 4)
      && e[220..224] == ToBe(PAYLOAD_OFFSET, 4)
      && e[252..256] == ToBe(AsU32(|m.payload|), 4)
  {
    Pow256Widths();
    var ws := HeaderWords(m);
    var e := Encode(m);
    var f := Flatten(ws);
    assert e[..HEADER_LEN] == f;
    FlattenWord(ws, 0);
    assert e[28..32] == f[0..32][28..];
    FlattenWord(ws, 1);
    assert e[56..64] == f[32..64][24..];
    FlattenWord(ws, 2);
    assert e[64..96] == f[64..96];
    FlattenWord(ws, 3);
    assert e[120..128] == f[96..128][24..];
    FlattenWord(ws, 4);
    assert e[128..160] == f[128..160];
    FlattenWord(ws, 5);
    assert e[188..192] == f[160..192][28..];
    FlattenWord(ws, 6);
    assert e[220..224] == f[192..224][28..];
    FlattenWord(ws, 7);
    assert e[252..256] == f[224..256][28..];
  }

  /** Every header byte outside the eight field slots is zero. */
  lemma EncodePadding(m: InitMessage)
    ensures var e := Encode(m);
      |e| >= HEADER_LEN && forall i :: 0 <= i < HEADER_LEN && !InFieldSlot(i) ==> e[i] == 0
  {
    var ws := HeaderWords(m);
    var e := Encode(m);
    forall i | 0 <= i < HEADER_LEN && !InFieldSlot(i)
      ensures e[i] == 0
    {
      FlattenAt(ws, i);
      assert e[i] == ws[i / WORD_LEN][i % WORD_LEN];
    }
  }

  /** The byte layout of an encoding: its length, the payload verbatim after
      the header, each field in its slot, and zero everywhere else in the
      header. */
  lemma EncodeLayout(m: InitMessage)
    ensures Pow256(4) == TWO_32 && Pow256(8) == TWO_64
    ensures var e := Encode(m);
      && |e| == HEADER_LEN + |m.payload|
      && e[HEADER_LEN..] == m.payload
      && e[28..32] == ToBe(TUPLE_OFFSET, 4)
      && e[56..64] == ToBe(m.srcChainId, 8)
      && e[64..96] == m.srcAddress
      && e[120..128] == ToBe(m.dstChainId, 8)
      && e[128..160] == m.dstAddress
      && e[188..192] == ToBe(m.txId, 4)
      && e[220..224] == ToBe(PAYLOAD_OFFSET, 4)
      && e[252..256] == ToBe(AsU32(|m.payload|), 4)
      && forall i :: 0 <= i < HEADER_LEN && !InFieldSlot(i) ==> e[i] == 0
  {
    EncodeSlots(m);
    EncodePadding(m);
  }

  /** The inverse of `Encode`: reads the fields back from their slots and
      accepts only a canonical encoding (zero padding, both offset words, a
      length word equal to the length of the tail). */
  function Decode(e: seq<byte>): (r: Option<InitMessage>)
    ensures r.Some? ==> |e| >= HEADER_LEN && r.value.payload == e[HEADER_LEN..]
  {
    if |e| < HEADER_LEN then None
    else if exists i :: 0 <= i < HEADER_LEN && !InFieldSlot(i) && e[i] != 0 then None
    else if FromBe(e[28..32]) != TUPLE_OFFSET || FromBe(e[220..224]) != PAYLOAD_OFFSET then None
    else if FromBe(e[252..256]) != |e| - HEADER_LEN then None
    else
      Pow256Widths();
      FromBeBound(e[56..64]);
      FromBeBound(e[120..128]);
      FromBeBound(e[188..192]);
      Some(InitMessage(
        FromBe(e[56..64]), e[64..96], FromBe(e[120..128]), e[128..160],
        FromBe(e[188..192]), e[HEADER_LEN..]))
  }

  /** Decoding an encoding gives back the message field for field, as long
      as the payload length fits the 32-bit length word. */
  lemma DecodeEncode(m: InitMessage)
    requires |m.payload| < TWO_32
    ensures Decode(Encode(m)) == Some(m)
  {
    EncodeLayout(m);
    var e := Encode(m);
    FromBeToBe(TUPLE_OFFSET, 4);
    FromBeToBe(PAYLOAD_OFFSET, 4);
    FromBeToBe(|m.payload|, 4);
    FromBeToBe(m.srcChainId, 8);
    FromBeToBe(m.dstChainId, 8);
    FromBeToBe(m.txId, 4);
  }

  /** Two headers with zero padding that agree on every field slot are the
      same header. */
  lemma HeaderBySlots(a: seq<byte>, b: seq<byte>)
    requires |a| >= HEADER_LEN && |b| >= HEADER_LEN
    requires forall i :: 0 <= i < HEADER_LEN && !InFieldSlot(i) ==> a[i] == 0 && b[i] == 0
    requires a[28..32] == b[28..32] && a[56..64] == b[56..64] && a[64..96] == b[64..96]
    requires a[120..128] == b[120..128] && a[128..160] == b[128..160]
    requires a[188..192] == b[188..192] && a[220..224] == b[220..224]
    requires a[252..256] == b[252..256]
    ensures a[..HEADER_LEN] == b[..HEADER_LEN]
  {
    forall i | 0 <= i < HEADER_LEN
      ensures a[i] == b[i]
    {
      if 28 <= i < 32 {
        assert a[i] == a[28..32][i - 28] && b[i] == b[28..32][i - 28];
      } else if 56 <= i < 64 {
        assert a[i] == a[56..64][i - 56] && b[i] == b[56..64][i - 56];
      } else if 64 <= i < 96 {
        assert a[i] == a[64..96][i - 64] && b[i] == b[64..96][i - 64];
      } else if 120 <= i < 128 {
        assert a[i] == a[120..128][i - 120] && b[i] == b[120..128][i - 120];
      } else if 128 <= i < 160 {
        assert a[i] == a[128..160][i - 128] && b[i] == b[128..160][i - 128];
      } else if 188 <= i < 192 {
        assert a[i] == a[188..192][i - 188] && b[i] == b[188..192][i - 188];
      } else if 220 <= i < 224 {
        assert a[i] == a[220..224][i - 220] && b[i] == b[220..224][i - 220];
      } else if 252 <= i < 256 {
        assert a[i] == a[252..256][i - 252] && b[i] == b[252..256][i - 252];
      }
    }
  }

  /** Every byte string that decodes is the encoding of what it decodes to:
      together with `DecodeEncode`, `Decode(e) == Some(m)` exactly when
      `e == Encode(m)` and the payload is shorter than 2^32 bytes. */
  lemma EncodeDecode(e: seq<byte>)
    requires Decode(e).Some?
    ensures |Decode(e).value.payload| < TWO_32
    ensures Encode(Decode(e).value) == e
  {
    var m := Decode(e).value;
    EncodeLayout(m);
    var e' := Encode(m);
    FromBeBound(e[252..256]);
    ToBeFromBe(e[28..32]);
    ToBeFromBe(e[56..64]);
    ToBeFromBe(e[120..128]);
    ToBeFromBe(e[188..192]);
    ToBeFromBe(e[220..224]);
    ToBeFromBe(e[252..256]);
    assert |e'| == |e|;
    HeaderBySlots(e', e);
    assert e' == e'[..HEADER_LEN] + e'[HEADER_LEN..];
    assert e == e[..HEADER_LEN] + e[HEADER_LEN..];
  }

  /** Distinct messages have distinct encodings, for every payload length
      (the payload is the tail itself, so the truncated length word does not
      matter here). */
  lemma EncodeInjective(m1: InitMessage, m2: InitMessage)
    requires Encode(m1) == Encode(m2)
    ensures m1 == m2
  {
    EncodeLayout(m1);
    EncodeLayout(m2);
    FromBeToBe(m1.srcChainId, 8);
    FromBeToBe(m2.srcChainId, 8);
    FromBeToBe(m1.dstChainId, 8);
    FromBeToBe(m2.dstChainId, 8);
    FromBeToBe(m1.txId, 4);
    FromBeToBe(m2.txId, 4);
  }

  /** The eight slot writes of `serialize_init_message_eth`, applied to the
      zeroed 256-byte `word`, produce exactly the header of `Encode`. */
  lemma SlotWritesMakeHeader(m: InitMessage)
    ensures Pow256(4) == TWO_32 && Pow256(8) == TWO_64
    ensures
      var w0 := Zeros(HEADER_LEN);
      var w1 := Splice(w0, 28, ToBe(TUPLE_OFFSET, 4));
      var w2 := Splice(w1, 56, ToBe(m.srcChainId, 8));
      var w3 := Splice(w2, 64, m.srcAddress);
      var w4 := Splice(w3, 120, ToBe(m.dstChainId, 8));
      var w5 := Splice(w4, 128, m.dstAddress);
      var w6 := Splice(w5, 188, ToBe(m.txId, 4));
      var w7 := Splice(w6, 220, ToBe(PAYLOAD_OFFSET, 4));
      var w8 := Splice(w7, 252, ToBe(AsU32(|m.payload|), 4));
      w8 == Encode(m)[..HEADER_LEN]
  {
    EncodeLayout(m);
    var e := Encode(m);
    var w0 := Zeros(HEADER_LEN);
    var w1 := Splice(w0, 28, ToBe(TUPLE_OFFSET, 4));
    var w2 := Splice(w1, 56, ToBe(m.srcChainId, 8));
    var w3 := Splice(w2, 64, m.srcAddress);
    var w4 := Splice(w3, 120, ToBe(m.dstChainId, 8));
    var w5 := Splice(w4, 128, m.dstAddress);
    var w6 := Splice(w5, 188, ToBe(m.txId, 4));
    var w7 := Splice(w6, 220, ToBe(PAYLOAD_OFFSET, 4));
    var w8 := Splice(w7, 252, ToBe(AsU32(|m.payload|), 4));
    forall i | 0 <= i < HEADER_LEN
      ensures w8[i] == e[i]
    {
      SpliceAt(w0, 28, ToBe(TUPLE_OFFSET, 4), i);
      SpliceAt(w1, 56, ToBe(m.srcChainId, 8), i);
      SpliceAt(w2, 64, m.srcAddress, i);
      SpliceAt(w3, 120, ToBe(m.dstChainId, 8), i);
      SpliceAt(w4, 128, m.dstAddress, i);
      SpliceAt(w5, 188, ToBe(m.txId, 4), i);
      SpliceAt(w6, 220, ToBe(PAYLOAD_OFFSET, 4), i);
      SpliceAt(w7, 252, ToBe(AsU32(|m.payload|), 4), i);
      if 28 <= i < 32 {
        assert e[i] == e[28..32][i - 28];
      } else if 56 <= i < 64 {
        assert e[i] == e[56..64][i - 56];
      } else if 64 <= i < 96 {
        assert e[i] == e[64..96][i - 64];
      } else if 120 <= i < 128 {
        assert e[i] == e[120..128][i - 120];
      } else if 128 <= i < 160 {
        assert e[i] == e[128..160][i - 128];
      } else if 188 <= i < 192 {
        assert e[i] == e[188..192][i - 188];
      } else if 220 <= i < 224 {
        assert e[i] == e[220..224][i - 220];
      } else if 252 <= i < 256 {
        assert e[i] == e[252..256][i - 252];
      }
    }
  }

  /** `serialize_init_message_eth`: fills a zeroed 256-byte `word` slot by
      slot in place, then appends it and the payload to an empty vector. */
  method SerializeInitMessageEth(message: InitMessage) returns (result: seq<byte>)
    ensures result == Encode(message)
    ensures |result| == HEADER_LEN + |message.payload|
    ensures result[HEADER_LEN..] == message.payload
  {
    SlotWritesMakeHeader(message);
    result := [];
    var word := new byte[HEADER_LEN](_ => 0);
    assert word[..] == Zeros(HEADER_LEN);
    CopyFromSlice(word, WORD_LEN - 4, ToBe(TUPLE_OFFSET, 4));
    CopyFromSlice(word, 2 * WORD_LEN - 8, ToBe(message.srcChainId, 8));
    CopyFromSlice(word, 2 * WORD_LEN, message.srcAddress);
    CopyFromSlice(word, 4 * WORD_LEN - 8, ToBe(message.dstChainId, 8));
    CopyFromSlice(word, 4 * WORD_LEN, message.dstAddress);
    CopyFromSlice(word, 6 * WORD_LEN - 4, ToBe(message.txId, 4));
    CopyFromSlice(word, 7 * WORD_LEN - 4, ToBe(PAYLOAD_OFFSET, 4));
    CopyFromSlice(word, 8 * WORD_LEN - 4, ToBe(AsU32(|message.payload|), 4));
    result := result + word[..];
    result := result + message.payload;
    assert Encode(message) == Encode(message)[..HEADER_LEN] + message.payload;
  }
}
