# Asterizm client: message identity, modelled in Dafny

This project models the message-identity core of the Asterizm cross-chain
client program on Solana. The core has three parts:

- **Canonical encoding** (`serialize_init_message_eth`). An outgoing
  `InitMessage` becomes a 256-byte header of eight 32-byte big-endian words,
  laid out like the Solidity ABI encoding of a tuple with one dynamic
  `bytes` member. The payload follows the header without ABI padding.
- **Transfer identifier** (`build_crosschain_hash`). SHA-256 of the first
  112 bytes of the encoding is folded with `hash := H(hash ++ H(chunk))` over
  127-byte chunks of the rest.
- **Transfer records**. A `TransferAccount` lives at an address derived
  from the seed tuple (direction tag, client address, transfer hash). The
  account rules of `InitSendMessage`, `SendMessage`, `InitReceiveMessage`
  and `ReceiveMessage` gate the instructions. The `init` on the incoming
  record of `InitReceiveMessage` is the replay guard.

Files, one module each:

- `bytes.dfy` (`Bytes`): `u8`/`u32`/`u64`, 32-byte keys and digests,
  big-endian bytes (`to_be_bytes`), `as u32`, and the in-place
  `copy_from_slice`.
- `codec.dfy` (`Codec`): the encoder, written as a method over a 256-byte
  array. It is proved equal to the specification function `Encode`.
  `Decode` inverts `Encode` for payloads shorter than 2^32 bytes. Longer
  payloads do not decode, because the length word is cut to 32 bits.
- `hashchain.dfy` (`HashChain`): the identifier, written as a method with
  the loop of `build_crosschain_hash` (`message.rs:107-119`) and its 64-byte
  buffer. It is proved equal to
  `CrosschainHash`. SHA-256 is a parameter `h` of type
  `seq<byte> -> Bytes32`, so every result holds for any 32-byte hash
  function.
- `ledger.dfy` (`Ledger`): the record layout, the seed bytes, the four
  instructions' account rules as functions over the record map, and the
  class `TransferLedger`. Its create-or-fail `InitReceiveMessage` updates
  that map.

Addresses derived from seeds are modelled by the seed tuples themselves.
`DerivationInputInjective` shows that distinct transfer seed tuples give
distinct inputs to the derivation hash. The accounts whose fields these rules
read form a `Registry` value, and each call is given its own: settings,
client accounts with their relay owner, trusted addresses, senders, the
relayer's chain accounts, and the initializer's and relayer's settings
accounts. `client_account` is `mut` in `InitSendMessage` (`message.rs:47`)
and `SendMessage` (`message.rs:129`), so their handlers may write it. The
rules read only whether it exists and its `relay_owner`.

Three points about the code itself:

- The `else` at `message.rs:111-112` suggests that a final partial chunk
  was meant to be hashed. The loop bound at line 107 never reaches it (see
  Findings).
- `InitSendMessage` requires the authority to be the user itself: the
  `constraint` at `message.rs:55` compares it with `user_address`.
- Failures are Anchor account-validation errors, not named program errors:
  a missing account, a false `constraint`, or an `init` on an existing
  account. `AccountError` models those. Anchor validates in three phases.
  First it loads the typed accounts that are not `init`, in declaration
  order. Then it runs `init`. Then it checks the `constraint`s in
  declaration order. The check functions report the first failure in
  that order.

## Model

| member | source | states |
|---|---|---|
| Bytes.AsU32 | programs/asterizm-client/src/models/message.rs:93 | `len as u32` keeps the low 32 bits: it is the identity below 2^32 and differs from the length by a multiple of 2^32 |
| Bytes.ToBeFromBe | programs/asterizm-client/src/models/message.rs:86-93 | every byte string is the `to_be_bytes` of the number it denotes, so the big-endian fields can be read back exactly |
| Bytes.CopyFromSlice | programs/asterizm-client/src/models/message.rs:86-93 | `copy_from_slice` overwrites exactly the target range in place and leaves every other byte unchanged |
| Codec.EncodeSlots | programs/asterizm-client/src/models/message.rs:86-96 | the encoding has length 256 + payload length; `[28,32)`=32, `[56,64)`=src_chain_id, `[64,96)`=src_address, `[120,128)`=dst_chain_id, `[128,160)`=dst_address, `[188,192)`=tx_id, `[220,224)`=192, `[252,256)`=payload length cut to 32 bits, all big-endian; the payload follows verbatim |
| Codec.EncodePadding | programs/asterizm-client/src/models/message.rs:85 | every header byte outside the eight field slots is zero |
| Codec.EncodeLayout | programs/asterizm-client/src/models/message.rs:83-97 | the complete byte layout: the slot contents and the zero padding together |
| Codec.DecodeEncode | programs/asterizm-client/src/models/message.rs:73-96 | decoding an encoding returns the original `InitMessage` field for field when the payload is shorter than 2^32 bytes |
| Codec.EncodeDecode | programs/asterizm-client/src/models/message.rs:82-98 | whatever decodes is exactly the encoding of its decoded message, so `Decode(e) == Some(m)` iff `e == Encode(m)` and `|m.payload| < 2^32` |
| Codec.EncodeInjective | programs/asterizm-client/src/models/message.rs:73-96 | distinct messages have distinct encodings, whatever the payload length |
| Codec.SlotWritesMakeHeader | programs/asterizm-client/src/models/message.rs:85-93 | the eight in-place slot writes on a zeroed 256-byte word yield exactly the header of the encoding |
| Codec.SerializeInitMessageEth | programs/asterizm-client/src/models/message.rs:82-98 | the method (zeroed array, slot writes, two `extend_from_slice`) returns `Encode(message)`: 256 + payload-length bytes ending in the payload |
| HashChain.ChunkAt | programs/asterizm-client/src/models/message.rs:108-113 | the chunk of iteration `i` is a contiguous slice of the tail starting at `127*i`, at most 127 bytes long, and either full or running to the end of the tail |
| HashChain.ChunksConcat | programs/asterizm-client/src/models/message.rs:107-113 | the chunks of `n` iterations laid end to end are the first `min(127*n, len)` bytes of the tail |
| HashChain.ChunksShape | programs/asterizm-client/src/models/message.rs:104-113 | with `build_crosschain_hash`'s bound `(len-112)/127` (line 107), the loop takes exactly that many chunks, each a full 127 bytes at offset `127*k`, covering the tail up to a remainder shorter than 127 |
| HashChain.FullChunkFits | programs/asterizm-client/src/models/message.rs:107-112 | under that bound the condition `from + chunk_length <= payload_length` always holds, so the `else` branch is dead |
| HashChain.EncodePair | programs/asterizm-client/src/models/message.rs:115-117 | the two in-place slice writes into the zeroed 64-byte `encoded` buffer leave exactly the running hash followed by the chunk hash |
| HashChain.BuildCrosschainHash | programs/asterizm-client/src/models/message.rs:100-122 | the method with its loop and 64-byte buffer returns `CrosschainHash(h, packed)` for every input of at least 112 bytes (shorter inputs panic at the slices) |
| HashChain.HashIgnoresTail | programs/asterizm-client/src/models/message.rs:104-119 | two inputs with the same chunk count that agree on their first `112 + 127*n` bytes have the same identifier, whatever their trailing bytes |
| HashChain.EmptyPayloadHash | programs/asterizm-client/src/models/message.rs:100-121 | for an empty payload the identifier is `H(H(e[0..112]) ++ H(e[112..239]))`, so the length word `[252,256)` is never hashed |
| HashChain.LastPayloadByteIgnored | programs/asterizm-client/src/models/message.rs:107 | every message with a 111-byte payload has the same identifier as a different message that changes its last payload byte |
| HashChain.ShortPayloadsHashAlike | programs/asterizm-client/src/models/message.rs:104-113 | for every hash function, messages with the same header fields and payloads shorter than 110 bytes share one identifier, whatever their payload contents and lengths |
| HashChain.CoveringChunksCoverTail | programs/asterizm-client/src/models/message.rs:107-113 | with a rounded-up bound the chunks, the partial one from the `else` branch included, are exactly the whole tail |
| HashChain.CoveringChainInjective | programs/asterizm-client/src/models/message.rs:101-113 | with a rounded-up bound, the static part and the chunk list absorbed determine the input |
| HashChain.CoveringHashCollision | programs/asterizm-client/src/models/message.rs:100-122 | with a rounded-up bound, two different inputs with the same identifier exhibit a collision of the hash function, for every hash function |
| Ledger.TransferLayout | programs/asterizm-client/src/models/message.rs:12-24 | a record's stored fields take `TRANSFER_ACCOUNT_LEN` = 3 bytes, with the discriminator `8 + TRANSFER_ACCOUNT_LEN` bytes (the space `init` allocates at line 228), and read back as the same record |
| Ledger.DeserializeTransferCanonical | programs/asterizm-client/src/models/message.rs:18-24 | every byte string that reads back as a record begins with that record's layout |
| Ledger.DerivationInputInjective | programs/asterizm-client/src/models/message.rs:147 | distinct (seed tuple, bump) pairs of transfer records give distinct derivation inputs; the tags `outgoing_transfer` (line 147) and `incoming_transfer` (lines 229, 275) separate the two record spaces |
| Ledger.InitSendMessageChecks | programs/asterizm-client/src/models/message.rs:35-70 | `InitSendMessage` passes iff settings, client account, trusted address and relayer chain account exist and `authority == user_address` (line 55); it fails on that constraint exactly when every account exists but the authority differs |
| Ledger.SendMessageChecks | programs/asterizm-client/src/models/message.rs:124-154 | `SendMessage` passes iff client and trusted-address accounts exist, a sender account for (user, sender) exists, `authority == sender.address` (line 142), the record at `("outgoing_transfer", user, hash)` exists, and the initializer's and relayer's settings accounts exist (lines 152, 154) |
| Ledger.InitReceiveMessageChecks | programs/asterizm-client/src/models/message.rs:208-232 | `InitReceiveMessage` passes iff `authority == relay_owner` (line 216), `trusted_address.address == src_address` (line 222), and no record at `("incoming_transfer", dst, hash)` exists; since `init` runs before the constraints, it fails with already-in-use exactly when the client and trusted-address accounts exist and the record exists, whoever the authority and whatever the source address; a constraint failure implies no record exists |
| Ledger.ReceiveMessageChecks | programs/asterizm-client/src/models/message.rs:247-286 | `ReceiveMessage` passes iff settings and client accounts exist, a sender account for (dst, sender) exists and `authority == sender.address` (line 265), the trusted address matches (line 271), the record at `("incoming_transfer", dst, hash)` exists, and the relayer chain account exists |
| Ledger.InitReceiveStep | programs/asterizm-client/src/models/message.rs:225-231 | a successful call adds a default record at the incoming seed, which did not exist before; a failing call changes nothing |
| Ledger.ReplayRejected | programs/asterizm-client/src/models/message.rs:225-231 | after a successful `InitReceiveMessage`, every call with the same (dst_address, transfer_hash) fails and changes nothing, even if the registry accounts changed in between |
| Ledger.AtMostOnce | programs/asterizm-client/src/models/message.rs:225-231 | over any sequence of calls, each against its own registry state, each incoming seed is created at most once, and never when a record already exists there |
| Ledger.RunKeepsRecords | programs/asterizm-client/src/models/message.rs:225-231 | any sequence of calls, each against its own registry state, keeps every existing record unchanged and adds only default incoming records |
| Ledger.InitReceiveKeepsSendChecks | programs/asterizm-client/src/models/message.rs:145-150 | creating an incoming record never changes the outcome of `SendMessage`'s checks, which read only the outgoing space |
| Ledger.InitReceiveEnablesReceive | programs/asterizm-client/src/models/message.rs:274-278 | after a successful `InitReceiveMessage`, `ReceiveMessage` for the same dst, source and hash passes iff its settings, sender and chain checks hold (with the `bump` check left out, see below) |
| Ledger.TransferLedger.InitReceiveMessage | programs/asterizm-client/src/models/message.rs:208-232 | the create-or-fail method: it succeeds iff relay owner and trusted source match and no incoming record exists; on success the map gains exactly that default record, on failure it is unchanged |

## Left out

- SHA-256 and address derivation are host primitives. `H` is a parameter.
  An address is its seed tuple. The canonical-bump search and the
  `bump = x.bump` checks are not modelled.
- Ledger.InitReceiveEnablesReceive: holds only because the
  `bump = transfer_account.bump` check at `message.rs:276` is not modelled.
  The model's new incoming record is the default one, with bump 0. For the
  program the conclusion holds only if the `InitReceiveMessage` handler,
  which is not part of this model, stores the canonical bump.
- The `From<&mut SendMessage>` CPI conversion (`message.rs:181-206`) is not
  modelled. Of the accounts it forwards (`message.rs:151-178`), only the
  existence of the two typed settings accounts (lines 152, 154) is
  modelled. The untyped `AccountInfo` accounts have no rule here. The
  `address` constraint on the instructions sysvar (line 177) is not
  modelled.
- Sysvar, rent, system-program and program accounts are left out. So are
  `mut` markers and `Signer` checks: the authority is taken as signed.
- The events (`message.rs:26-33`, `239-245`, `297-302`) are observability
  only. `TransferSendingResult` (`message.rs:288-295`) has no rule beyond a
  signer and the sysvar.
- The creation of the outgoing record by `InitSendMessage`'s handler is left
  out. So is every flip of `success_receive`/`success_execute`. Those
  handlers are not part of this model, so a `TransferLedger` starts from
  whatever records already exist.
- A new incoming record is the `Default` record: writing its `bump` is
  handler code that is not part of this model.
- No account rule reads the `_tx_id` arguments (lines 125, 209, 248), so
  they are not parameters.
- Anchor's own validation code is not part of this model. Its phase order
  (loads, then `init`, then `constraint`s) is modelled as described above.
  The seeds and bump checks themselves are not modelled.
- The 8-byte Anchor discriminator's value (itself a hash) is not modelled;
  only its length is.
- `settings.rs` administration and the TypeScript test and deploy scripts
  are not part of this model.
- Transactions are atomic and run one at a time on the host. Concurrent
  callers are modelled as a sequence of calls (`AtMostOnce`).

## Findings

| source | as written | input that shows it | evidently intended | confidence | as-written member | corrected member |
|---|---|---|---|---|---|---|
| programs/asterizm-client/src/models/message.rs:107 | the loop runs `payload_length / chunk_length` times, so the partial-chunk `else` branch (lines 111-112) is dead and the last `(len-112) % 127` bytes are never hashed | any two messages with the same header fields and payloads shorter than 110 bytes, for example `[]` and `[1]`: one chunk, bytes `[112, 239)`, so neither the payload nor its length word is hashed (`ShortPayloadsHashAlike`); also any message with a 111-byte payload and the same message with its last payload byte changed: 255 tail bytes, 2 chunks, byte 366 unhashed (`LastPayloadByteIgnored`); equal identifiers for every hash function | a rounded-up bound `(payload_length + 126) / 127`, under which the `else` branch takes the final partial chunk and every byte reaches the hash | medium, not executed; changing it would also change the identifier the remote chain computes | HashChain.LastPayloadByteIgnored | HashChain.CoveringHashCollision |

The model keeps the as-written bound in `BuildCrosschainHash`. The
identifier has to match the one the remote chain computes, so the model
follows the code. `CrosschainHashCovering` is the corrected definition.
`CoveringChunksCoverTail` and `CoveringChainInjective` prove that its
chunks cover the whole input. `CoveringHashCollision` lifts this to
identifiers: two different inputs share a corrected identifier only through
a collision of the hash function.
