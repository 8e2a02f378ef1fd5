/** Transfer records and the account rules of the four message instructions
    (`InitSendMessage`, `SendMessage`, `InitReceiveMessage`,
    `ReceiveMessage`). A record lives at an address derived from the seed
    tuple (direction tag, client address, transfer hash); the address is
    modelled by the seed tuple itself, and the host's create-or-fail `init`
    by a map insertion that refuses an existing key. */
module Ledger {
  import opened Bytes

  // ---------------------------------------------------------------------
  // The record and its stored layout

  /** `TRANSFER_ACCOUNT_LEN`: one byte each for `success_receive`,
      `success_execute` and `bump`. */
  const TRANSFER_ACCOUNT_LEN: nat := 1 + 1 + 1
  /** Anchor's account discriminator, stored before the fields. */
  const DISCRIMINATOR_LEN: nat := 8
  /** `space = 8 + TRANSFER_ACCOUNT_LEN` of the `init` constraint. */
  const TRANSFER_ACCOUNT_SPACE: nat := DISCRIMINATOR_LEN + TRANSFER_ACCOUNT_LEN

  datatype TransferAccount = TransferAccount(successReceive: bool, successExecute: bool, bump: byte)

  /** `#[derive(Default)]`: what `init` leaves in a new record. */
  const DEFAULT_TRANSFER: TransferAccount := TransferAccount(false, false, 0)

  function BoolByte(b: bool): byte
  {
    if b then 1 else 0
  }

  /** The record's fields as stored after the discriminator (Borsh: a bool
      is one byte 0 or 1, a `u8` is itself), in declaration order. */
  function SerializeTransfer(t: TransferAccount): (data: seq<byte>)
  {
    [BoolByte(t.successReceive), BoolByte(t.successExecute), t.bump]
  }

  /** Reads a record back from the bytes after the discriminator; a bool
      byte other than 0 or 1, or too few bytes, is refused. */
  function DeserializeTransfer(data: seq<byte>): (r: Option<TransferAccount>)
  {
    if |data| < TRANSFER_ACCOUNT_LEN || data[0] > 1 || data[1] > 1 then None
    else Some(TransferAccount(data[0] == 1, data[1] == 1, data[2]))
  }

  /** The stored layout takes exactly `TRANSFER_ACCOUNT_LEN` bytes, fits the
      space `init` allocates, and reads back as the same record. */
  lemma TransferLayout(t: TransferAccount)
    ensures |SerializeTransfer(t)| == TRANSFER_ACCOUNT_LEN
    ensures DISCRIMINATOR_LEN + |SerializeTransfer(t)| == TRANSFER_ACCOUNT_SPACE
    ensures DeserializeTransfer(SerializeTransfer(t)) == Some(t)
  {
  }

  /** Whatever reads back as a record is that record's layout, so the layout
      is canonical: no two byte strings of length 3 denote the same record. */
  lemma DeserializeTransferCanonical(data: seq<byte>)
    requires DeserializeTransfer(data).Some?
    ensures SerializeTransfer(DeserializeTransfer(data).value) == data[..TRANSFER_ACCOUNT_LEN]
  {
  }

  // ---------------------------------------------------------------------
  // Seeds

  const OUTGOING_TRANSFER_SEED: string := "outgoing_transfer"
  const INCOMING_TRANSFER_SEED: string := "incoming_transfer"

  datatype Direction = Outgoing | Incoming

  function DirectionTag(d: Direction): string
  {
    match d
    case Outgoing => OUTGOING_TRANSFER_SEED
    case Incoming => INCOMING_TRANSFER_SEED
  }

  /** The seed tuple of a transfer record: `(tag, client address, hash)`. */
  datatype TransferSeed = TransferSeed(direction: Direction, account: Bytes32, transferHash: Bytes32)

  function OutgoingSeed(user: Bytes32, transferHash: Bytes32): TransferSeed
  {
    TransferSeed(Outgoing, user, transferHash)
  }

  function IncomingSeed(dst: Bytes32, transferHash: Bytes32): TransferSeed
  {
    TransferSeed(Incoming, dst, transferHash)
  }

  /** `"...".as_bytes()` for the ASCII seed tags. */
  function AsciiBytes(s: string): (r: seq<byte>)
    requires forall i :: 0 <= i < |s| ==> s[i] as int < 128
    ensures |r| == |s| && forall i :: 0 <= i < |s| ==> r[i] == s[i] as int
  {
    seq(|s|, i requires 0 <= i < |s| => s[i] as int)
  }

  /** The seed slices of a record, laid end to end with the bump byte, as
      the host hashes them to derive the record's address. */
  function DerivationInput(seed: TransferSeed, bump: byte): (r: seq<byte>)
  {
    AsciiBytes(DirectionTag(seed.direction)) + seed.account + seed.transferHash + [bump]
  }

  /** Where each part of a derivation input sits: the 17-byte tag, whose
      first byte tells the direction, then the client address, the hash and
      the bump. */
  lemma DerivationInputParts(seed: TransferSeed, bump: byte)
    ensures var x := DerivationInput(seed, bump);
      && |x| == 82
      && x[0] == (if seed.direction == Outgoing then 'o' as int else 'i' as int)
      && x[17..49] == seed.account
      && x[49..81] == seed.transferHash
      && x[81] == bump
  {
    var t := AsciiBytes(DirectionTag(seed.direction));
    assert |t| == 17;
    assert t[0] == DirectionTag(seed.direction)[0] as int;
    var x := DerivationInput(seed, bump);
    assert x == t + seed.account + seed.transferHash + [bump];
  }

  /** Distinct (seed tuple, bump) pairs give distinct derivation inputs: the
      two tags have the same length and differ in their first byte, so the
      outgoing and incoming record spaces never share an address, and
      within one space the client address and hash are read back from fixed
      offsets. */
  lemma DerivationInputInjective(s1: TransferSeed, b1: byte, s2: TransferSeed, b2: byte)
    requires DerivationInput(s1, b1) == DerivationInput(s2, b2)
    ensures s1 == s2 && b1 == b2
  {
    DerivationInputParts(s1, b1);
    DerivationInputParts(s2, b2);
  }

  // ---------------------------------------------------------------------
  // Accounts whose fields the four instructions' rules read

  /** `ClientAccount`: only its relay owner takes part in these rules. */
  datatype ClientAccount = ClientAccount(relayOwner: Bytes32)

  /** The accounts whose fields the four instructions' rules read, each
      keyed by its seed tuple: `["settings"]`, `["client", user]`,
      `["trusted_address", user, chain_id]` (holding the trusted remote
      address), `["sender", user, sender]`, the relayer program's
      `["chain", chain_id]`, and the initializer's and relayer's settings
      accounts that `SendMessage` forwards. A flag says whether an account
      exists. Each call is given its own registry: `client_account` is `mut`
      in `InitSendMessage` (message.rs:47) and `SendMessage`
      (message.rs:129), so their handlers may write it; the rules read only
      whether it exists and its `relay_owner`. */
  datatype Registry = Registry(
    settingsExists: bool,
    clients: map<Bytes32, ClientAccount>,
    trusted: map<(Bytes32, u64), Bytes32>,
    senders: set<(Bytes32, Bytes32)>,
    relayerChains: set<u64>,
    initializerSettingsExists: bool,
    relayerSettingsExists: bool)

  /** The account fields whose checks can fail. */
  datatype AccountField =
    | SettingsField | ClientField | TrustedAddressField | SenderField | TransferField | ChainField
    | InitializerSettingsField | RelayerSettingsField

  /** How an instruction's account validation fails. */
  datatype AccountError =
    | AccountNotInitialized(field: AccountField)  // no account at the field's seeds
    | ConstraintViolated(field: AccountField)     // its `constraint = ...` is false
    | AccountAlreadyInUse                         // `init` found the account existing

  datatype Outcome = Pass | Fail(error: AccountError)

  // ---------------------------------------------------------------------
  // Account validation of the four instructions
  //
  // Anchor's generated validation runs in three phases: it loads every
  // typed account that is not `init`, in declaration order; then it runs
  // the `init` of the `init` accounts; then it checks every `constraint`
  // in declaration order. The first failure is the error reported.

  /** `InitSendMessage`: settings, client, trusted-address and chain
      accounts exist, and the authority is the user itself. */
  function InitSendMessageChecks(reg: Registry, authority: Bytes32, userAddress: Bytes32, dstChainId: u64): (r: Outcome)
    ensures r.Pass? <==>
      && reg.settingsExists
      && userAddress in reg.clients
      && (userAddress, dstChainId) in reg.trusted
      && authority == userAddress
      && dstChainId in reg.relayerChains
    ensures r == Fail(ConstraintViolated(TrustedAddressField)) <==>
      && reg.settingsExists
      && userAddress in reg.clients
      && (userAddress, dstChainId) in reg.trusted
      && dstChainId in reg.relayerChains
      && authority != userAddress
  {
    if !reg.settingsExists then Fail(AccountNotInitialized(SettingsField))
    else if userAddress !in reg.clients then Fail(AccountNotInitialized(ClientField))
    else if (userAddress, dstChainId) !in reg.trusted then Fail(AccountNotInitialized(TrustedAddressField))
    else if dstChainId !in reg.relayerChains then Fail(AccountNotInitialized(ChainField))
    else if authority != userAddress then Fail(ConstraintViolated(TrustedAddressField))
    else Pass
  }

  /** `SendMessage`: client, trusted-address, sender and outgoing-record
      accounts exist, so do the initializer's and relayer's settings
      accounts, and the sender is the signing authority. */
  function SendMessageChecks(
    reg: Registry, records: map<TransferSeed, TransferAccount>,
    authority: Bytes32, userAddress: Bytes32, dstChainId: u64, transferHash: Bytes32, sender: Bytes32): (r: Outcome)
    ensures r.Pass? <==>
      && userAddress in reg.clients
      && (userAddress, dstChainId) in reg.trusted
      && (userAddress, sender) in reg.senders
      && authority == sender
      && OutgoingSeed(userAddress, transferHash) in records
      && reg.initializerSettingsExists
      && reg.relayerSettingsExists
    ensures r == Fail(AccountNotInitialized(TransferField)) ==> OutgoingSeed(userAddress, transferHash) !in records
    ensures r == Fail(ConstraintViolated(SenderField)) ==> authority != sender
  {
    if userAddress !in reg.clients then Fail(AccountNotInitialized(ClientField))
    else if (userAddress, dstChainId) !in reg.trusted then Fail(AccountNotInitialized(TrustedAddressField))
    else if (userAddress, sender) !in reg.senders then Fail(AccountNotInitialized(SenderField))
    else if OutgoingSeed(userAddress, transferHash) !in records then Fail(AccountNotInitialized(TransferField))
    else if !reg.initializerSettingsExists then Fail(AccountNotInitialized(InitializerSettingsField))
    else if !reg.relayerSettingsExists then Fail(AccountNotInitialized(RelayerSettingsField))
    else if authority != sender then Fail(ConstraintViolated(SenderField))
    else Pass
  }

  /** `InitReceiveMessage`: the authority is the client's relay owner, the
      trusted address for the source chain is the claimed source address,
      and no incoming record for the hash exists yet (`init`). Because
      `init` runs before the `constraint` checks, an existing record is
      reported as already in use whoever calls and whatever source address
      is claimed. */
  function InitReceiveMessageChecks(
    reg: Registry, records: map<TransferSeed, TransferAccount>,
    authority: Bytes32, dstAddress: Bytes32, srcAddress: Bytes32, srcChainId: u64, transferHash: Bytes32): (r: Outcome)
    ensures r.Pass? <==>
      && dstAddress in reg.clients
      && authority == reg.clients[dstAddress].relayOwner
      && (dstAddress, srcChainId) in reg.trusted
      && reg.trusted[(dstAddress, srcChainId)] == srcAddress
      && IncomingSeed(dstAddress, transferHash) !in records
    ensures r == Fail(AccountAlreadyInUse) <==>
      && dstAddress in reg.clients
      && (dstAddress, srcChainId) in reg.trusted
      && IncomingSeed(dstAddress, transferHash) in records
    ensures r == Fail(ConstraintViolated(ClientField)) ==>
      && dstAddress in reg.clients
      && authority != reg.clients[dstAddress].relayOwner
      && IncomingSeed(dstAddress, transferHash) !in records
    ensures r == Fail(ConstraintViolated(TrustedAddressField)) ==>
      && (dstAddress, srcChainId) in reg.trusted
      && reg.trusted[(dstAddress, srcChainId)] != srcAddress
      && IncomingSeed(dstAddress, transferHash) !in records
  {
    if dstAddress !in reg.clients then Fail(AccountNotInitialized(ClientField))
    else if (dstAddress, srcChainId) !in reg.trusted then Fail(AccountNotInitialized(TrustedAddressField))
    else if IncomingSeed(dstAddress, transferHash) in records then Fail(AccountAlreadyInUse)
    else if authority != reg.clients[dstAddress].relayOwner then Fail(ConstraintViolated(ClientField))
    else if reg.trusted[(dstAddress, srcChainId)] != srcAddress then Fail(ConstraintViolated(TrustedAddressField))
    else Pass
  }

  /** `ReceiveMessage`: settings, client, sender, trusted-address,
      incoming-record and chain accounts exist, the sender is the signing
      authority, and the trusted address for the source chain is the
      claimed source address. */
  function ReceiveMessageChecks(
    reg: Registry, records: map<TransferSeed, TransferAccount>,
    authority: Bytes32, dstAddress: Bytes32, srcChainId: u64, srcAddress: Bytes32, transferHash: Bytes32,
    sender: Bytes32): (r: Outcome)
    ensures r.Pass? <==>
      && reg.settingsExists
      && dstAddress in reg.clients
      && (dstAddress, sender) in reg.senders
      && authority == sender
      && (dstAddress, srcChainId) in reg.trusted
      && reg.trusted[(dstAddress, srcChainId)] == srcAddress
      && IncomingSeed(dstAddress, transferHash) in records
      && srcChainId in reg.relayerChains
    ensures r == Fail(AccountNotInitialized(TransferField)) ==> IncomingSeed(dstAddress, transferHash) !in records
    ensures r == Fail(ConstraintViolated(TrustedAddressField)) ==>
      && (dstAddress, srcChainId) in reg.trusted
      && reg.trusted[(dstAddress, srcChainId)] != srcAddress
      && IncomingSeed(dstAddress, transferHash) in records
  {
    if !reg.settingsExists then Fail(AccountNotInitialized(SettingsField))
    else if dstAddress !in reg.clients then Fail(AccountNotInitialized(ClientField))
    else if (dstAddress, sender) !in reg.senders then Fail(AccountNotInitialized(SenderField))
    else if (dstAddress, srcChainId) !in reg.trusted then Fail(AccountNotInitialized(TrustedAddressField))
    else if IncomingSeed(dstAddress, transferHash) !in records then Fail(AccountNotInitialized(TransferField))
    else if srcChainId !in reg.relayerChains then Fail(AccountNotInitialized(ChainField))
    else if authority != sender then Fail(ConstraintViolated(SenderField))
    else if reg.trusted[(dstAddress, srcChainId)] != srcAddress then Fail(ConstraintViolated(TrustedAddressField))
    else Pass
  }

  // ---------------------------------------------------------------------
  // Incoming-record creation as a state transition

  /** The arguments of one `InitReceiveMessage` call that its rules read. */
  datatype InitReceiveRequest = InitReceiveRequest(
    authority: Bytes32, dstAddress: Bytes32, srcAddress: Bytes32, srcChainId: u64, transferHash: Bytes32)

  /** One `InitReceiveMessage`: on success the records gain a default
      record at the incoming seed; on failure nothing changes. */
  function InitReceiveStep(reg: Registry, records: map<TransferSeed, TransferAccount>, q: InitReceiveRequest)
    : (res: (Outcome, map<TransferSeed, TransferAccount>))
    ensures res.0.Pass? ==> IncomingSeed(q.dstAddress, q.transferHash) !in records
    ensures res.0.Pass? ==> res.1 == records[IncomingSeed(q.dstAddress, q.transferHash) := DEFAULT_TRANSFER]
    ensures res.0.Fail? ==> res.1 == records
  {
    var r := InitReceiveMessageChecks(reg, records, q.authority, q.dstAddress, q.srcAddress, q.srcChainId, q.transferHash);
    if r.Pass? then (r, records[IncomingSeed(q.dstAddress, q.transferHash) := DEFAULT_TRANSFER])
    else (r, records)
  }

  /** A second `InitReceiveMessage` for the same client and hash fails,
      whatever its other arguments and however the registry has changed in
      between, once the first has succeeded. */
  lemma ReplayRejected(reg1: Registry, reg2: Registry, records: map<TransferSeed, TransferAccount>,
                       q1: InitReceiveRequest, q2: InitReceiveRequest)
    requires InitReceiveStep(reg1, records, q1).0.Pass?
    requires q2.dstAddress == q1.dstAddress && q2.transferHash == q1.transferHash
    ensures InitReceiveStep(reg2, InitReceiveStep(reg1, records, q1).1, q2).0.Fail?
    ensures InitReceiveStep(reg2, InitReceiveStep(reg1, records, q1).1, q2).1 == InitReceiveStep(reg1, records, q1).1
  {
  }

  /** The records after running `qs` in order, call `k` against the
      registry `regs[k]` (administrative instructions outside this model may
      change the registry between calls). */
  function RunInitReceives(regs: seq<Registry>, records: map<TransferSeed, TransferAccount>, qs: seq<InitReceiveRequest>)
    : map<TransferSeed, TransferAccount>
    requires |regs| == |qs|
    decreases |qs|
  {
    if qs == [] then records
    else RunInitReceives(regs[1..], InitReceiveStep(regs[0], records, qs[0]).1, qs[1..])
  }

  /** How many calls of `qs`, run in order against `regs`, succeed in
      creating `seed`. */
  function Creations(regs: seq<Registry>, records: map<TransferSeed, TransferAccount>, qs: seq<InitReceiveRequest>,
                     seed: TransferSeed): nat
    requires |regs| == |qs|
    decreases |qs|
  {
    if qs == [] then 0
    else
      var (r, next) := InitReceiveStep(regs[0], records, qs[0]);
      (if r.Pass? && IncomingSeed(qs[0].dstAddress, qs[0].transferHash) == seed then 1 else 0)
      + Creations(regs[1..], next, qs[1..], seed)
  }

  /** At most once: over any sequence of calls, whatever registry each call
      sees, each seed is created at most once, and never if a record
      already exists there. */
  lemma {:induction false} AtMostOnce(regs: seq<Registry>, records: map<TransferSeed, TransferAccount>,
                                      qs: seq<InitReceiveRequest>, seed: TransferSeed)
    requires |regs| == |qs|
    ensures Creations(regs, records, qs, seed) <= if seed in records then 0 else 1
    decreases |qs|
  {
    if qs != [] {
      var (r, next) := InitReceiveStep(regs[0], records, qs[0]);
      AtMostOnce(regs[1..], next, qs[1..], seed);
      if r.Pass? && IncomingSeed(qs[0].dstAddress, qs[0].transferHash) == seed {
        assert seed in next;
      } else {
        assert seed in next <==> seed in records;
      }
    }
  }

  /** Records are never deleted or changed by incoming-record creation,
      and every record it adds is an incoming default record. */
  lemma {:induction false} RunKeepsRecords(regs: seq<Registry>, records: map<TransferSeed, TransferAccount>,
                                           qs: seq<InitReceiveRequest>)
    requires |regs| == |qs|
    ensures var after := RunInitReceives(regs, records, qs);
      && (forall s :: s in records ==> s in after && after[s] == records[s])
      && (forall s :: s in after && s !in records ==> s.direction == Incoming && after[s] == DEFAULT_TRANSFER)
    decreases |qs|
  {
    if qs != [] {
      var next := InitReceiveStep(regs[0], records, qs[0]).1;
      RunKeepsRecords(regs[1..], next, qs[1..]);
    }
  }

  /** Creating an incoming record never changes whether a `SendMessage`
      passes: it reads only the outgoing record space. */
  lemma InitReceiveKeepsSendChecks(
    reg: Registry, records: map<TransferSeed, TransferAccount>, q: InitReceiveRequest,
    authority: Bytes32, userAddress: Bytes32, dstChainId: u64, transferHash: Bytes32, sender: Bytes32)
    ensures SendMessageChecks(reg, InitReceiveStep(reg, records, q).1, authority, userAddress, dstChainId, transferHash, sender)
         == SendMessageChecks(reg, records, authority, userAddress, dstChainId, transferHash, sender)
  {
  }

  /** After a successful `InitReceiveMessage`, a `ReceiveMessage` for the
      same client, source and hash passes exactly when its own signer,
      settings and chain accounts do: the record and trust checks are met.
      This relies on the `bump = transfer_account.bump` check of
      `ReceiveMessage` being left out of the model: the record `init`
      creates is the default one, with bump 0, and the conclusion holds for
      the program only if its handler stores the canonical bump. */
  lemma InitReceiveEnablesReceive(
    reg: Registry, records: map<TransferSeed, TransferAccount>, q: InitReceiveRequest,
    authority: Bytes32, sender: Bytes32)
    requires InitReceiveStep(reg, records, q).0.Pass?
    ensures ReceiveMessageChecks(reg, InitReceiveStep(reg, records, q).1,
                                 authority, q.dstAddress, q.srcChainId, q.srcAddress, q.transferHash, sender).Pass?
        <==> reg.settingsExists && (q.dstAddress, sender) in reg.senders && authority == sender
             && q.srcChainId in reg.relayerChains
  {
  }

  /** The program's transfer records: the map from seed tuple to record that
      the host's storage holds. */
  class TransferLedger {
    var records: map<TransferSeed, TransferAccount>

    constructor (existing: map<TransferSeed, TransferAccount>)
      ensures records == existing
    {
      records := existing;
    }

    /** Whether a record exists at `seed`. */
    predicate Exists(seed: TransferSeed)
      reads this
    {
      seed in records
    }

    /** `InitReceiveMessage`: the account rules, then the create-or-fail
      `init` of the incoming record. A failing call changes nothing. */
    method InitReceiveMessage(reg: Registry, authority: Bytes32, dstAddress: Bytes32, srcAddress: Bytes32,
                              srcChainId: u64, transferHash: Bytes32) returns (r: Outcome)
      modifies this
      ensures (r, records) == InitReceiveStep(reg, old(records),
                                InitReceiveRequest(authority, dstAddress, srcAddress, srcChainId, transferHash))
      ensures r.Pass? <==>
        && dstAddress in reg.clients
        && authority == reg.clients[dstAddress].relayOwner
        && (dstAddress, srcChainId) in reg.trusted
        && reg.trusted[(dstAddress, srcChainId)] == srcAddress
        && !old(Exists(IncomingSeed(dstAddress, transferHash)))
      ensures r.Pass? ==> records == old(records)[IncomingSeed(dstAddress, transferHash) := DEFAULT_TRANSFER]
      ensures r.Fail? ==> records == old(records)
    {
      r := InitReceiveMessageChecks(reg, records, authority, dstAddress, srcAddress, srcChainId, transferHash);
      if r.Pass? {
        records := records[IncomingSeed(dstAddress, transferHash) := DEFAULT_TRANSFER];
      }
    }
  }
}
