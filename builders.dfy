/**
 * The instruction builders of tests/squads_sdk/with*.ts: each sizes a
 * zero-filled payload buffer, encodes its args into it with the
 * instruction's schema, asks for the addresses it needs, lists the accounts
 * with their signer and writable flags, and pushes exactly one instruction
 * onto the caller's `instructions` array. A throw anywhere before the push
 * leaves that array as it was.
 *
 * Each builder is a method proved against a function that states its whole
 * result (`*Plan`); the lemmas beside each plan state what the payload and
 * the account list hold.
 */
module Builders {
  import opened Wrappers
  import opened Bytes
  import opened Errors
  import Utf8
  import Layout
  import opened Structure
  import opened Schema
  import Address
  import Utils

  /** `{ pubkey, isWritable, isSigner }`. */
  datatype AccountMeta = AccountMeta(pubkey: Pubkey, isWritable: bool, isSigner: bool)

  /** `new TransactionInstruction({ keys, programId, data })`. */
  datatype Instruction = Instruction(keys: seq<AccountMeta>, programId: Pubkey, data: seq<byte>)

  /** The caller-owned `instructions: TransactionInstruction[]` every builder pushes onto. */
  class InstructionList {
    var items: seq<Instruction>
  }

  /**
   * The address lookups the builders rely on: the ledger's address search,
   * and the four helpers whose seed lists are not part of this model (the
   * member equity record of a member in a squad, a squad's mint, the vote
   * account of a voter on a proposal, and a squad's treasury).
   */
  datatype Oracles = Oracles(
    find: Address.AddressSearch,
    memberEquity: (Pubkey, Pubkey) -> Pubkey,
    squadMint: Pubkey -> Pubkey,
    voteAccount: (Pubkey, Pubkey) -> Pubkey,
    treasury: Pubkey -> Pubkey)

  /** The well-known program and sysvar keys the account lists name. */
  datatype ProgramIds = ProgramIds(squads: Pubkey, token: Pubkey, system: Pubkey, rent: Pubkey, associatedToken: Pubkey)

  function Signer(k: Pubkey): AccountMeta { AccountMeta(k, true, true) }
  function Writable(k: Pubkey): AccountMeta { AccountMeta(k, true, false) }
  function ReadOnly(k: Pubkey): AccountMeta { AccountMeta(k, false, false) }

  function Pubkeys(keys: seq<AccountMeta>): (ks: seq<Pubkey>)
    ensures |ks| == |keys| && forall i :: 0 <= i < |keys| ==> ks[i] == keys[i].pubkey
  {
    seq(|keys|, i requires 0 <= i < |keys| => keys[i].pubkey)
  }

  /** The accounts at `positions`, and no others, sign. */
  predicate SignersAre(keys: seq<AccountMeta>, positions: set<int>) {
    forall i :: 0 <= i < |keys| ==> (keys[i].isSigner <==> i in positions)
  }

  /** The accounts at `positions`, and no others, are writable. */
  predicate WritablesAre(keys: seq<AccountMeta>, positions: set<int>) {
    forall i :: 0 <= i < |keys| ==> (keys[i].isWritable <==> i in positions)
  }

  /* ---- withCreateSquad ---- */

  datatype CreatedSquad = CreatedSquad(squad: Pubkey, mintOwner: Pubkey)

  /** Payer, the new squad and its mint owner, then the token, system and rent programs; only the payer signs. */
  function CreateSquadKeys(payer: Pubkey, squad: Pubkey, mintOwner: Pubkey, ids: ProgramIds): (keys: seq<AccountMeta>)
    ensures Pubkeys(keys) == [payer, squad, mintOwner, ids.token, ids.system, ids.rent]
    ensures SignersAre(keys, {0}) && WritablesAre(keys, {0, 1, 2})
  {
    [Signer(payer), Writable(squad), Writable(mintOwner), ReadOnly(ids.token), ReadOnly(ids.system), ReadOnly(ids.rent)]
  }

  /**
   * What `withCreateSquad` does for a given random id: the encode throws
   * unless every number fits its byte and every normalised string is
   * ASCII; otherwise the 81-byte payload goes to `programId` with the
   * squad derived from the payer and the id, and the mint owner from that squad.
   */
  function CreateSquadPlan(o: Oracles, ids: ProgramIds, programId: Pubkey, payer: Pubkey, squadName: JsString,
    description: JsString, token: JsString, voteSupport: int, voteQuorum: int, randomId: JsString)
    : (r: Result<(Instruction, CreatedSquad), Error>)
    ensures r.Ok? <==> CreateSquadEncodable(NewCreateSquadArgs(voteSupport, voteQuorum, squadName, description, token, randomId))
    ensures r.Ok? ==> var (ix, made) := r.value;
      && ix.programId == programId && |ix.data| == 81
      && made.squad == o.find(Address.SquadDerivation(ids.squads, payer, randomId)).address
      && made.mintOwner == o.find(Address.MintOwnerDerivation(ids.squads, made.squad)).address
      && ix.keys == CreateSquadKeys(payer, made.squad, made.mintOwner, ids)
      && Pubkeys(ix.keys)[1] == made.squad && Pubkeys(ix.keys)[2] == made.mintOwner
  {
    var args := NewCreateSquadArgs(voteSupport, voteQuorum, squadName, description, token, randomId);
    var out := WriteFields(CreateSquadMembers(args), Zeros(81), 0);
    CreateSquadEncodes(args);
    if out.failure.Some? then Err(out.failure.value)
    else
      var squad := o.find(Address.SquadDerivation(ids.squads, payer, randomId)).address;
      var mintOwner := o.find(Address.MintOwnerDerivation(ids.squads, squad)).address;
      Ok((Instruction(CreateSquadKeys(payer, squad, mintOwner, ids), programId, out.buf), CreatedSquad(squad, mintOwner)))
  }

  /**
   * The CreateSquad payload: discriminant 0, allocation type 1, the two vote
   * settings, core threshold 0, then the four normalised strings.
   */
  lemma CreateSquadPayload(o: Oracles, ids: ProgramIds, programId: Pubkey, payer: Pubkey, squadName: JsString,
    description: JsString, token: JsString, voteSupport: int, voteQuorum: int, randomId: JsString)
    requires CreateSquadPlan(o, ids, programId, payer, squadName, description, token, voteSupport, voteQuorum, randomId).Ok?
    ensures var p := CreateSquadPlan(o, ids, programId, payer, squadName, description, token, voteSupport, voteQuorum, randomId).value.0.data;
      && p[0] == 0 && p[1] == 1 && p[2] == voteSupport && p[3] == voteQuorum && p[4] == 0
      && p[5..29] == Utf8.Encode(EnsureLength(squadName, 24)) && p[29..65] == Utf8.Encode(EnsureLength(description, 36))
      && p[65..71] == Utf8.Encode(EnsureLength(token, 6)) && p[71..81] == Utf8.Encode(EnsureLength(randomId, 10))
  {
    var args := NewCreateSquadArgs(voteSupport, voteQuorum, squadName, description, token, randomId);
    CreateSquadHeader(args);
    CreateSquadTexts(args);
  }

  /**
   * A ten-unit random id (what `getRandomId` produces) is the same bytes in
   * the payload as in the squad's seeds.
   */
  lemma CreateSquadSameId(o: Oracles, ids: ProgramIds, programId: Pubkey, payer: Pubkey, squadName: JsString,
    description: JsString, token: JsString, voteSupport: int, voteQuorum: int, randomId: JsString)
    requires |randomId| == 10
    requires CreateSquadPlan(o, ids, programId, payer, squadName, description, token, voteSupport, voteQuorum, randomId).Ok?
    ensures CreateSquadPlan(o, ids, programId, payer, squadName, description, token, voteSupport, voteQuorum, randomId).value.0.data[71..81]
         == Address.SquadDerivation(ids.squads, payer, randomId).seeds[1]
  {
    CreateSquadPayload(o, ids, programId, payer, squadName, description, token, voteSupport, voteQuorum, randomId);
    EnsureLengthKeeps(randomId, 10);
  }

  /** `withCreateSquad`, with the random id passed in. */
  method WithCreateSquad(instructions: InstructionList, o: Oracles, ids: ProgramIds, programId: Pubkey, payer: Pubkey,
    squadName: JsString, description: JsString, token: JsString, voteSupport: int, voteQuorum: int, randomId: JsString)
    returns (r: Result<CreatedSquad, Error>)
    modifies instructions
    ensures var plan := CreateSquadPlan(o, ids, programId, payer, squadName, description, token, voteSupport, voteQuorum, randomId);
      && (plan.Ok? ==> r == Ok(plan.value.1) && instructions.items == old(instructions.items) + [plan.value.0])
      && (plan.Err? ==> r == Err(plan.error) && instructions.items == old(instructions.items))
  {
    var args := NewCreateSquadArgs(voteSupport, voteQuorum, squadName, description, token, randomId);
    var data := new byte[81](_ => 0);
    assert data[..] == Zeros(81);
    var failure := EncodeFields(CreateSquadMembers(args), data, 0);
    if failure.Some? {
      return Err(failure.value);
    }
    var squad := o.find(Address.SquadDerivation(ids.squads, payer, randomId)).address;
    var mintOwner := o.find(Address.MintOwnerDerivation(ids.squads, squad)).address;
    instructions.items := instructions.items + [Instruction(CreateSquadKeys(payer, squad, mintOwner, ids), programId, data[..])];
    return Ok(CreatedSquad(squad, mintOwner));
  }

  /* ---- withAddMembersToSquad ---- */

  /** One `[member, amount]` pair of `allocations`. */
  datatype Allocation = Allocation(member: Pubkey, amount: int)

  /** `allocations.map(([, amount]) => amount)`. */
  function Amounts(allocations: seq<Allocation>): (r: seq<int>)
    ensures |r| == |allocations| && forall i :: 0 <= i < |r| ==> r[i] == allocations[i].amount
  {
    seq(|allocations|, i requires 0 <= i < |allocations| => allocations[i].amount)
  }

  /** The two accounts the loop adds per allocation: the member, read-only, then its equity record, writable. */
  function MemberKeys(allocations: seq<Allocation>, squad: Pubkey, memberEquity: (Pubkey, Pubkey) -> Pubkey): (keys: seq<AccountMeta>)
    ensures |keys| == 2 * |allocations|
    ensures forall i :: 0 <= i < |allocations| ==>
      keys[2 * i] == ReadOnly(allocations[i].member) && keys[2 * i + 1] == Writable(memberEquity(allocations[i].member, squad))
    ensures forall j :: 0 <= j < |keys| ==> !keys[j].isSigner && (keys[j].isWritable <==> j % 2 == 1)
    decreases |allocations|
  {
    if |allocations| == 0 then []
    else
      var last := allocations[|allocations| - 1];
      MemberKeys(allocations[..|allocations| - 1], squad, memberEquity)
        + [ReadOnly(last.member), Writable(memberEquity(last.member, squad))]
  }

  /** Initializer, squad (read-only), mint owner, the token, system and rent programs. */
  function AddMembersFixedKeys(initializer: Pubkey, squad: Pubkey, mintOwner: Pubkey, ids: ProgramIds): (keys: seq<AccountMeta>)
    ensures Pubkeys(keys) == [initializer, squad, mintOwner, ids.token, ids.system, ids.rent]
    ensures SignersAre(keys, {0}) && WritablesAre(keys, {0, 2})
  {
    [Signer(initializer), ReadOnly(squad), Writable(mintOwner), ReadOnly(ids.token), ReadOnly(ids.system), ReadOnly(ids.rent)]
  }

  /** The whole account list: 6 + 2N entries, and the initializer is the only signer. */
  lemma AddMembersKeys(initializer: Pubkey, squad: Pubkey, mintOwner: Pubkey, ids: ProgramIds,
    allocations: seq<Allocation>, memberEquity: (Pubkey, Pubkey) -> Pubkey)
    ensures var keys := AddMembersFixedKeys(initializer, squad, mintOwner, ids) + MemberKeys(allocations, squad, memberEquity);
      && |keys| == 6 + 2 * |allocations|
      && SignersAre(keys, {0})
      && forall i :: 0 <= i < |allocations| ==> keys[6 + 2 * i].pubkey == allocations[i].member && !keys[6 + 2 * i].isWritable
  {
    var fixed := AddMembersFixedKeys(initializer, squad, mintOwner, ids);
    var tail := MemberKeys(allocations, squad, memberEquity);
    var keys := fixed + tail;
    forall i | 0 <= i < |keys|
      ensures keys[i].isSigner <==> i == 0
    {
      if i >= 6 {
        assert keys[i] == tail[i - 6];
      }
    }
    forall i | 0 <= i < |allocations|
      ensures keys[6 + 2 * i].pubkey == allocations[i].member && !keys[6 + 2 * i].isWritable
    {
      assert keys[6 + 2 * i] == tail[2 * i];
    }
  }

  /**
   * What `withAddMembersToSquad` does: the encode throws unless there are
   * fewer than 256 allocations and every amount is an unsigned 64-bit value;
   * otherwise the `10 + 8N`-byte payload goes to `programId` with the fixed
   * accounts, then each member and its equity record in input order.
   */
  function AddMembersPlan(o: Oracles, ids: ProgramIds, programId: Pubkey, initializer: Pubkey, squad: Pubkey,
    allocations: seq<Allocation>): (r: Result<Instruction, Error>)
    ensures r.Ok? <==> |allocations| < 256 && AllU64(Amounts(allocations))
    ensures r.Ok? ==>
      && r.value.programId == programId && |r.value.data| == 10 + 8 * |allocations|
      && r.value.keys == AddMembersFixedKeys(initializer, squad, o.find(Address.MintOwnerDerivation(ids.squads, squad)).address, ids)
                         + MemberKeys(allocations, squad, o.memberEquity)
  {
    var table := Amounts(allocations);
    var out := WriteFields(AddMembersMembers(NewAddMembersToSquadArgs(table)), Zeros(AddMembersSize(|table|)), 0);
    AddMembersEncodes(table);
    if out.failure.Some? then Err(out.failure.value)
    else
      var mintOwner := o.find(Address.MintOwnerDerivation(ids.squads, squad)).address;
      Ok(Instruction(AddMembersFixedKeys(initializer, squad, mintOwner, ids) + MemberKeys(allocations, squad, o.memberEquity),
        programId, out.buf))
  }

  /** The AddMembersToSquad payload: discriminant 7, the member count, and each amount at `10 + 8i`, in input order. */
  lemma AddMembersPayload(o: Oracles, ids: ProgramIds, programId: Pubkey, initializer: Pubkey, squad: Pubkey,
    allocations: seq<Allocation>)
    requires AddMembersPlan(o, ids, programId, initializer, squad, allocations).Ok?
    ensures var p := AddMembersPlan(o, ids, programId, initializer, squad, allocations).value.data;
      && p[0] == 7 && p[1] == |allocations|
      && forall i :: 0 <= i < |allocations| ==> Layout.DecodeU64(p, 10 + 8 * i) == allocations[i].amount
  {
    var table := Amounts(allocations);
    AddMembersFitting(table);
    forall i | 0 <= i < |allocations|
      ensures Layout.DecodeU64(AddMembersPrefix(|table|) + LEs(table), 10 + 8 * i) == allocations[i].amount
    {
      AmountAt(AddMembersPrefix(|table|), table, i);
    }
  }

  /** `withAddMembersToSquad`: the `forEach` adds each member and its equity record after the fixed accounts. */
  method WithAddMembersToSquad(instructions: InstructionList, o: Oracles, ids: ProgramIds, programId: Pubkey,
    initializer: Pubkey, squad: Pubkey, allocations: seq<Allocation>) returns (failure: Option<Error>)
    modifies instructions
    ensures var plan := AddMembersPlan(o, ids, programId, initializer, squad, allocations);
      && (plan.Ok? ==> failure.None? && instructions.items == old(instructions.items) + [plan.value])
      && (plan.Err? ==> failure == Some(plan.error) && instructions.items == old(instructions.items))
  {
    var args := NewAddMembersToSquadArgs(Amounts(allocations));
    var numAllocationBytes := 8 * |allocations|;
    var data := new byte[10 + numAllocationBytes](_ => 0);
    assert data[..] == Zeros(AddMembersSize(|allocations|));
    failure := EncodeFields(AddMembersMembers(args), data, 0);
    if failure.Some? {
      return;
    }
    var mintOwner := o.find(Address.MintOwnerDerivation(ids.squads, squad)).address;
    var keys := AddMembersFixedKeys(initializer, squad, mintOwner, ids);
    var i := 0;
    while i < |allocations|
      invariant 0 <= i <= |allocations|
      invariant keys == AddMembersFixedKeys(initializer, squad, mintOwner, ids) + MemberKeys(allocations[..i], squad, o.memberEquity)
    {
      var member := allocations[i].member;
      var memberEquityRecord := o.memberEquity(member, squad);
      keys := keys + [ReadOnly(member)];
      keys := keys + [Writable(memberEquityRecord)];
      assert allocations[..i + 1][..i] == allocations[..i];
      i := i + 1;
    }
    assert allocations[..i] == allocations;
    instructions.items := instructions.items + [Instruction(keys, programId, data[..])];
  }

  /* ---- withCreateProposalAccount ---- */

  /** A day, in milliseconds: how far before now a proposal starts by default. */
  const DEFAULT_PROPOSAL_START_DELTA: int := 24 * 60 * 60 * 1_000
  /** Thirty minutes, in milliseconds: how long after now a proposal closes by default. */
  const DEFAULT_PROPOSAL_LIFETIME: int := 30 * 60 * 1_000

  /**
   * The args `withCreateProposalAccount` builds: `link` defaults to the
   * empty string, a missing start to a day before `now` and a missing close
   * to thirty minutes after it, and both go through `toBN` into the args constructor.
   */
  function ProposalArgs(proposalType: int, title: JsString, description: JsString, votesNum: int, votesLabels: seq<JsString>,
    link: Option<JsString>, startTime: Option<int>, closeTime: Option<int>, amount: Option<int>, minimumOut: Option<int>, now: int)
    : (r: Result<CreateProposalAccountArgs, Error>)
    ensures r == Err(TooManyLabels) <==> |votesLabels| > 5
    ensures r.Ok? ==> ProposalShaped(r.value) && r.value.amount == amount && r.value.minimumOut == minimumOut
    ensures r.Ok? && link.None? ==> r.value.link == Spaces(48)
    ensures r.Ok? && startTime.None? ==> r.value.startTimestamp == MillisToSeconds(now - 86_400_000)
    ensures r.Ok? && closeTime.None? ==> r.value.closeTimestamp == MillisToSeconds(now + 1_800_000)
    ensures r.Ok? && startTime.Some? ==> r.value.startTimestamp == MillisToSeconds(startTime.value)
    ensures r.Ok? && closeTime.Some? ==> r.value.closeTimestamp == MillisToSeconds(closeTime.value)
  {
    var startTimestamp := if startTime.Some? then startTime.value else now - DEFAULT_PROPOSAL_START_DELTA;
    var closeTimestamp := if closeTime.Some? then closeTime.value else now + DEFAULT_PROPOSAL_LIFETIME;
    NewCreateProposalAccountArgs(proposalType, title, description, if link.Some? then link.value else [], votesNum, votesLabels,
      Utils.ToBN(startTimestamp), Utils.ToBN(closeTimestamp), amount, minimumOut)
  }

  /** Payer, squad, the new proposal, then the system program, rent and the Squads program; only the payer signs. */
  function ProposalKeys(payer: Pubkey, squad: Pubkey, proposal: Pubkey, ids: ProgramIds): (keys: seq<AccountMeta>)
    ensures Pubkeys(keys) == [payer, squad, proposal, ids.system, ids.rent, ids.squads]
    ensures SignersAre(keys, {0}) && WritablesAre(keys, {0, 1, 2})
  {
    [Signer(payer), Writable(squad), Writable(proposal), ReadOnly(ids.system), ReadOnly(ids.rent), ReadOnly(ids.squads)]
  }

  /**
   * What `withCreateProposalAccount` does: the args throw on too many labels,
   * the encode throws unless the head and the optional amounts pass their
   * checks, and the nonce buffer throws outside the signed 32-bit range;
   * otherwise the payload of `dataSize` bytes goes to `programId` with the
   * proposal derived from the squad and the nonce.
   */
  function CreateProposalPlan(o: Oracles, ids: ProgramIds, programId: Pubkey, payer: Pubkey, squad: Pubkey, proposalNonce: int,
    proposalType: int, title: JsString, description: JsString, votesNum: int, votesLabels: seq<JsString>,
    link: Option<JsString>, startTime: Option<int>, closeTime: Option<int>, amount: Option<int>, minimumOut: Option<int>, now: int)
    : (r: Result<(Instruction, Pubkey), Error>)
    ensures var args := ProposalArgs(proposalType, title, description, votesNum, votesLabels, link, startTime, closeTime, amount, minimumOut, now);
      && (|votesLabels| > 5 ==> r == Err(TooManyLabels))
      && (r.Ok? <==> args.Ok? && ProposalHeadEncodable(args.value) && ProposalTailEncodable(amount, minimumOut) && Address.InInt32(proposalNonce))
    ensures r.Ok? ==> var (ix, proposal) := r.value;
      && ix.programId == programId && |ix.data| == ProposalSize(amount, minimumOut)
      && proposal == o.find(Address.ProposalDerivation(ids.squads, squad, proposalNonce).value).address
      && ix.keys == ProposalKeys(payer, squad, proposal, ids)
  {
    match ProposalArgs(proposalType, title, description, votesNum, votesLabels, link, startTime, closeTime, amount, minimumOut, now)
    case Err(e) => Err(e)
    case Ok(args) =>
      ProposalEncodes(args);
      var out := WriteFields(ProposalMembers(args), Zeros(ProposalSize(amount, minimumOut)), 0);
      if out.failure.Some? then Err(out.failure.value)
      else match Address.ProposalDerivation(ids.squads, squad, proposalNonce)
        case Err(e) => Err(e)
        case Ok(derivation) =>
          var proposal := o.find(derivation).address;
          Ok((Instruction(ProposalKeys(payer, squad, proposal, ids), programId, out.buf), proposal))
  }

  /**
   * The CreateProposalAccount payload: the 819 head bytes of the args, then
   * the amount and the minimum out, each reading back from its offset.
   */
  lemma CreateProposalPayload(o: Oracles, ids: ProgramIds, programId: Pubkey, payer: Pubkey, squad: Pubkey, proposalNonce: int,
    proposalType: int, title: JsString, description: JsString, votesNum: int, votesLabels: seq<JsString>,
    link: Option<JsString>, startTime: Option<int>, closeTime: Option<int>, amount: Option<int>, minimumOut: Option<int>, now: int)
    requires CreateProposalPlan(o, ids, programId, payer, squad, proposalNonce, proposalType, title, description, votesNum,
      votesLabels, link, startTime, closeTime, amount, minimumOut, now).Ok?
    ensures var p := CreateProposalPlan(o, ids, programId, payer, squad, proposalNonce, proposalType, title, description, votesNum,
        votesLabels, link, startTime, closeTime, amount, minimumOut, now).value.0.data;
      var args := ProposalArgs(proposalType, title, description, votesNum, votesLabels, link, startTime, closeTime, amount, minimumOut, now).value;
      && p[..819] == ProposalHeadBytes(args)
      && (amount.Some? ==> Layout.DecodeU64(p, 819) == amount.value)
      && (minimumOut.Some? ==> Layout.DecodeU64(p, 827) == minimumOut.value)
  {
    var args := ProposalArgs(proposalType, title, description, votesNum, votesLabels, link, startTime, closeTime, amount, minimumOut, now).value;
    ProposalPayload(args);
  }

  /** The payload of `withCreateProposalAccount`: `dataSize` grows by eight for each optional amount it makes room for. */
  method EncodeProposal(args: CreateProposalAccountArgs) returns (data: array<byte>, failure: Option<Error>)
    ensures fresh(data) && data.Length == ProposalSize(args.amount, args.minimumOut)
    ensures Outcome(data[..], failure) == WriteFields(ProposalMembers(args), Zeros(ProposalSize(args.amount, args.minimumOut)), 0)
  {
    var dataSize := 819;
    if args.amount.Some? {
      dataSize := dataSize + 8;
      if args.minimumOut.Some? {
        dataSize := dataSize + 8;
      }
    }
    data := new byte[dataSize](_ => 0);
    assert data[..] == Zeros(ProposalSize(args.amount, args.minimumOut));
    failure := EncodeFields(ProposalMembers(args), data, 0);
  }

  /** The plan when the args constructor throws: its error. */
  lemma ProposalPlanArgsRefused(o: Oracles, ids: ProgramIds, programId: Pubkey, payer: Pubkey, squad: Pubkey, proposalNonce: int,
    proposalType: int, title: JsString, description: JsString, votesNum: int, votesLabels: seq<JsString>,
    link: Option<JsString>, startTime: Option<int>, closeTime: Option<int>, amount: Option<int>, minimumOut: Option<int>, now: int)
    requires ProposalArgs(proposalType, title, description, votesNum, votesLabels, link, startTime, closeTime, amount, minimumOut, now).Err?
    ensures CreateProposalPlan(o, ids, programId, payer, squad, proposalNonce, proposalType, title, description,
      votesNum, votesLabels, link, startTime, closeTime, amount, minimumOut, now)
      == Err(ProposalArgs(proposalType, title, description, votesNum, votesLabels, link, startTime, closeTime, amount, minimumOut, now).error)
  {
  }

  /** The plan when the encode throws: the encode's error. */
  lemma ProposalPlanEncodeRefused(o: Oracles, ids: ProgramIds, programId: Pubkey, payer: Pubkey, squad: Pubkey, proposalNonce: int,
    proposalType: int, title: JsString, description: JsString, votesNum: int, votesLabels: seq<JsString>,
    link: Option<JsString>, startTime: Option<int>, closeTime: Option<int>, amount: Option<int>, minimumOut: Option<int>, now: int, args: CreateProposalAccountArgs, e: Error)
    requires ProposalArgs(proposalType, title, description, votesNum, votesLabels, link, startTime, closeTime, amount, minimumOut, now) == Ok(args)
    requires WriteFields(ProposalMembers(args), Zeros(ProposalSize(args.amount, args.minimumOut)), 0).failure == Some(e)
    ensures CreateProposalPlan(o, ids, programId, payer, squad, proposalNonce, proposalType, title, description,
      votesNum, votesLabels, link, startTime, closeTime, amount, minimumOut, now)
      == Err(e)
  {
  }

  /** The plan when the nonce does not fit 32 bits: OutOfRange. */
  lemma ProposalPlanNonceRefused(o: Oracles, ids: ProgramIds, programId: Pubkey, payer: Pubkey, squad: Pubkey, proposalNonce: int,
    proposalType: int, title: JsString, description: JsString, votesNum: int, votesLabels: seq<JsString>,
    link: Option<JsString>, startTime: Option<int>, closeTime: Option<int>, amount: Option<int>, minimumOut: Option<int>, now: int, args: CreateProposalAccountArgs)
    requires ProposalArgs(proposalType, title, description, votesNum, votesLabels, link, startTime, closeTime, amount, minimumOut, now) == Ok(args)
    requires WriteFields(ProposalMembers(args), Zeros(ProposalSize(args.amount, args.minimumOut)), 0).failure.None?
    requires !Address.InInt32(proposalNonce)
    ensures CreateProposalPlan(o, ids, programId, payer, squad, proposalNonce, proposalType, title, description,
      votesNum, votesLabels, link, startTime, closeTime, amount, minimumOut, now) == Err(OutOfRange)
  {
  }

  /** The plan when nothing throws: the instruction over the encoded payload, and the proposal. */
  lemma ProposalPlanMade(o: Oracles, ids: ProgramIds, programId: Pubkey, payer: Pubkey, squad: Pubkey, proposalNonce: int,
    proposalType: int, title: JsString, description: JsString, votesNum: int, votesLabels: seq<JsString>,
    link: Option<JsString>, startTime: Option<int>, closeTime: Option<int>, amount: Option<int>, minimumOut: Option<int>, now: int, args: CreateProposalAccountArgs, data: seq<byte>)
    requires ProposalArgs(proposalType, title, description, votesNum, votesLabels, link, startTime, closeTime, amount, minimumOut, now) == Ok(args)
    requires WriteFields(ProposalMembers(args), Zeros(ProposalSize(args.amount, args.minimumOut)), 0) == Outcome(data, None)
    requires Address.InInt32(proposalNonce)
    ensures var proposal := o.find(Address.ProposalDerivation(ids.squads, squad, proposalNonce).value).address;
      CreateProposalPlan(o, ids, programId, payer, squad, proposalNonce, proposalType, title, description,
      votesNum, votesLabels, link, startTime, closeTime, amount, minimumOut, now)
      == Ok((Instruction(ProposalKeys(payer, squad, proposal, ids), programId, data), proposal))
  {
  }

  /** `withCreateProposalAccount`, with the clock reading passed in as `now`. */
  method WithCreateProposalAccount(instructions: InstructionList, o: Oracles, ids: ProgramIds, programId: Pubkey,
    payer: Pubkey, squad: Pubkey, proposalNonce: int, proposalType: int, title: JsString, description: JsString,
    votesNum: int, votesLabels: seq<JsString>, link: Option<JsString>, startTime: Option<int>, closeTime: Option<int>,
    amount: Option<int>, minimumOut: Option<int>, now: int) returns (r: Result<Pubkey, Error>)
    modifies instructions
    ensures var plan := CreateProposalPlan(o, ids, programId, payer, squad, proposalNonce, proposalType, title, description,
        votesNum, votesLabels, link, startTime, closeTime, amount, minimumOut, now);
      && (plan.Ok? ==> r == Ok(plan.value.1) && instructions.items == old(instructions.items) + [plan.value.0])
      && (plan.Err? ==> r == Err(plan.error) && instructions.items == old(instructions.items))
  {
    var made := ProposalArgs(proposalType, title, description, votesNum, votesLabels, link, startTime, closeTime, amount, minimumOut, now);
    if made.Err? {
      ProposalPlanArgsRefused(o, ids, programId, payer, squad, proposalNonce, proposalType, title, description,
        votesNum, votesLabels, link, startTime, closeTime, amount, minimumOut, now);
      return Err(made.error);
    }
    var data, failure := EncodeProposal(made.value);
    if failure.Some? {
      ProposalPlanEncodeRefused(o, ids, programId, payer, squad, proposalNonce, proposalType, title, description,
        votesNum, votesLabels, link, startTime, closeTime, amount, minimumOut, now, made.value, failure.value);
      return Err(failure.value);
    }
    var proposal := Address.ProposalAccountAddress(o.find, ids.squads, squad, proposalNonce);
    if proposal.Err? {
      ProposalPlanNonceRefused(o, ids, programId, payer, squad, proposalNonce, proposalType, title, description,
        votesNum, votesLabels, link, startTime, closeTime, amount, minimumOut, now, made.value);
      return Err(proposal.error);
    }
    ProposalPlanMade(o, ids, programId, payer, squad, proposalNonce, proposalType, title, description,
      votesNum, votesLabels, link, startTime, closeTime, amount, minimumOut, now, made.value, data[..]);
    var ix := Instruction(ProposalKeys(payer, squad, proposal.value.address, ids), programId, data[..]);
    instructions.items := instructions.items + [ix];
    return Ok(proposal.value.address);
  }

  /* ---- withCastVote ---- */

  /**
   * Payer, squad, the squad's mint, the proposal, the payer's equity record,
   * the vote account, then the system program, rent and the Squads program.
   */
  function CastVoteKeys(payer: Pubkey, squad: Pubkey, squadMint: Pubkey, proposal: Pubkey, memberEquity: Pubkey,
    voteAccount: Pubkey, ids: ProgramIds): (keys: seq<AccountMeta>)
    ensures Pubkeys(keys) == [payer, squad, squadMint, proposal, memberEquity, voteAccount, ids.system, ids.rent, ids.squads]
    ensures SignersAre(keys, {0}) && WritablesAre(keys, {0, 1, 3, 5})
  {
    [Signer(payer), Writable(squad), ReadOnly(squadMint), Writable(proposal), ReadOnly(memberEquity), Writable(voteAccount),
     ReadOnly(ids.system), ReadOnly(ids.rent), ReadOnly(ids.squads)]
  }

  /**
   * What `withCastVote` does: a vote outside 0..255 throws; otherwise the
   * two-byte payload `[3, vote]` goes to `programId`, and the vote account
   * of the payer on the proposal is returned.
   */
  function CastVotePlan(o: Oracles, ids: ProgramIds, programId: Pubkey, payer: Pubkey, squad: Pubkey, proposal: Pubkey, vote: int)
    : (r: Result<(Instruction, Pubkey), Error>)
    ensures r.Ok? <==> IsU8(vote)
    ensures r.Err? ==> r.error == OutOfRange
    ensures r.Ok? ==> var (ix, voteAccount) := r.value;
      && ix.programId == programId && ix.data == [3, vote]
      && voteAccount == o.voteAccount(proposal, payer)
      && ix.keys == CastVoteKeys(payer, squad, o.squadMint(squad), proposal, o.memberEquity(payer, squad), voteAccount, ids)
      && Pubkeys(ix.keys)[5] == voteAccount
  {
    var out := WriteFields(CastVoteMembers(NewCastVoteArgs(vote)), Zeros(2), 0);
    CastVotePayload(vote);
    if out.failure.Some? then Err(out.failure.value)
    else
      var voteAccount := o.voteAccount(proposal, payer);
      Ok((Instruction(CastVoteKeys(payer, squad, o.squadMint(squad), proposal, o.memberEquity(payer, squad), voteAccount, ids),
        programId, out.buf), voteAccount))
  }

  /** `withCastVote`. */
  method WithCastVote(instructions: InstructionList, o: Oracles, ids: ProgramIds, programId: Pubkey, payer: Pubkey,
    squad: Pubkey, proposal: Pubkey, vote: int) returns (r: Result<Pubkey, Error>)
    modifies instructions
    ensures var plan := CastVotePlan(o, ids, programId, payer, squad, proposal, vote);
      && (plan.Ok? ==> r == Ok(plan.value.1) && instructions.items == old(instructions.items) + [plan.value.0])
      && (plan.Err? ==> r == Err(plan.error) && instructions.items == old(instructions.items))
  {
    var args := NewCastVoteArgs(vote);
    var data := new byte[2](_ => 0);
    assert data[..] == Zeros(2);
    var failure := EncodeFields(CastVoteMembers(args), data, 0);
    if failure.Some? {
      return Err(failure.value);
    }
    var squadMint := o.squadMint(squad);
    var memberEquityRecord := o.memberEquity(payer, squad);
    var voteAccount := o.voteAccount(proposal, payer);
    var keys := CastVoteKeys(payer, squad, squadMint, proposal, memberEquityRecord, voteAccount, ids);
    instructions.items := instructions.items + [Instruction(keys, programId, data[..])];
    return Ok(voteAccount);
  }

  /* ---- withExecuteProposal ---- */

  /**
   * Payer, squad, the squad's mint, the proposal, the squad's treasury, the
   * payer again, then the system, token, associated token and rent programs;
   * the payer (both times) and the proposal sign.
   */
  function ExecuteProposalKeys(payer: Pubkey, squad: Pubkey, squadMint: Pubkey, proposal: Pubkey, squadSol: Pubkey,
    ids: ProgramIds): (keys: seq<AccountMeta>)
    ensures Pubkeys(keys) == [payer, squad, squadMint, proposal, squadSol, payer, ids.system, ids.token, ids.associatedToken, ids.rent]
    ensures keys[0] == keys[5]
    ensures SignersAre(keys, {0, 3, 5}) && WritablesAre(keys, {0, 1, 3, 4, 5})
  {
    [Signer(payer), Writable(squad), ReadOnly(squadMint), Signer(proposal), Writable(squadSol), Signer(payer),
     ReadOnly(ids.system), ReadOnly(ids.token), ReadOnly(ids.associatedToken), ReadOnly(ids.rent)]
  }

  /**
   * What `withExecuteProposal` does: a normalised id that is not ASCII throws;
   * otherwise the eleven-byte payload, discriminant 5 and the ten id bytes,
   * goes to `programId` with the squad's treasury and mint.
   */
  function ExecuteProposalPlan(o: Oracles, ids: ProgramIds, programId: Pubkey, payer: Pubkey, squad: Pubkey, proposal: Pubkey,
    randomId: JsString): (r: Result<Instruction, Error>)
    ensures r.Ok? <==> Utf8.IsAscii(EnsureLength(randomId, 10))
    ensures r.Err? ==> r.error == TextTooLong
    ensures r.Ok? ==>
      && r.value.programId == programId && r.value.data == [5] + Utf8.Encode(EnsureLength(randomId, 10)) && |r.value.data| == 11
      && r.value.keys == ExecuteProposalKeys(payer, squad, o.squadMint(squad), proposal, o.treasury(squad), ids)
  {
    var out := WriteFields(ExecuteProposalMembers(NewExecuteProposalArgs(randomId)), Zeros(11), 0);
    ExecuteProposalPayload(randomId);
    if out.failure.Some? then Err(out.failure.value)
    else Ok(Instruction(ExecuteProposalKeys(payer, squad, o.squadMint(squad), proposal, o.treasury(squad), ids), programId, out.buf))
  }

  /** `withExecuteProposal`: nothing is returned. */
  method WithExecuteProposal(instructions: InstructionList, o: Oracles, ids: ProgramIds, programId: Pubkey, payer: Pubkey,
    squad: Pubkey, proposal: Pubkey, randomId: JsString) returns (failure: Option<Error>)
    modifies instructions
    ensures var plan := ExecuteProposalPlan(o, ids, programId, payer, squad, proposal, randomId);
      && (plan.Ok? ==> failure.None? && instructions.items == old(instructions.items) + [plan.value])
      && (plan.Err? ==> failure == Some(plan.error) && instructions.items == old(instructions.items))
  {
    var args := NewExecuteProposalArgs(randomId);
    var data := new byte[11](_ => 0);
    assert data[..] == Zeros(11);
    failure := EncodeFields(ExecuteProposalMembers(args), data, 0);
    if failure.Some? {
      return;
    }
    var squadSol := o.treasury(squad);
    var squadMint := o.squadMint(squad);
    var keys := ExecuteProposalKeys(payer, squad, squadMint, proposal, squadSol, ids);
    instructions.items := instructions.items + [Instruction(keys, programId, data[..])];
  }
}
