/**
 * The instruction arguments and the `SquadsSchema` table of
 * tests/squads_sdk/instruction.ts: which fields each instruction's payload
 * holds, in which order and how wide, and how the `*Args` constructors
 * normalise what the caller passes.
 */
module Schema {
  import opened Wrappers
  import opened Bytes
  import opened Errors
  import opened Structure
  import Utf8
  import Layout

  /** `SquadsInstruction`, a numeric enum: each instruction's first payload byte. */
  datatype SquadsInstruction =
    | CreateSquad
    | CreateMultiSig
    | CreateProposalAccount
    | CastVote
    | CastMultisigVote
    | ExecuteProposal
    | ExecuteMultisigProposal
    | AddMembersToSquad

  function Discriminant(ix: SquadsInstruction): (d: nat)
    ensures d < 8
  {
    match ix
    case CreateSquad => 0
    case CreateMultiSig => 1
    case CreateProposalAccount => 2
    case CastVote => 3
    case CastMultisigVote => 4
    case ExecuteProposal => 5
    case ExecuteMultisigProposal => 6
    case AddMembersToSquad => 7
  }

  /** No two instructions share a discriminant. */
  lemma DiscriminantInjective(a: SquadsInstruction, b: SquadsInstruction)
    ensures Discriminant(a) == Discriminant(b) ==> a == b
  {
  }

  /* ---- ensureLength ---- */

  function Spaces(n: nat): (r: JsString)
    ensures |r| == n && forall i :: 0 <= i < n ==> r[i] == SPACE
  {
    seq(n, _ => SPACE)
  }

  /**
   * `ensureLength(input, length)`: exactly `length` code units, the input's
   * own while it lasts and spaces after it.
   */
  function EnsureLength(input: JsString, length: nat): (r: JsString)
    ensures |r| == length
    ensures forall i :: 0 <= i < length ==> r[i] == if i < |input| then input[i] else SPACE
  {
    if |input| > length then input[..length] else input + Spaces(length - |input|)
  }

  lemma EnsureLengthIdempotent(input: JsString, length: nat)
    ensures EnsureLength(EnsureLength(input, length), length) == EnsureLength(input, length)
  {
  }

  /** A string of the right length is left as it is; a longer one keeps its prefix, a shorter one is its prefix. */
  lemma EnsureLengthKeeps(input: JsString, length: nat)
    ensures |input| == length ==> EnsureLength(input, length) == input
    ensures |input| >= length ==> EnsureLength(input, length) == input[..length]
    ensures |input| <= length ==> EnsureLength(input, length)[..|input|] == input
  {
  }

  lemma EnsureLengthAscii(input: JsString, length: nat)
    requires Utf8.IsAscii(input)
    ensures Utf8.IsAscii(EnsureLength(input, length))
  {
  }

  /**
   * A normalised string fits its fixed-width field exactly when it is ASCII:
   * `ensureLength` counts UTF-16 code units, the field UTF-8 bytes.
   */
  lemma EnsureLengthFits(input: JsString, length: nat)
    ensures |Utf8.Encode(EnsureLength(input, length))| <= length <==> Utf8.IsAscii(EnsureLength(input, length))
    ensures Utf8.IsAscii(EnsureLength(input, length)) ==> |Utf8.Encode(EnsureLength(input, length))| == length
  {
    Utf8.EncodeLength(EnsureLength(input, length));
  }

  /* ---- The layouts ---- */

  const CREATE_SQUAD_LAYOUT: seq<Field> :=
    [U8, U8, U8, U8, U8, FixedUtf8(24), FixedUtf8(36), FixedUtf8(6), FixedUtf8(10)]

  /* ---- CreateSquad ---- */

  datatype CreateSquadArgs = CreateSquadArgs(
    instruction: SquadsInstruction,
    allocationType: int,
    voteSupport: int,
    voteQuorum: int,
    coreThreshold: int,
    squadName: JsString,
    description: JsString,
    token: JsString,
    randomId: JsString)

  /** `new CreateSquadArgs(...)`: the fixed instruction, allocation type and threshold, and the four strings normalised. */
  function NewCreateSquadArgs(voteSupport: int, voteQuorum: int, squadName: JsString, description: JsString, token: JsString, randomId: JsString): (a: CreateSquadArgs)
    ensures Discriminant(a.instruction) == 0 && a.allocationType == 1 && a.coreThreshold == 0
    ensures a.voteSupport == voteSupport && a.voteQuorum == voteQuorum
    ensures |a.squadName| == 24 && |a.description| == 36 && |a.token| == 6 && |a.randomId| == 10
    ensures a.squadName == EnsureLength(squadName, 24) && a.description == EnsureLength(description, 36)
    ensures a.token == EnsureLength(token, 6) && a.randomId == EnsureLength(randomId, 10)
  {
    CreateSquadArgs(CreateSquad, 1, voteSupport, voteQuorum, 0,
      EnsureLength(squadName, 24), EnsureLength(description, 36), EnsureLength(token, 6), EnsureLength(randomId, 10))
  }

  /** The CreateSquad struct's members, each with the args property of its name. */
  function CreateSquadMembers(a: CreateSquadArgs): (ms: seq<Member>)
    ensures |ms| == 9
  {
    Members(CREATE_SQUAD_LAYOUT,
      [Some(Int(Discriminant(a.instruction))), Some(Int(a.allocationType)), Some(Int(a.voteSupport)), Some(Int(a.voteQuorum)),
       Some(Int(a.coreThreshold)), Some(Text(a.squadName)), Some(Text(a.description)), Some(Text(a.token)), Some(Text(a.randomId))])
  }

  predicate IsU8(n: int) { 0 <= n < 256 }

  /** Every number fits its byte and every string its field. */
  predicate CreateSquadEncodable(a: CreateSquadArgs) {
    && IsU8(a.allocationType) && IsU8(a.voteSupport) && IsU8(a.voteQuorum) && IsU8(a.coreThreshold)
    && Utf8.IsAscii(a.squadName) && Utf8.IsAscii(a.description) && Utf8.IsAscii(a.token) && Utf8.IsAscii(a.randomId)
  }

  lemma CreateSquadFixed(a: CreateSquadArgs)
    requires |a.squadName| == 24 && |a.description| == 36 && |a.token| == 6 && |a.randomId| == 10
    requires CreateSquadEncodable(a)
    ensures FixedAndEncodable(CreateSquadMembers(a), CREATE_SQUAD_LAYOUT)
  {
    Utf8.EncodeLength(a.squadName);
    Utf8.EncodeLength(a.description);
    Utf8.EncodeLength(a.token);
    Utf8.EncodeLength(a.randomId);
    var ms := CreateSquadMembers(a);
    forall i | 0 <= i < 9
      ensures ms[i].layout == CREATE_SQUAD_LAYOUT[i] && !CREATE_SQUAD_LAYOUT[i].U64Table? && Encodable(CREATE_SQUAD_LAYOUT[i], ms[i].value)
    {
    }
  }

  /** A text of exactly its field's width in UTF-8 bytes fills the field with no padding. */
  lemma FullText(w: nat, s: JsString)
    requires Utf8.IsAscii(s) && |s| == w
    ensures Image(FixedUtf8(w), Some(Text(s))) == Utf8.Encode(s)
  {
    Utf8.EncodeLength(s);
    assert Utf8.Encode(s) + Zeros(0) == Utf8.Encode(s);
  }

  lemma CreateSquadOffsets()
    ensures Span(CREATE_SQUAD_LAYOUT) == 81
    ensures Span(CREATE_SQUAD_LAYOUT[..0]) == 0 && Span(CREATE_SQUAD_LAYOUT[..1]) == 1 && Span(CREATE_SQUAD_LAYOUT[..2]) == 2
    ensures Span(CREATE_SQUAD_LAYOUT[..3]) == 3 && Span(CREATE_SQUAD_LAYOUT[..4]) == 4 && Span(CREATE_SQUAD_LAYOUT[..5]) == 5
    ensures Span(CREATE_SQUAD_LAYOUT[..6]) == 29 && Span(CREATE_SQUAD_LAYOUT[..7]) == 65 && Span(CREATE_SQUAD_LAYOUT[..8]) == 71
  {
    var l := CREATE_SQUAD_LAYOUT;
    assert l[..0] == [];
    SpanStep(l, 0); SpanStep(l, 1); SpanStep(l, 2); SpanStep(l, 3); SpanStep(l, 4);
    SpanStep(l, 5); SpanStep(l, 6); SpanStep(l, 7); SpanStep(l, 8);
    assert l[..9] == l;
  }

  lemma CreateSquadHeader(a: CreateSquadArgs)
    requires |a.squadName| == 24 && |a.description| == 36 && |a.token| == 6 && |a.randomId| == 10
    requires CreateSquadEncodable(a)
    ensures var p := WriteFields(CreateSquadMembers(a), Zeros(81), 0).buf;
      && p[0] == Discriminant(a.instruction) && p[1] == a.allocationType && p[2] == a.voteSupport
      && p[3] == a.voteQuorum && p[4] == a.coreThreshold
  {
    var ms := CreateSquadMembers(a);
    CreateSquadFixed(a);
    CreateSquadOffsets();
    ByteSlot(ms, CREATE_SQUAD_LAYOUT, 0, 0);
    ByteSlot(ms, CREATE_SQUAD_LAYOUT, 1, 1);
    ByteSlot(ms, CREATE_SQUAD_LAYOUT, 2, 2);
    ByteSlot(ms, CREATE_SQUAD_LAYOUT, 3, 3);
    ByteSlot(ms, CREATE_SQUAD_LAYOUT, 4, 4);
  }

  lemma CreateSquadTexts(a: CreateSquadArgs)
    requires |a.squadName| == 24 && |a.description| == 36 && |a.token| == 6 && |a.randomId| == 10
    requires CreateSquadEncodable(a)
    ensures var p := WriteFields(CreateSquadMembers(a), Zeros(81), 0).buf;
      && p[5..29] == Utf8.Encode(a.squadName) && p[29..65] == Utf8.Encode(a.description)
      && p[65..71] == Utf8.Encode(a.token) && p[71..81] == Utf8.Encode(a.randomId)
  {
    var ms := CreateSquadMembers(a);
    CreateSquadFixed(a);
    CreateSquadOffsets();
    Utf8.EncodeLength(a.squadName);
    Utf8.EncodeLength(a.description);
    Utf8.EncodeLength(a.token);
    Utf8.EncodeLength(a.randomId);
    TextSlot(ms, CREATE_SQUAD_LAYOUT, 5, 5, a.squadName);
    TextSlot(ms, CREATE_SQUAD_LAYOUT, 6, 29, a.description);
    TextSlot(ms, CREATE_SQUAD_LAYOUT, 7, 65, a.token);
    TextSlot(ms, CREATE_SQUAD_LAYOUT, 8, 71, a.randomId);
  }

  /** Fitting args encode into 81 zero bytes without a throw, filling them exactly. */
  lemma CreateSquadEncodesFitting(a: CreateSquadArgs)
    requires |a.squadName| == 24 && |a.description| == 36 && |a.token| == 6 && |a.randomId| == 10
    requires CreateSquadEncodable(a)
    ensures WriteFields(CreateSquadMembers(a), Zeros(81), 0) == Outcome(Images(CreateSquadMembers(a)), None)
  {
    CreateSquadFixed(a);
    CreateSquadOffsets();
    FixedOntoZeros(CreateSquadMembers(a), CREATE_SQUAD_LAYOUT);
  }

  /** The numbers of args whose members all passed their checks fit their bytes. */
  lemma CreateSquadValidBytes(a: CreateSquadArgs)
    requires AllValid(CreateSquadMembers(a))
    ensures IsU8(a.allocationType) && IsU8(a.voteSupport) && IsU8(a.voteQuorum) && IsU8(a.coreThreshold)
  {
    var ms := CreateSquadMembers(a);
    AllValidAt(ms, 1); AllValidAt(ms, 2); AllValidAt(ms, 3); AllValidAt(ms, 4);
  }

  /** The normalised strings of args whose members all passed their checks are ASCII. */
  lemma CreateSquadValidTexts(a: CreateSquadArgs)
    requires |a.squadName| == 24 && |a.description| == 36 && |a.token| == 6 && |a.randomId| == 10
    requires AllValid(CreateSquadMembers(a))
    ensures Utf8.IsAscii(a.squadName) && Utf8.IsAscii(a.description) && Utf8.IsAscii(a.token) && Utf8.IsAscii(a.randomId)
  {
    var ms := CreateSquadMembers(a);
    AllValidAt(ms, 5); AllValidAt(ms, 6); AllValidAt(ms, 7); AllValidAt(ms, 8);
    Utf8.EncodeLength(a.squadName);
    Utf8.EncodeLength(a.description);
    Utf8.EncodeLength(a.token);
    Utf8.EncodeLength(a.randomId);
  }

  /** An encode of the CreateSquad args into 81 zero bytes throws nothing exactly when every number fits its byte and every string is ASCII. */
  lemma CreateSquadEncodes(a: CreateSquadArgs)
    requires |a.squadName| == 24 && |a.description| == 36 && |a.token| == 6 && |a.randomId| == 10
    ensures WriteFields(CreateSquadMembers(a), Zeros(81), 0).failure.None? <==> CreateSquadEncodable(a)
  {
    if CreateSquadEncodable(a) {
      CreateSquadEncodesFitting(a);
    }
    WriteFieldsChecks(CreateSquadMembers(a), Zeros(81), 0);
    if AllValid(CreateSquadMembers(a)) {
      CreateSquadValidBytes(a);
      CreateSquadValidTexts(a);
    }
  }

  /* ---- CastVote ---- */

  const CAST_VOTE_LAYOUT: seq<Field> := [U8, U8]

  datatype CastVoteArgs = CastVoteArgs(instruction: SquadsInstruction, vote: int)

  function NewCastVoteArgs(vote: int): (a: CastVoteArgs)
    ensures Discriminant(a.instruction) == 3 && a.vote == vote
  {
    CastVoteArgs(CastVote, vote)
  }

  function CastVoteMembers(a: CastVoteArgs): (ms: seq<Member>)
    ensures |ms| == 2
  {
    Members(CAST_VOTE_LAYOUT, [Some(Int(Discriminant(a.instruction))), Some(Int(a.vote))])
  }

  /**
   * The CastVote payload is the discriminant byte 3 and the vote byte; a vote
   * outside 0..255 is refused once the discriminant is already written.
   */
  lemma CastVotePayload(vote: int)
    ensures var o := WriteFields(CastVoteMembers(NewCastVoteArgs(vote)), Zeros(2), 0);
      o == if IsU8(vote) then Outcome([3, vote], None) else Outcome([3, 0], Some(OutOfRange))
  {
    var ms := CastVoteMembers(NewCastVoteArgs(vote));
    assert ms == [Member(U8, Some(Int(3))), Member(U8, Some(Int(vote)))];
    var after := Splice(Zeros(2), 0, [3]);
    assert after == [3, 0];
    assert WriteField(U8, Int(3), Zeros(2), 0) == Outcome(after, None);
    WriteStep(ms, Zeros(2), 0, after);
    WriteOne(ms[1..], after, 1);
    if IsU8(vote) {
      assert Splice(after, 1, [vote]) == [3, vote];
    }
  }

  /* ---- ExecuteProposal ---- */

  const EXECUTE_PROPOSAL_LAYOUT: seq<Field> := [U8, FixedUtf8(10)]

  datatype ExecuteProposalArgs = ExecuteProposalArgs(instruction: SquadsInstruction, randomId: JsString)

  function NewExecuteProposalArgs(randomId: JsString): (a: ExecuteProposalArgs)
    ensures Discriminant(a.instruction) == 5 && a.randomId == EnsureLength(randomId, 10)
  {
    ExecuteProposalArgs(ExecuteProposal, EnsureLength(randomId, 10))
  }

  function ExecuteProposalMembers(a: ExecuteProposalArgs): (ms: seq<Member>)
    ensures |ms| == 2
  {
    Members(EXECUTE_PROPOSAL_LAYOUT, [Some(Int(Discriminant(a.instruction))), Some(Text(a.randomId))])
  }

  /**
   * The ExecuteProposal payload is the discriminant byte 5 and the ten bytes of
   * the normalised id; an id that is not ASCII has more than ten UTF-8 bytes
   * and is refused after the discriminant is written.
   */
  lemma ExecuteProposalPayload(randomId: JsString)
    ensures var id := EnsureLength(randomId, 10);
      var o := WriteFields(ExecuteProposalMembers(NewExecuteProposalArgs(randomId)), Zeros(11), 0);
      o == if Utf8.IsAscii(id) then Outcome([5] + Utf8.Encode(id), None) else Outcome([5] + Zeros(10), Some(TextTooLong))
  {
    var id := EnsureLength(randomId, 10);
    var ms := ExecuteProposalMembers(NewExecuteProposalArgs(randomId));
    assert ms == [Member(U8, Some(Int(5))), Member(FixedUtf8(10), Some(Text(id)))];
    EnsureLengthFits(randomId, 10);
    var after := Splice(Zeros(11), 0, [5]);
    assert after == [5] + Zeros(10);
    assert WriteField(U8, Int(5), Zeros(11), 0) == Outcome(after, None);
    WriteStep(ms, Zeros(11), 0, after);
    WriteOne(ms[1..], after, 1);
    if Utf8.IsAscii(id) {
      assert after[..1] == [5];
      assert after[1 + 10..] == [];
    }
  }

  /* ---- AddMembersToSquad ---- */

  /** The third field has no property name, so the struct never writes it: its eight bytes stay zero. */
  const ADD_MEMBERS_LAYOUT: seq<Field> := [U8, U8, U64, U64Table(9)]

  datatype AddMembersToSquadArgs = AddMembersToSquadArgs(instruction: SquadsInstruction, membersNum: int, allocationTable: seq<int>)

  /** `new AddMembersToSquadArgs(...)`: the count is the table's length. */
  function NewAddMembersToSquadArgs(allocationTable: seq<int>): (a: AddMembersToSquadArgs)
    ensures Discriminant(a.instruction) == 7
    ensures a.membersNum == |allocationTable| && a.allocationTable == allocationTable
  {
    AddMembersToSquadArgs(AddMembersToSquad, |allocationTable|, allocationTable)
  }

  function AddMembersMembers(a: AddMembersToSquadArgs): (ms: seq<Member>)
    ensures |ms| == 4
  {
    Members(ADD_MEMBERS_LAYOUT, [Some(Int(Discriminant(a.instruction))), Some(Int(a.membersNum)), None, Some(Ints(a.allocationTable))])
  }

  /** `10 + 8 * allocations.length`: the buffer `withAddMembersToSquad` allocates. */
  function AddMembersSize(n: nat): nat { 10 + 8 * n }

  /** What the head leaves: the discriminant 7, the count, and the eight bytes of the unnamed field. */
  function AddMembersPrefix(n: nat): (p: seq<byte>)
    requires n < 256
    ensures |p| == 10 && p[0] == 7 && p[1] == n && p[2..] == Zeros(8)
  {
    [7, n] + Zeros(8)
  }

  /** The fixed head of the struct: discriminant, count, and the eight skipped bytes. */
  lemma AddMembersHead(table: seq<int>)
    requires |table| < 256
    ensures var head := AddMembersMembers(NewAddMembersToSquadArgs(table))[..3];
      && FixedAndEncodable(head, [U8, U8, U64])
      && Images(head) == AddMembersPrefix(|table|)
  {
    var head := AddMembersMembers(NewAddMembersToSquadArgs(table))[..3];
    assert head == [Member(U8, Some(Int(7))), Member(U8, Some(Int(|table|))), Member(U64, None)];
    assert head[1..][1..][1..] == [];
    assert Images(head[1..][1..]) == Zeros(8);
    assert Images(head[1..]) == [|table|] + Zeros(8);
  }

  /** The struct is its fixed head followed by the table. */
  lemma AddMembersSplit(table: seq<int>)
    ensures var ms := AddMembersMembers(NewAddMembersToSquadArgs(table));
      && ms == ms[..3] + ms[3..]
      && ms[3..] == [Member(U64Table(9), Some(Ints(table)))]
  {
  }

  /** The head leaves the discriminant, the count and eight zeros, and hands the table offset 10. */
  lemma AddMembersHeadWrites(table: seq<int>)
    requires |table| < 256
    ensures var ms := AddMembersMembers(NewAddMembersToSquadArgs(table));
      WriteFields(ms, Zeros(AddMembersSize(|table|)), 0)
        == WriteFields(ms[3..], AddMembersPrefix(|table|) + Zeros(8 * |table|), 10)
  {
    var ms := AddMembersMembers(NewAddMembersToSquadArgs(table));
    var head := ms[..3];
    AddMembersSplit(table);
    AddMembersHead(table);
    FixedImages(head, [U8, U8, U64], []);
    var m := AddMembersSize(|table|);
    assert [] + Zeros(m) == Zeros(m);
    WriteFieldsThen(head, ms[3..], [], m);
    assert [] + Images(head) == AddMembersPrefix(|table|);
  }

  /** The table's amounts land after the head, and its count lands on the count byte already there. */
  lemma AddMembersTableWrites(table: seq<int>, prefix: seq<byte>)
    requires |table| < 256 && AllU64(table)
    requires prefix == AddMembersPrefix(|table|)
    ensures WriteFields([Member(U64Table(9), Some(Ints(table)))], prefix + Zeros(8 * |table|), 10) == Outcome(prefix + LEs(table), None)
  {
    WriteOne([Member(U64Table(9), Some(Ints(table)))], prefix + Zeros(8 * |table|), 10);
    TableOntoZeros(9, Ints(table), prefix, 8 * |table|);
    assert prefix + LEs(table) + Zeros(0) == prefix + LEs(table);
  }

  /** A fitting table: the payload is the discriminant 7, the count, eight zero bytes and each amount's eight bytes in input order. */
  lemma AddMembersFitting(table: seq<int>)
    requires |table| < 256 && AllU64(table)
    ensures WriteFields(AddMembersMembers(NewAddMembersToSquadArgs(table)), Zeros(AddMembersSize(|table|)), 0)
         == Outcome(AddMembersPrefix(|table|) + LEs(table), None)
  {
    AddMembersSplit(table);
    AddMembersHeadWrites(table);
    AddMembersTableWrites(table, AddMembersPrefix(|table|));
  }

  /** More than 255 members: the count byte refuses the length, after the discriminant is written. */
  lemma AddMembersTooMany(table: seq<int>)
    requires |table| >= 256
    ensures WriteFields(AddMembersMembers(NewAddMembersToSquadArgs(table)), Zeros(AddMembersSize(|table|)), 0)
         == Outcome([7] + Zeros(AddMembersSize(|table|) - 1), Some(OutOfRange))
  {
    var ms := AddMembersMembers(NewAddMembersToSquadArgs(table));
    var z := Zeros(AddMembersSize(|table|));
    var after := Splice(z, 0, [7]);
    assert after == [7] + Zeros(AddMembersSize(|table|) - 1);
    assert WriteField(U8, Int(7), z, 0) == Outcome(after, None);
    WriteStep(ms, z, 0, after);
    assert ms[1..][0] == Member(U8, Some(Int(|table|)));
    assert WriteFields(ms[1..], after, 1) == WriteFirst(ms[1..], after, 1);
  }

  /** The AddMembersToSquad encode throws nothing exactly when the count fits its byte and every amount is an unsigned 64-bit value. */
  lemma AddMembersEncodes(table: seq<int>)
    ensures WriteFields(AddMembersMembers(NewAddMembersToSquadArgs(table)), Zeros(AddMembersSize(|table|)), 0).failure.None?
        <==> |table| < 256 && AllU64(table)
  {
    var ms := AddMembersMembers(NewAddMembersToSquadArgs(table));
    if |table| < 256 && AllU64(table) {
      AddMembersFitting(table);
    }
    WriteFieldsChecks(ms, Zeros(AddMembersSize(|table|)), 0);
    if AllValid(ms) {
      AllValidAt(ms, 3);
    }
  }

  /** Each allocation amount reads back, in input order, from the eight bytes `10 + 8 * i` in. */
  lemma AddMembersAmounts(table: seq<int>, i: nat)
    requires |table| < 256 && AllU64(table) && i < |table|
    ensures var p := WriteFields(AddMembersMembers(NewAddMembersToSquadArgs(table)), Zeros(AddMembersSize(|table|)), 0).buf;
      Layout.DecodeU64(p, 10 + 8 * i) == table[i]
  {
    AddMembersFitting(table);
    AmountAt(AddMembersPrefix(|table|), table, i);
  }

  lemma AmountAt(prefix: seq<byte>, table: seq<int>, i: nat)
    requires |prefix| == 10 && AllU64(table) && i < |table|
    ensures Layout.DecodeU64(prefix + LEs(table), 10 + 8 * i) == table[i]
  {
    AmountWindow(prefix, table, i);
    LEsAt(table, i);
    AllU64At(table, i);
    ModTwo64(table[i]);
    Pow256Values();
    FromLEOfLE(table[i], 8);
  }

  lemma AmountWindow(prefix: seq<byte>, table: seq<int>, i: nat)
    requires |prefix| == 10 && AllU64(table) && i < |table|
    ensures Slice(prefix + LEs(table), 10 + 8 * i, 10 + 8 * i + 8) == LEs(table)[8 * i..8 * i + 8]
  {
    AppendSlice(prefix, LEs(table), 8 * i, 8 * i + 8);
  }

  /* ---- CreateProposalAccount ---- */

  /** The fields every CreateProposalAccount payload has room for: 819 bytes. */
  const PROPOSAL_HEAD_LAYOUT: seq<Field> :=
    [U8, U8, FixedUtf8(36), FixedUtf8(496), FixedUtf8(48), U8, Utf8Array(44, 5), I64, I64]

  /** Then the optional `amount` and `minimumOut`. */
  const PROPOSAL_LAYOUT: seq<Field> := PROPOSAL_HEAD_LAYOUT + [U64, U64]

  datatype CreateProposalAccountArgs = CreateProposalAccountArgs(
    instruction: SquadsInstruction,
    proposalType: int,
    title: JsString,
    description: JsString,
    link: JsString,
    votesNum: int,
    votesLabels: seq<JsString>,
    startTimestamp: int,
    closeTimestamp: int,
    amount: Option<int>,
    minimumOut: Option<int>)

  /** `ms.div(new BN(1_000))`: milliseconds to seconds, the quotient truncated toward zero as BN's `div` does. */
  function MillisToSeconds(ms: int): (s: int)
    ensures ms >= 0 ==> s >= 0 && 0 <= ms - 1000 * s < 1000
    ensures ms < 0 ==> s <= 0 && -1000 < ms - 1000 * s <= 0
  {
    if ms >= 0 then ms / 1000 else -((-ms) / 1000)
  }

  /** Whole seconds convert back exactly. */
  lemma MillisToSecondsExact(s: int)
    ensures MillisToSeconds(1000 * s) == s
  {
  }

  /** Truncation is symmetric about zero (floor division would not be). */
  lemma MillisToSecondsOdd(ms: int)
    ensures MillisToSeconds(-ms) == -MillisToSeconds(ms)
  {
  }

  /** The normalised labels: each truncated or padded to 44 code units, in order. */
  function NormaliseLabels(labels: seq<JsString>): (r: seq<JsString>)
    ensures |r| == |labels|
    ensures forall i :: 0 <= i < |r| ==> |r[i]| == 44 && r[i] == EnsureLength(labels[i], 44)
  {
    seq(|labels|, i requires 0 <= i < |labels| => EnsureLength(labels[i], 44))
  }

  /** What the constructor guarantees of every args object it returns. */
  predicate ProposalShaped(a: CreateProposalAccountArgs) {
    && a.instruction == CreateProposalAccount
    && |a.title| == 36 && |a.description| == 496 && |a.link| == 48
    && |a.votesLabels| <= 5 && forall i :: 0 <= i < |a.votesLabels| ==> |a.votesLabels[i]| == 44
  }

  /**
   * `new CreateProposalAccountArgs(...)`: more than five labels throw before
   * anything else; otherwise the texts are normalised to 36, 496, 48 and 44
   * code units, both timestamps go from milliseconds to seconds, and the
   * optional amounts are kept as given.
   */
  function NewCreateProposalAccountArgs(
    proposalType: int, title: JsString, description: JsString, link: JsString, votesNum: int,
    votesLabels: seq<JsString>, startTimestamp: int, closeTimestamp: int,
    amount: Option<int>, minimumOut: Option<int>): (r: Result<CreateProposalAccountArgs, Error>)
    ensures r.Err? <==> |votesLabels| > 5
    ensures r.Err? ==> r.error == TooManyLabels
    ensures r.Ok? ==> ProposalShaped(r.value)
    ensures r.Ok? ==> && r.value.proposalType == proposalType && r.value.votesNum == votesNum
                      && r.value.title == EnsureLength(title, 36) && r.value.description == EnsureLength(description, 496)
                      && r.value.link == EnsureLength(link, 48) && r.value.votesLabels == NormaliseLabels(votesLabels)
                      && r.value.startTimestamp == MillisToSeconds(startTimestamp)
                      && r.value.closeTimestamp == MillisToSeconds(closeTimestamp)
                      && r.value.amount == amount && r.value.minimumOut == minimumOut
  {
    if |votesLabels| > 5 then Err(TooManyLabels)
    else Ok(CreateProposalAccountArgs(CreateProposalAccount, proposalType,
      EnsureLength(title, 36), EnsureLength(description, 496), EnsureLength(link, 48), votesNum,
      NormaliseLabels(votesLabels), MillisToSeconds(startTimestamp), MillisToSeconds(closeTimestamp), amount, minimumOut))
  }

  /** An optional numeric property: undefined stays undefined. */
  function OptionalInt(n: Option<int>): (v: Option<Value>)
    ensures v.Some? <==> n.Some?
    ensures n.Some? ==> v.value == Int(n.value)
  {
    if n.Some? then Some(Int(n.value)) else None
  }

  function ProposalHead(a: CreateProposalAccountArgs): (ms: seq<Member>)
    ensures |ms| == 9
    ensures && ms[0] == Member(U8, Some(Int(Discriminant(a.instruction)))) && ms[1] == Member(U8, Some(Int(a.proposalType)))
            && ms[2] == Member(FixedUtf8(36), Some(Text(a.title))) && ms[3] == Member(FixedUtf8(496), Some(Text(a.description)))
            && ms[4] == Member(FixedUtf8(48), Some(Text(a.link))) && ms[5] == Member(U8, Some(Int(a.votesNum)))
            && ms[6] == Member(Utf8Array(44, 5), Some(Texts(a.votesLabels)))
            && ms[7] == Member(I64, Some(Int(a.startTimestamp))) && ms[8] == Member(I64, Some(Int(a.closeTimestamp)))
  {
    Members(PROPOSAL_HEAD_LAYOUT,
      [Some(Int(Discriminant(a.instruction))), Some(Int(a.proposalType)), Some(Text(a.title)), Some(Text(a.description)),
       Some(Text(a.link)), Some(Int(a.votesNum)), Some(Texts(a.votesLabels)), Some(Int(a.startTimestamp)), Some(Int(a.closeTimestamp))])
  }

  function ProposalTail(amount: Option<int>, minimumOut: Option<int>): (ms: seq<Member>)
    ensures |ms| == 2
  {
    [Member(U64, OptionalInt(amount)), Member(U64, OptionalInt(minimumOut))]
  }

  /** The CreateProposalAccount struct's members: the head, then the two optional amounts. */
  function ProposalMembers(a: CreateProposalAccountArgs): (ms: seq<Member>)
    ensures |ms| == 11 && ms[..9] == ProposalHead(a) && ms[9..] == ProposalTail(a.amount, a.minimumOut)
  {
    ProposalHead(a) + ProposalTail(a.amount, a.minimumOut)
  }

  /**
   * `dataSize` in `withCreateProposalAccount`: 819 bytes, eight more for an
   * amount, and eight more again for a minimum out, but only when an amount is given.
   */
  function ProposalSize(amount: Option<int>, minimumOut: Option<int>): nat {
    819 + (if amount.Some? then 8 + (if minimumOut.Some? then 8 else 0) else 0)
  }

  predicate IsU64(n: int) { 0 <= n < TWO_64 }

  predicate LabelsAscii(labels: seq<JsString>) {
    forall i :: 0 <= i < |labels| ==> Utf8.IsAscii(labels[i])
  }

  /** Every head value passes its field's checks. */
  predicate ProposalHeadEncodable(a: CreateProposalAccountArgs) {
    && IsU8(a.proposalType) && Utf8.IsAscii(a.title) && Utf8.IsAscii(a.description) && Utf8.IsAscii(a.link)
    && IsU8(a.votesNum) && LabelsAscii(a.votesLabels)
    && Layout.I64Encodable(a.startTimestamp) && Layout.I64Encodable(a.closeTimestamp)
  }

  /** The optional amounts encode: each given one is a u64, and a minimum out only comes with an amount. */
  predicate ProposalTailEncodable(amount: Option<int>, minimumOut: Option<int>) {
    && (amount.Some? ==> IsU64(amount.value))
    && (minimumOut.Some? ==> amount.Some? && IsU64(minimumOut.value))
  }

  lemma ProposalLabelsFit(labels: seq<JsString>)
    requires forall i :: 0 <= i < |labels| ==> |labels[i]| == 44
    requires LabelsAscii(labels)
    ensures TextsFit(44, labels)
    ensures forall i :: 0 <= i < |labels| ==> |Utf8.Encode(labels[i])| == 44
  {
    forall i | 0 <= i < |labels|
      ensures |Utf8.Encode(labels[i])| == 44
    {
      Utf8.EncodeLength(labels[i]);
    }
    TextsFitEach(44, labels);
  }

  lemma ProposalHeadFixed(a: CreateProposalAccountArgs)
    requires ProposalShaped(a) && ProposalHeadEncodable(a)
    ensures FixedAndEncodable(ProposalHead(a), PROPOSAL_HEAD_LAYOUT)
  {
    Utf8.EncodeLength(a.title);
    Utf8.EncodeLength(a.description);
    Utf8.EncodeLength(a.link);
    ProposalLabelsFit(a.votesLabels);
    var ms := ProposalHead(a);
    forall i | 0 <= i < 9
      ensures ms[i].layout == PROPOSAL_HEAD_LAYOUT[i] && !PROPOSAL_HEAD_LAYOUT[i].U64Table? && Encodable(PROPOSAL_HEAD_LAYOUT[i], ms[i].value)
    {
    }
  }

  lemma ProposalHeadOffsets()
    ensures Span(PROPOSAL_HEAD_LAYOUT) == 819
    ensures Span(PROPOSAL_HEAD_LAYOUT[..0]) == 0 && Span(PROPOSAL_HEAD_LAYOUT[..1]) == 1 && Span(PROPOSAL_HEAD_LAYOUT[..2]) == 2
    ensures Span(PROPOSAL_HEAD_LAYOUT[..3]) == 38 && Span(PROPOSAL_HEAD_LAYOUT[..4]) == 534 && Span(PROPOSAL_HEAD_LAYOUT[..5]) == 582
    ensures Span(PROPOSAL_HEAD_LAYOUT[..6]) == 583 && Span(PROPOSAL_HEAD_LAYOUT[..7]) == 803 && Span(PROPOSAL_HEAD_LAYOUT[..8]) == 811
  {
    var l := PROPOSAL_HEAD_LAYOUT;
    assert l[..0] == [];
    SpanStep(l, 0); SpanStep(l, 1); SpanStep(l, 2); SpanStep(l, 3); SpanStep(l, 4);
    SpanStep(l, 5); SpanStep(l, 6); SpanStep(l, 7); SpanStep(l, 8);
    assert l[..9] == l;
  }

  /** The first 819 bytes of a CreateProposalAccount payload: the head members' images back to back. */
  function ProposalHeadBytes(a: CreateProposalAccountArgs): (q: seq<byte>)
  {
    Images(ProposalHead(a))
  }

  /** Head member `k`, of field `f` and value `v`, leaves its image at `start`, the spans before it added up. */
  lemma {:induction false} ProposalHeadSlot(a: CreateProposalAccountArgs, k: nat, start: nat)
    requires ProposalShaped(a) && ProposalHeadEncodable(a) && k < 9 && start == Span(PROPOSAL_HEAD_LAYOUT[..k])
    ensures var m := ProposalHead(a)[k];
      && |ProposalHeadBytes(a)| == 819 && start + DeclaredSpan(m.layout) <= 819
      && ProposalHeadBytes(a)[start..start + DeclaredSpan(m.layout)] == Image(m.layout, m.value)
  {
    var ms := ProposalHead(a);
    ProposalHeadFixed(a);
    ProposalHeadOffsets();
    FixedImages(ms, PROPOSAL_HEAD_LAYOUT, []);
    Slot(ms, PROPOSAL_HEAD_LAYOUT, k);
  }

  /** A `u8` head member's byte. */
  lemma ProposalByteSlot(a: CreateProposalAccountArgs, k: nat, start: nat, n: int)
    requires ProposalShaped(a) && ProposalHeadEncodable(a) && k < 9
    requires start == Span(PROPOSAL_HEAD_LAYOUT[..k]) && ProposalHead(a)[k] == Member(U8, Some(Int(n)))
    requires IsU8(n)
    ensures |ProposalHeadBytes(a)| == 819 && start < 819 && ProposalHeadBytes(a)[start] == n
  {
    ProposalHeadSlot(a, k, start);
    var q := ProposalHeadBytes(a);
    assert q[start..start + 1][0] == q[start];
  }

  /** The discriminant 2, the proposal type and the vote count, each at its offset. */
  lemma ProposalHeader(a: CreateProposalAccountArgs)
    requires ProposalShaped(a) && ProposalHeadEncodable(a)
    ensures var q := ProposalHeadBytes(a);
      |q| == 819 && q[0] == 2 && q[1] == a.proposalType && q[582] == a.votesNum
  {
    ProposalHeadOffsets();
    ProposalByteSlot(a, 0, 0, 2);
    ProposalByteSlot(a, 1, 1, a.proposalType);
    ProposalByteSlot(a, 5, 582, a.votesNum);
  }

  /** An ASCII head text as long as its field is wide, in its slot. */
  lemma ProposalTextSlot(a: CreateProposalAccountArgs, k: nat, start: nat, w: nat, s: JsString)
    requires ProposalShaped(a) && ProposalHeadEncodable(a) && k < 9
    requires start == Span(PROPOSAL_HEAD_LAYOUT[..k]) && ProposalHead(a)[k] == Member(FixedUtf8(w), Some(Text(s)))
    requires Utf8.IsAscii(s) && |s| == w
    ensures |ProposalHeadBytes(a)| == 819 && start + w <= 819 && ProposalHeadBytes(a)[start..start + w] == Utf8.Encode(s)
  {
    ProposalHeadSlot(a, k, start);
    FullText(w, s);
  }

  /** The title, description and link fill their slots with their UTF-8 bytes. */
  lemma ProposalTexts(a: CreateProposalAccountArgs)
    requires ProposalShaped(a) && ProposalHeadEncodable(a)
    ensures var q := ProposalHeadBytes(a);
      && |q| == 819 && q[2..38] == Utf8.Encode(a.title) && q[38..534] == Utf8.Encode(a.description)
      && q[534..582] == Utf8.Encode(a.link)
  {
    ProposalHeadOffsets();
    ProposalTextSlot(a, 2, 2, 36, a.title);
    ProposalTextSlot(a, 3, 38, 496, a.description);
    ProposalTextSlot(a, 4, 534, 48, a.link);
  }

  /** The labels sit back to back from byte 583, the unused label slots left zero. */
  lemma ProposalLabels(a: CreateProposalAccountArgs)
    requires ProposalShaped(a) && ProposalHeadEncodable(a)
    ensures |ProposalHeadBytes(a)| == 819 && |EncodeAll(a.votesLabels)| == 44 * |a.votesLabels| <= 220
    ensures ProposalHeadBytes(a)[583..803] == EncodeAll(a.votesLabels) + Zeros(220 - 44 * |a.votesLabels|)
  {
    ProposalLabelsSlot(a);
    ProposalLabelsFit(a.votesLabels);
    LabelsImage(a.votesLabels);
  }

  lemma ProposalLabelsSlot(a: CreateProposalAccountArgs)
    requires ProposalShaped(a) && ProposalHeadEncodable(a)
    ensures |ProposalHeadBytes(a)| == 819
    ensures ProposalHeadBytes(a)[583..803] == Image(Utf8Array(44, 5), Some(Texts(a.votesLabels)))
  {
    ProposalHeadOffsets();
    ProposalHeadSlot(a, 6, 583);
  }

  /** At most five labels of 44 bytes each, zero-padded to the 220 bytes of the label array. */
  lemma LabelsImage(labels: seq<JsString>)
    requires |labels| <= 5 && forall i :: 0 <= i < |labels| ==> |Utf8.Encode(labels[i])| == 44
    ensures |EncodeAll(labels)| == 44 * |labels| <= 220
    ensures Image(Utf8Array(44, 5), Some(Texts(labels))) == EncodeAll(labels) + Zeros(220 - 44 * |labels|)
  {
    EncodeAllLength(44, labels);
  }

  /** Label `i` occupies the 44 bytes from `583 + 44 * i`. */
  lemma ProposalLabelAt(a: CreateProposalAccountArgs, i: nat)
    requires ProposalShaped(a) && ProposalHeadEncodable(a) && i < |a.votesLabels|
    ensures |ProposalHeadBytes(a)| == 819 && 583 + 44 * i + 44 <= 803
    ensures ProposalHeadBytes(a)[583 + 44 * i..583 + 44 * i + 44] == Utf8.Encode(a.votesLabels[i])
  {
    var q := ProposalHeadBytes(a);
    var labels := a.votesLabels;
    ProposalLabels(a);
    ProposalLabelsFit(labels);
    EncodeAllAt(44, labels, i, 44 * i);
    PrefixSlice(EncodeAll(labels), Zeros(220 - 44 * |labels|), 44 * i, 44 * i + 44);
    InnerSlice(q, 583, 803, 44 * i, 44 * i + 44);
  }

  /** A signed 64-bit head member reads back from its slot. */
  lemma ProposalI64Slot(a: CreateProposalAccountArgs, k: nat, start: nat, n: int)
    requires ProposalShaped(a) && ProposalHeadEncodable(a) && k < 9
    requires start == Span(PROPOSAL_HEAD_LAYOUT[..k]) && ProposalHead(a)[k] == Member(I64, Some(Int(n)))
    requires -TWO_63 <= n < TWO_63
    ensures start + 8 <= |ProposalHeadBytes(a)| && Layout.DecodeI64(ProposalHeadBytes(a), start) == n
  {
    ProposalHeadSlot(a, k, start);
    Layout.DecodeI64At(ProposalHeadBytes(a), start, n);
  }

  /** Both timestamps read back from bytes 803 and 811 as signed 64-bit values. */
  lemma ProposalTimestamps(a: CreateProposalAccountArgs)
    requires ProposalShaped(a) && ProposalHeadEncodable(a)
    requires -TWO_63 <= a.startTimestamp < TWO_63 && -TWO_63 <= a.closeTimestamp < TWO_63
    ensures Layout.DecodeI64(ProposalHeadBytes(a), 803) == a.startTimestamp
    ensures Layout.DecodeI64(ProposalHeadBytes(a), 811) == a.closeTimestamp
  {
    ProposalHeadOffsets();
    ProposalI64Slot(a, 7, 803, a.startTimestamp);
    ProposalI64Slot(a, 8, 811, a.closeTimestamp);
  }

  /** The head encodes first, leaving its images, and the optional amounts are encoded after it from byte 819. */
  lemma ProposalHeadThen(a: CreateProposalAccountArgs)
    requires ProposalShaped(a) && ProposalHeadEncodable(a)
    ensures var m := ProposalSize(a.amount, a.minimumOut);
      && |ProposalHeadBytes(a)| == 819
      && WriteFields(ProposalMembers(a), Zeros(m), 0)
         == WriteFields(ProposalTail(a.amount, a.minimumOut), ProposalHeadBytes(a) + Zeros(m - 819), 819)
  {
    var ms := ProposalHead(a);
    var m := ProposalSize(a.amount, a.minimumOut);
    ProposalHeadFixed(a);
    ProposalHeadOffsets();
    FixedImages(ms, PROPOSAL_HEAD_LAYOUT, []);
    WriteFieldsThen(ms, ProposalTail(a.amount, a.minimumOut), [], m);
    assert [] + Zeros(m) == Zeros(m);
    assert [] + Images(ms) == Images(ms);
  }

  /* The optional amounts, after the 819 head bytes `p`. */

  lemma TailAbsent(p: seq<byte>)
    requires |p| == 819
    ensures WriteFields(ProposalTail(None, None), p + Zeros(0), 819) == Outcome(p, None)
  {
    var ms := ProposalTail(None, None);
    assert p + Zeros(0) == p;
    SkipStep(ms, p, 819);
    SkipStep(ms[1..], p, 827);
    assert ms[1..][1..] == [];
  }

  /** An amount alone: a u64 at byte 819, or the error `U64.encode` throws for it. */
  lemma TailAmount(x: int, p: seq<byte>)
    requires |p| == 819
    ensures var o := WriteFields(ProposalTail(Some(x), None), p + Zeros(8), 819);
      if IsU64(x) then o.failure.None? && o.buf[..819] == p && Layout.DecodeU64(o.buf, 819) == x
      else o == Outcome(p + Zeros(8), Some(if x < 0 then NegativeValue else Overflow))
  {
    var ms := ProposalTail(Some(x), None);
    var buf := p + Zeros(8);
    assert WriteFields(ms, buf, 819) == WriteFirst(ms, buf, 819);
    if IsU64(x) {
      var image := Image(U64, Some(Int(x)));
      U64OntoZeros(Int(x), p, 8);
      var after := p + image + Zeros(0);
      WriteStep(ms, buf, 819, after);
      SkipStep(ms[1..], after, 827);
      assert ms[1..][1..] == [];
      assert after[..819] == p;
      assert after[819..827] == image;
      Bytes.ModTwo64(x);
      Layout.DecodeU64At(after, 819, x);
    }
  }

  /** A minimum out without an amount: the buffer has no room for it at byte 827, so it is always refused. */
  lemma TailMinimumOutAlone(y: int, p: seq<byte>)
    requires |p| == 819
    ensures WriteFields(ProposalTail(None, Some(y)), p + Zeros(0), 819)
         == Outcome(p, Some(if y < 0 then NegativeValue else Overrun))
  {
    var ms := ProposalTail(None, Some(y));
    assert p + Zeros(0) == p;
    SkipStep(ms, p, 819);
    WriteOne(ms[1..], p, 827);
  }

  /** Both amounts: two u64s at bytes 819 and 827, or the first error `U64.encode` throws. */
  lemma TailBoth(x: int, y: int, p: seq<byte>)
    requires |p| == 819
    ensures var o := WriteFields(ProposalTail(Some(x), Some(y)), p + Zeros(16), 819);
      && (o.failure.None? <==> IsU64(x) && IsU64(y))
      && (!IsU64(x) ==> o.failure == Some(if x < 0 then NegativeValue else Overflow))
      && (IsU64(x) && !IsU64(y) ==> o.failure == Some(if y < 0 then NegativeValue else Overflow))
      && (o.failure.None? ==> o.buf[..819] == p && Layout.DecodeU64(o.buf, 819) == x && Layout.DecodeU64(o.buf, 827) == y)
  {
    var ms := ProposalTail(Some(x), Some(y));
    var buf := p + Zeros(16);
    assert WriteFields(ms, buf, 819) == WriteFirst(ms, buf, 819);
    if IsU64(x) {
      var first := Image(U64, Some(Int(x)));
      U64OntoZeros(Int(x), p, 16);
      var after := p + first + Zeros(8);
      WriteStep(ms, buf, 819, after);
      WriteOne(ms[1..], after, 827);
      if IsU64(y) {
        TailBothWritten(x, y, p, first, after);
      }
    }
  }

  /** Both amounts encode: the head stays, and each amount reads back from its place. */
  lemma TailBothWritten(x: int, y: int, p: seq<byte>, first: seq<byte>, after: seq<byte>)
    requires |p| == 819 && IsU64(x) && IsU64(y)
    requires first == Image(U64, Some(Int(x))) && after == p + first + Zeros(8)
    ensures var o := WriteField(U64, Int(y), after, 827);
      && o.failure.None? && o.buf[..819] == p && Layout.DecodeU64(o.buf, 819) == x && Layout.DecodeU64(o.buf, 827) == y
  {
    var second := Image(U64, Some(Int(y)));
    U64OntoZeros(Int(y), p + first, 8);
    var last := p + first + second + Zeros(0);
    assert WriteField(U64, Int(y), after, 827) == Outcome(last, None);
    assert last[..819] == p;
    assert last[819..827] == first;
    assert last[827..835] == second;
    Bytes.ModTwo64(x);
    Bytes.ModTwo64(y);
    Layout.DecodeU64At(last, 819, x);
    Layout.DecodeU64At(last, 827, y);
  }

  /** The optional amounts after any 819 head bytes: each in its place, refused exactly when they do not encode. */
  lemma TailWrites(amount: Option<int>, minimumOut: Option<int>, p: seq<byte>)
    requires |p| == 819
    ensures var o := WriteFields(ProposalTail(amount, minimumOut), p + Zeros(ProposalSize(amount, minimumOut) - 819), 819);
      && (o.failure.None? <==> ProposalTailEncodable(amount, minimumOut))
      && (o.failure.None? ==> o.buf[..819] == p)
      && (o.failure.None? && amount.Some? ==> Layout.DecodeU64(o.buf, 819) == amount.value)
      && (o.failure.None? && minimumOut.Some? ==> Layout.DecodeU64(o.buf, 827) == minimumOut.value)
  {
    match (amount, minimumOut)
    case (None, None) => TailAbsent(p);
    case (Some(x), None) => TailAmount(x, p);
    case (None, Some(y)) => TailMinimumOutAlone(y, p);
    case (Some(x), Some(y)) => TailBoth(x, y, p);
  }

  /** Head values that passed their checks are the values `ProposalHeadEncodable` asks for. */
  lemma ProposalValid(a: CreateProposalAccountArgs)
    requires ProposalShaped(a) && AllValid(ProposalMembers(a))
    ensures ProposalHeadEncodable(a)
  {
    var ms := ProposalMembers(a);
    var head := ProposalHead(a);
    assert forall k :: 0 <= k < 9 ==> ms[k] == head[k] by {
      assert ms[..9] == head;
    }
    AllValidAt(ms, 1); AllValidAt(ms, 2); AllValidAt(ms, 3); AllValidAt(ms, 4);
    AllValidAt(ms, 5); AllValidAt(ms, 6); AllValidAt(ms, 7); AllValidAt(ms, 8);
    Utf8.EncodeLength(a.title);
    Utf8.EncodeLength(a.description);
    Utf8.EncodeLength(a.link);
    TextsFitEach(44, a.votesLabels);
    forall i | 0 <= i < |a.votesLabels|
      ensures Utf8.IsAscii(a.votesLabels[i])
    {
      Utf8.EncodeLength(a.votesLabels[i]);
    }
  }

  /**
   * Encoding the CreateProposalAccount args into a buffer of `dataSize`
   * zero bytes throws nothing exactly when every head value passes its
   * field's checks and the optional amounts encode.
   */
  lemma ProposalEncodes(a: CreateProposalAccountArgs)
    requires ProposalShaped(a)
    ensures WriteFields(ProposalMembers(a), Zeros(ProposalSize(a.amount, a.minimumOut)), 0).failure.None?
        <==> ProposalHeadEncodable(a) && ProposalTailEncodable(a.amount, a.minimumOut)
  {
    var m := ProposalSize(a.amount, a.minimumOut);
    WriteFieldsChecks(ProposalMembers(a), Zeros(m), 0);
    if WriteFields(ProposalMembers(a), Zeros(m), 0).failure.None? {
      ProposalValid(a);
    }
    if ProposalHeadEncodable(a) {
      ProposalHeadThen(a);
      TailWrites(a.amount, a.minimumOut, ProposalHeadBytes(a));
    }
  }

  /**
   * An encodable CreateProposalAccount payload is the head bytes followed by
   * the amount and the minimum out, each reading back from its offset.
   */
  lemma ProposalPayload(a: CreateProposalAccountArgs)
    requires ProposalShaped(a) && ProposalHeadEncodable(a) && ProposalTailEncodable(a.amount, a.minimumOut)
    ensures var o := WriteFields(ProposalMembers(a), Zeros(ProposalSize(a.amount, a.minimumOut)), 0);
      && o.failure.None? && o.buf[..819] == ProposalHeadBytes(a)
      && (a.amount.Some? ==> Layout.DecodeU64(o.buf, 819) == a.amount.value)
      && (a.minimumOut.Some? ==> Layout.DecodeU64(o.buf, 827) == a.minimumOut.value)
  {
    ProposalHeadThen(a);
    TailWrites(a.amount, a.minimumOut, ProposalHeadBytes(a));
  }

  /** A minimum out given without an amount is always refused, with no room left for it in the buffer. */
  lemma ProposalMinimumOutAlone(a: CreateProposalAccountArgs)
    requires ProposalShaped(a) && ProposalHeadEncodable(a) && a.amount.None? && a.minimumOut.Some?
    ensures WriteFields(ProposalMembers(a), Zeros(ProposalSize(a.amount, a.minimumOut)), 0).failure
         == Some(if a.minimumOut.value < 0 then NegativeValue else Overrun)
  {
    ProposalHeadThen(a);
    TailMinimumOutAlone(a.minimumOut.value, ProposalHeadBytes(a));
  }

  /* ---- SquadsSchema ---- */

  /** `SquadsSchema`: the payload layout of each instruction the client builds; the multisig instructions have none. */
  function SquadsSchema(ix: SquadsInstruction): (r: Option<seq<Field>>)
    ensures r.None? <==> ix in {CreateMultiSig, CastMultisigVote, ExecuteMultisigProposal}
    ensures r.Some? ==> |r.value| > 0 && r.value[0] == U8
  {
    match ix
    case CreateSquad => Some(CREATE_SQUAD_LAYOUT)
    case AddMembersToSquad => Some(ADD_MEMBERS_LAYOUT)
    case CreateProposalAccount => Some(PROPOSAL_LAYOUT)
    case CastVote => Some(CAST_VOTE_LAYOUT)
    case ExecuteProposal => Some(EXECUTE_PROPOSAL_LAYOUT)
    case _ => None
  }

  /**
   * The declared spans add up to the buffers the builders allocate: 81 for
   * CreateSquad, 819 to 835 for CreateProposalAccount, 2 for CastVote, 11
   * for ExecuteProposal, and 10 plus the table for AddMembersToSquad.
   */
  lemma SchemaSpans(n: nat)
    ensures Span(SquadsSchema(CreateSquad).value) == 81
    ensures Span(PROPOSAL_HEAD_LAYOUT) == ProposalSize(None, None) == ProposalSize(None, Some(0)) == 819
    ensures ProposalSize(Some(0), None) == 827
    ensures Span(SquadsSchema(CreateProposalAccount).value) == ProposalSize(Some(0), Some(0)) == 835
    ensures Span(SquadsSchema(CastVote).value) == 2
    ensures Span(SquadsSchema(ExecuteProposal).value) == 11
    ensures Span(SquadsSchema(AddMembersToSquad).value) + 8 * n == AddMembersSize(n)
  {
    CreateSquadOffsets();
    ProposalSpan();
    SmallSpans();
  }

  lemma ProposalSpan()
    ensures Span(PROPOSAL_HEAD_LAYOUT) == 819 && Span(PROPOSAL_LAYOUT) == 835
  {
    ProposalHeadOffsets();
    SpanAppend(PROPOSAL_HEAD_LAYOUT, [U64, U64]);
    assert [U64, U64][1..] == [U64] && [U64][1..] == [];
  }

  lemma SmallSpans()
    ensures Span(CAST_VOTE_LAYOUT) == 2 && Span(EXECUTE_PROPOSAL_LAYOUT) == 11 && Span(ADD_MEMBERS_LAYOUT) == 10
  {
    var cast := CAST_VOTE_LAYOUT;
    assert cast[1..] == [U8] && cast[1..][1..] == [];
    var exec := EXECUTE_PROPOSAL_LAYOUT;
    assert exec[1..] == [FixedUtf8(10)] && exec[1..][1..] == [];
    var add := ADD_MEMBERS_LAYOUT;
    assert add[1..] == [U8, U64, U64Table(9)] && add[1..][1..] == [U64, U64Table(9)];
    assert add[1..][1..][1..] == [U64Table(9)] && add[1..][1..][1..][1..] == [];
  }
}
