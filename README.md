# Squads instruction codec and slide expense guards, in Dafny

This project models the client-side instruction codec of the Squads SDK copy in
`tests/squads_sdk/`, with the older copy in `tests/squads_sdk.ts`. It also models
the seed helpers of `tests/utils.ts` and the three guarded handlers of the
`slide` program in `programs/slide/src/lib.rs`.

The codec is modelled in layers:

- **Bytes, Utf8.** Buffers are sequences of bytes. A JavaScript string is a
  sequence of UTF-16 code units. `Buffer.from(s, "utf8")` is UTF-8 (RFC 3629)
  over those units: a lone surrogate becomes the bytes of U+FFFD.
- **Layout.** These are the fixed-span field layouts `FixedLengthUTF8`, `U64`
  and `I64`, plus the library's `u8`. Each `encode` is a function
  (`Layout.Write*`) that gives the new buffer and the returned count, or the
  error thrown. Each also has an in-place method over an `array<byte>`
  (`Layout.Encode*`) proved to agree with that function. Decoding is pure.
- **Structure.** `Layout.struct` and `Layout.seq`, as the schemas use them. A
  struct encodes its members in order. An undefined member is skipped, but its
  span still counts. A `seq` places each element where the previous element's
  returned byte count ended. A count-prefixed `seq` writes its count afterwards,
  at an offset before its first element. `Structure.EncodeFields` is the
  in-place loop, proved against `Structure.WriteFields`.
- **Schema.** The `SquadsInstruction` discriminants, `ensureLength`, the `*Args`
  constructors and the `SquadsSchema` table. For each instruction, lemmas state
  when the encode throws and what the payload holds, byte by byte.
- **Address, Utils.** The seed lists handed to the ledger's address search. The
  search itself is a function the caller supplies.
- **Builders.** `withCreateSquad`, `withAddMembersToSquad`,
  `withCreateProposalAccount`, `withCastVote` and `withExecuteProposal`.
  - Each is a method over the caller's `InstructionList`, proved against a
    `*Plan` function.
  - The plan states when the builder throws, the payload, the ordered account
    list with its signer and writable flags, and the addresses it asks for.
  - On success exactly one instruction is appended and nothing else changes. A
    throw leaves the list as it was.
- **Slide.** The accounts `ExpenseManager` and `ExpensePackage` are classes
  whose handler methods assign fields in the handlers' order. Each method is
  proved against a step function. Lemmas about those functions state what the
  guards promise over several calls.

## Model

| member | source | states |
|---|---|---|
| Utf8.RoundTrip | tests/squads_sdk/instruction.ts:20-24 | decoding the UTF-8 bytes of a text without lone surrogates gives the text back |
| Utf8.DecodeEncode | tests/squads_sdk/instruction.ts:27 | decoding the UTF-8 bytes of any text gives it back with lone surrogates replaced by U+FFFD |
| Utf8.EncodeInjective | tests/squads_sdk/address.ts:9 | texts without lone surrogates have equal UTF-8 bytes only when they are equal |
| Utf8.EncodeLength | tests/squads_sdk/instruction.ts:27-31 | a text has at least as many UTF-8 bytes as code units, exactly as many iff it is ASCII |
| Utf8.EncodeAscii | tests/squads_sdk/instruction.ts:27 | an ASCII text's UTF-8 bytes are its code units, one byte each |
| Utf8.Encode | tests/squads_sdk/instruction.ts:27 | `Buffer.from(s, "utf8")` gives no bytes exactly for the empty text; Utf8.DecodeEncode, Utf8.EncodeDecode and Utf8.EncodeLength state the rest |
| Utf8.EncodeDecode | tests/squads_sdk/instruction.ts:20-24 | bytes that decode are the UTF-8 encoding of the text they decode to, a text without lone surrogates |
| Bytes.FromLEOfLE | tests/squads_sdk/instruction.ts:52-55 | reading back the k little-endian bytes of a value below 256^k gives the value |
| Bytes.LEOfFromLE | tests/squads_sdk/instruction.ts:52-55 | writing back the value read from little-endian bytes gives the same bytes |
| Bytes.LEInjective | tests/squads_sdk/instruction.ts:68 | two values below 256^k with the same k-byte encoding are equal |
| Layout.WriteFixedUtf8 | tests/squads_sdk/instruction.ts:26-42 | refuses a text longer than the width first, then a field ending past the buffer even for a short text; otherwise returns the text's byte count, not the width |
| Layout.DecodeFixedUtf8 | tests/squads_sdk/instruction.ts:20-24 | a successful decode is a text without lone surrogates whose UTF-8 bytes are exactly the field's bytes |
| Layout.WriteFixedUtf8Writes | tests/squads_sdk/instruction.ts:40-41 | a successful encode writes only the text's bytes at the offset and leaves every other byte unchanged |
| Layout.EncodeFixedUtf8 | tests/squads_sdk.ts:37-49 | the in-place encode returns and leaves in the buffer what WriteFixedUtf8 specifies, or throws its error with the buffer unchanged |
| Layout.CopyInto | tests/squads_sdk/instruction.ts:40 | the buffer after the copy is the old buffer with the source bytes spliced in at the offset |
| Layout.FixedUtf8RoundTrip | tests/squads_sdk/instruction.ts:10-13 | a text whose UTF-8 bytes fill the field exactly decodes back to itself, lone surrogates aside |
| Layout.FixedUtf8ShortText | tests/squads_sdk/instruction.ts:20-24 | a shorter text leaves the rest of the field as it was, and decode reads that rest too |
| Layout.FixedUtf8Window | tests/squads_sdk/instruction.ts:40 | after an encode the field holds the text's bytes followed by the old bytes |
| Layout.WriteU8 | tests/squads_sdk/instruction.ts:218 | a u8 refuses a value outside 0..255, then a position outside the buffer, and otherwise writes one byte |
| Layout.WriteU64 | tests/squads_sdk/instruction.ts:57-71 | refuses a negative value, then an overrun, then a value of 2^64 or more; otherwise writes 8 bytes and returns 8 |
| Layout.WriteU64Writes | tests/squads_sdk/instruction.ts:68-70 | a successful U64 encode writes the 8 little-endian bytes at the offset and nothing else |
| Layout.U64RoundTrip | tests/squads_sdk/instruction.ts:52-71 | decode after encode gives back every value in 0..2^64-1 |
| Layout.WriteI64 | tests/squads_sdk/instruction.ts:86-95 | refuses an overrun first, then every value whose `toTwos(64)` does not fit 8 bytes; every value strictly between -2^64 and 2^64 is accepted |
| Layout.ToTwos64 | tests/squads_sdk/instruction.ts:92 | BN's `toTwos(64)` fits 8 bytes exactly for values below 2^64 that are non-negative, or negative, above -2^78 and not a multiple of 2^64; it is then the value modulo 2^64 |
| Layout.I64BelowMinusTwo64 | tests/squads_sdk/instruction.ts:92-93 | -(2^64 + 1) is written as eight 0xFF bytes, while -2^64 and -2^78 are refused |
| Layout.WriteI64Writes | tests/squads_sdk/instruction.ts:92-93 | a successful I64 encode writes the 8 bytes of the value modulo 2^64 and nothing else |
| Layout.I64RoundTrip | tests/squads_sdk/instruction.ts:81-95 | decode after encode gives back every value in -2^63..2^63-1 |
| Layout.I64Wraps | tests/squads_sdk/instruction.ts:86-95 | a value in 2^63..2^64-1 is accepted and reads back 2^64 lower |
| Layout.DecodeU64 | tests/squads_sdk/instruction.ts:52-55 | U64.decode reads a value below 2^64 |
| Layout.DecodeI64 | tests/squads_sdk/instruction.ts:81-84 | I64.decode reads a value in -2^63..2^63-1 |
| Layout.EncodeU64 | tests/squads_sdk/instruction.ts:57-71 | the in-place U64 encode agrees with WriteU64 |
| Layout.EncodeI64 | tests/squads_sdk/instruction.ts:86-95 | the in-place I64 encode agrees with WriteI64 |
| Layout.EncodeU8 | tests/squads_sdk/instruction.ts:218 | the in-place u8 encode agrees with WriteU8 |
| Structure.GetSpan | tests/squads_sdk.ts:27-29 | a fixed-span field answers its declared width whatever the buffer and offset; a count-prefixed table reads its count back |
| Structure.WriteFieldsOntoZeros | tests/squads_sdk/instruction.ts:214-260 | a struct whose values all encode, written into zeros, leaves its members' images back to back and throws nothing |
| Structure.WriteFieldsChecks | tests/squads_sdk/instruction.ts:214-260 | a struct encode that throws nothing had a value of the right kind, passing its field's checks, in every present member |
| Structure.FixedSlot | tests/squads_sdk/instruction.ts:214-260 | in a fixed-span struct, member k's image starts where the declared spans before it end |
| Structure.ByteSlot | tests/squads_sdk/instruction.ts:218-222 | a u8 member's byte sits at its offset |
| Structure.WriteFields | tests/squads_sdk/instruction.ts:214-260 | the struct encode keeps the buffer's length; Structure.WriteFieldsOntoZeros and Structure.WriteFieldsChecks state what it writes and when it throws |
| Structure.WriteFirst | tests/squads_sdk/instruction.ts:214-260 | encoding from the first member on keeps the buffer's length; an absent member is skipped by its declared span |
| Structure.WriteField | tests/squads_sdk/instruction.ts:214-260 | one member's encode keeps the buffer's length; Structure.WriteFieldChecks states the checks a successful one passed |
| Structure.WriteTexts | tests/squads_sdk/instruction.ts:252 | the `Layout.seq` encode of fixed-width texts keeps the buffer's length; Structure.WriteTextsChecks states that a successful one had every text fit |
| Structure.WriteU64s | tests/squads_sdk/instruction.ts:235-239 | the `Layout.seq` encode of u64 amounts keeps the buffer's length; Structure.WriteU64sChecks states that a successful one had every amount in 0..2^64-1 |
| Structure.TextSlot | tests/squads_sdk/instruction.ts:223-226 | a text that fills its width sits at its offset |
| Structure.EncodeAllAt | tests/squads_sdk/instruction.ts:252 | in texts of equal byte width laid back to back, text i starts width * i bytes in |
| Structure.LEsAt | tests/squads_sdk/instruction.ts:235-239 | element i of a u64 table sits 8 * i bytes into the table |
| Structure.SpanAppend | tests/squads_sdk/instruction.ts:214-260 | the span of two field lists laid end to end is the sum of their spans |
| Structure.EncodeTexts | tests/squads_sdk/instruction.ts:252 | the in-place seq of texts agrees with WriteTexts, each element where the previous one's returned count ended |
| Structure.EncodeU64s | tests/squads_sdk/instruction.ts:235-239 | the in-place seq of u64s agrees with WriteU64s |
| Structure.EncodeField | tests/squads_sdk/instruction.ts:214-260 | one in-place field encode agrees with WriteField, including the count written back before a table |
| Structure.EncodeFields | tests/squads_sdk/instruction.ts:214-260 | the in-place struct encode agrees with WriteFields: undefined members skipped but their spans counted, the first throw ends it |
| Schema.Discriminant | tests/squads_sdk/instruction.ts:100-109 | each instruction's discriminant is its position in the enum, below 8 |
| Schema.EnsureLength | tests/squads_sdk/instruction.ts:112-117 | the result has exactly `length` code units: the input's own while it lasts, then spaces |
| Schema.EnsureLengthKeeps | tests/squads_sdk.ts:66-71 | a longer input is cut to its prefix, a shorter one is a prefix of the result, and one of the right length is unchanged |
| Schema.EnsureLengthIdempotent | tests/squads_sdk/instruction.ts:112-117 | normalising twice is the same as normalising once |
| Schema.EnsureLengthFits | tests/squads_sdk/instruction.ts:111-117 | a normalised string fits its field iff it is ASCII, and an ASCII one fills the field exactly |
| Schema.NewCreateSquadArgs | tests/squads_sdk/instruction.ts:119-144 | instruction 0, allocation type 1, threshold 0, the vote settings as given, and each string is `ensureLength` of its input at 24, 36, 6 and 10 units |
| Schema.CreateSquadOffsets | tests/squads_sdk.ts:156-166 | the CreateSquad layout spans 81 bytes, with the texts at offsets 5, 29, 65 and 71 |
| Schema.CreateSquadEncodes | tests/squads_sdk/instruction.ts:214-228 | the CreateSquad encode into 81 zero bytes throws nothing iff every number fits its byte and every normalised string is ASCII |
| Schema.CreateSquadEncodesFitting | tests/squads_sdk.ts:271-272 | encodable args fill the 81-byte buffer exactly with their images |
| Schema.CastVotePayload | tests/squads_sdk/instruction.ts:198-204 | the CastVote payload is the byte 3 then the vote byte; a vote outside 0..255 is refused after the 3 is written |
| Schema.ExecuteProposalPayload | tests/squads_sdk/instruction.ts:206-212 | the ExecuteProposal payload is the byte 5 then the ten bytes of the normalised id; a non-ASCII id is refused |
| Schema.NewCastVoteArgs | tests/squads_sdk/instruction.ts:198-204 | instruction 3, and the vote as given |
| Schema.NewExecuteProposalArgs | tests/squads_sdk/instruction.ts:206-212 | instruction 5, and the id is `ensureLength` of the input at 10 units |
| Schema.NewAddMembersToSquadArgs | tests/squads_sdk/instruction.ts:146-154 | instruction 7, and the member count is the table's length |
| Schema.AddMembersFitting | tests/squads_sdk/instruction.ts:229-241 | a fitting table gives 7, the count, eight zero bytes, then each amount's eight bytes in input order |
| Schema.AddMembersTooMany | tests/squads_sdk/instruction.ts:233 | with more than 255 members the count byte is refused after the discriminant is written |
| Schema.AddMembersEncodes | tests/squads_sdk/instruction.ts:229-241 | the AddMembersToSquad encode throws nothing iff the count fits a byte and every amount is an unsigned 64-bit value |
| Schema.AddMembersAmounts | tests/squads_sdk/instruction.ts:235-239 | amount i reads back from the eight bytes 10 + 8i in |
| Schema.MillisToSeconds | tests/squads_sdk/instruction.ts:191-192 | milliseconds to seconds with the quotient truncated toward zero, as BN's div does |
| Schema.MillisToSecondsExact | tests/squads_sdk/instruction.ts:190-192 | whole seconds convert back exactly |
| Schema.NewCreateProposalAccountArgs | tests/squads_sdk/instruction.ts:168-195 | more than five labels throw; otherwise texts are normalised to 36, 496, 48 and 44 units, both timestamps are divided by 1000, and the amounts are kept |
| Schema.ProposalHeadOffsets | tests/squads_sdk/instruction.ts:243-254 | the fixed part spans 1+1+36+496+48+1+5*44+8+8 = 819 bytes, with the field offsets given |
| Schema.ProposalHeader | tests/squads_sdk/instruction.ts:246-251 | the bytes 2, the proposal type and the vote count sit at offsets 0, 1 and 582 |
| Schema.ProposalTexts | tests/squads_sdk/instruction.ts:248-250 | title, description and link fill their slots at 2, 38 and 534 with their UTF-8 bytes |
| Schema.ProposalLabelAt | tests/squads_sdk/instruction.ts:252 | label i occupies the 44 bytes from 583 + 44i |
| Schema.ProposalLabels | tests/squads_sdk/instruction.ts:252 | the labels sit back to back from byte 583, and the unused label slots stay zero |
| Schema.ProposalTimestamps | tests/squads_sdk/instruction.ts:253-254 | both timestamps read back as signed 64-bit values from bytes 803 and 811 |
| Schema.ProposalEncodes | tests/squads_sdk/instruction.ts:243-260 | the encode into dataSize zero bytes throws nothing iff the head values pass their checks and the optional amounts encode |
| Schema.ProposalPayload | tests/squads_sdk/instruction.ts:255-256 | an encodable payload is the 819 head bytes, then the amount at 819 and the minimum out at 827 |
| Schema.ProposalMinimumOutAlone | tests/squads_sdk/withCreateProposalAccount.ts:57-63 | a minimum out without an amount is always refused: NegativeValue for a negative value, else Overrun at byte 827 |
| Schema.TailWrites | tests/squads_sdk/instruction.ts:255-256 | after the head, each optional amount lands in its place or the first U64 error is thrown |
| Schema.SquadsSchema | tests/squads_sdk/instruction.ts:214-270 | the three multisig instructions have no layout, and every other layout starts with the u8 discriminant |
| Schema.SchemaSpans | tests/squads_sdk/instruction.ts:214-270 | the spans add up to the builders' buffers: 81, 819/827/835, 2, 11 and 10 + 8N |
| Address.SquadDerivation | tests/squads_sdk/address.ts:4-12 | three seeds (admin key, UTF-8 id, "!squad") under the Squads program |
| Address.MintOwnerDerivation | tests/squads_sdk/address.ts:14-19 | two seeds (squad key, "!squadmint") under the Squads program |
| Address.SquadDerivationInjective | tests/squads_sdk.ts:235-243 | equal squad requests come only from the same admin and the same well-formed id |
| Address.Int32LE | tests/squads_sdk/address.ts:25-26 | the nonce buffer is 4 bytes for a signed 32-bit nonce; any other nonce throws OutOfRange |
| Address.Int32RoundTrip | tests/squads_sdk/address.ts:25-26 | readInt32LE of the four nonce bytes gives the nonce back |
| Address.ProposalDerivation | tests/squads_sdk/address.ts:21-31 | three seeds (squad key, nonce buffer, "!proposal") under the Squads program, or the nonce's error |
| Address.ProposalDerivationInjective | tests/squads_sdk/address.ts:25-28 | distinct nonces give distinct proposal requests |
| Address.DerivationsDistinct | tests/squads_sdk/address.ts:4-31 | squad, mint-owner and proposal requests never coincide |
| Address.NonceBuffer | tests/squads_sdk/address.ts:25-26 | the byte loop fills a fresh 4-byte buffer with exactly the little-endian two's complement of the nonce |
| Address.ProposalAccountAddress | tests/squads_sdk/address.ts:21-31 | the proposal address is the search over the proposal seeds, or OutOfRange |
| Utils.DecimalRoundTrip | tests/utils.ts:7-9 | parsing an integer's decimal string gives the integer |
| Utils.ToBN | tests/utils.ts:7-9 | toBN(num) equals num |
| Utils.UserDataDerivation | tests/utils.ts:61-69 | two seeds, the second being the user's key, under the caller's program id |
| Utils.ExpenseManagerDerivation | tests/utils.ts:71-79 | two seeds, the second being the name's UTF-8 bytes, under the caller's program id |
| Utils.ProgramUserDataSeeds | programs/slide/src/instructions/main.rs:7 | the program checks two seeds, the second being the user's key |
| Utils.ProgramExpenseManagerSeeds | programs/slide/src/instructions/main.rs:16 | the program checks two seeds, the second being the name's bytes |
| Utils.ProgramExpensePackageSeeds | programs/slide/src/instructions/main.rs:25 | the program checks four seeds: the manager's key, the owner's key and the one-byte nonce after the tag |
| Utils.CompiledExpensePackageSeeds | programs/slide/src/instructions.rs:18 | the compiled accounts check three seeds: the manager's key and the owner's key after the tag, with no nonce |
| Utils.SeedsAgree | tests/utils.ts:61-96 | the user-data, manager and package seed lists equal those checked at programs/slide/src/instructions/main.rs lines 7, 16 and 25, a later version of the accounts than lib.rs compiles |
| Utils.PackageSeedsMissCompiledHandler | programs/slide/src/instructions.rs:18 | the client's four package seeds never equal the three, without a nonce, that the accounts lib.rs compiles against check |
| Utils.PackageNonceWraps | tests/utils.ts:92 | a nonce outside 0..255 is asked for as its remainder modulo 256 |
| Utils.PackageNonceDistinct | tests/utils.ts:88-93 | distinct nonces in 0..255 give seed lists equal except in the last, one-byte seed |
| Utils.ExpensePackageDerivation | tests/utils.ts:81-96 | four seeds under the caller's program id |
| Builders.CreateSquadPlan | tests/squads_sdk/withCreateSquad.ts:23-90 | throws iff the args are not encodable; otherwise an 81-byte payload, the squad from payer and id, the mint owner from the squad, the 6 accounts, and squad and mint owner at positions 1 and 2 |
| Builders.CreateSquadKeys | tests/squads_sdk/withCreateSquad.ts:48-79 | payer, squad, mint owner, token, system, rent; only the payer signs; the first three are writable |
| Builders.CreateSquadPayload | tests/squads_sdk/withCreateSquad.ts:34-43 | payload bytes 0, 1, support, quorum, 0, then the four normalised strings at 5, 29, 65 and 71 |
| Builders.CreateSquadSameId | tests/squads_sdk/withCreateSquad.ts:33-45 | a ten-unit id is the same bytes in the payload as in the squad's seeds |
| Builders.WithCreateSquad | tests/squads_sdk/withCreateSquad.ts:23-90 | appends exactly the planned instruction and returns squad and mint owner, or throws with the list unchanged |
| Builders.MemberKeys | tests/squads_sdk/withAddMembersToSquad.ts:66-78 | per allocation in input order, the member read-only then its equity record writable; no signers |
| Builders.AddMembersKeys | tests/squads_sdk/withAddMembersToSquad.ts:34-78 | 6 + 2N accounts, the initializer the only signer, member i read-only at 6 + 2i |
| Builders.AddMembersPlan | tests/squads_sdk/withAddMembersToSquad.ts:17-87 | throws iff 256 or more allocations or an amount outside u64; otherwise a 10 + 8N payload and the fixed then per-member accounts |
| Builders.AddMembersPayload | tests/squads_sdk/withAddMembersToSquad.ts:24-30 | payload byte 0 is 7, byte 1 is N, and amount i reads back from 10 + 8i in input order |
| Builders.WithAddMembersToSquad | tests/squads_sdk/withAddMembersToSquad.ts:17-87 | the loop builds exactly the planned account list; exactly one instruction appended, or the list unchanged |
| Builders.ProposalArgs | tests/squads_sdk/withCreateProposalAccount.ts:16-55 | link defaults to 48 spaces, start to now - 86,400,000 ms, close to now + 1,800,000 ms, both in seconds; more than 5 labels throw |
| Builders.CreateProposalPlan | tests/squads_sdk/withCreateProposalAccount.ts:21-114 | throws iff too many labels, a head or amount check fails, or the nonce is not an i32; otherwise a dataSize payload, the proposal from squad and nonce, and 6 accounts |
| Builders.CreateProposalPayload | tests/squads_sdk/withCreateProposalAccount.ts:57-65 | the payload is the 819 head bytes, the amount at 819 and the minimum out at 827 |
| Builders.ProposalKeys | tests/squads_sdk/withCreateProposalAccount.ts:72-103 | payer, squad, proposal, system, rent, Squads program; only the payer signs; the first three are writable |
| Builders.EncodeProposal | tests/squads_sdk/withCreateProposalAccount.ts:57-65 | allocates dataSize bytes (819, +8 with an amount, +8 more with both) and encodes the args as WriteFields specifies |
| Builders.WithCreateProposalAccount | tests/squads_sdk/withCreateProposalAccount.ts:21-114 | appends exactly the planned instruction and returns the proposal, or throws with the list unchanged |
| Builders.CastVoteKeys | tests/squads_sdk/withCastVote.ts:36-46 | 9 accounts in order; only the payer signs; payer, squad, proposal and vote account are writable |
| Builders.CastVotePlan | tests/squads_sdk/withCastVote.ts:15-57 | throws OutOfRange iff the vote is not a byte; otherwise payload [3, vote] and the vote account of the payer on the proposal, also at position 5 |
| Builders.WithCastVote | tests/squads_sdk/withCastVote.ts:15-57 | appends exactly the planned instruction and returns the vote account, or throws with the list unchanged |
| Builders.ExecuteProposalKeys | tests/squads_sdk/withExecuteProposal.ts:38-49 | 10 accounts with the payer at 0 and 5; payer twice and proposal sign |
| Builders.ExecuteProposalPlan | tests/squads_sdk/withExecuteProposal.ts:21-58 | throws TextTooLong iff the normalised id is not ASCII; otherwise the 11-byte payload 5 + id, with the squad's treasury and mint |
| Builders.WithExecuteProposal | tests/squads_sdk/withExecuteProposal.ts:21-58 | appends exactly the planned instruction and returns nothing, or throws with the list unchanged |
| Slide.CreateExpenseManagerStep | programs/slide/src/lib.rs:20-35 | succeeds iff the name is empty and the authority is the default key; then sets name and authority, otherwise ManagerAlreadyExists and no change |
| Slide.CreateExpensePackageStep | programs/slide/src/lib.rs:36-62 | PackageAlreadyExists on a non-empty package; otherwise name, description and owner are written, then ManagerUninitialized on an empty manager, else the manager key is recorded |
| Slide.AddTransactionHashStep | programs/slide/src/lib.rs:64-79 | succeeds iff the package is CREATED, appending exactly one hash; otherwise PackageFrozen and no change |
| Slide.ManagerCreatedOnce | programs/slide/src/lib.rs:26-33 | after a creation that set a name or key, every later creation is refused and changes nothing |
| Slide.AddTransactionHashesAppend | programs/slide/src/lib.rs:70-77 | successive calls on a CREATED package append their hashes in order; any other state refuses the first |
| Slide.HandlersKeepState | programs/slide/src/lib.rs:36-79 | no handler changes a package's state, so a package out of CREATED stays frozen |
| Slide.ExpenseManagerAccount.CreateExpenseManager | programs/slide/src/lib.rs:20-35 | the account's fields and the returned error are those of CreateExpenseManagerStep; key and data flag unchanged |
| Slide.ExpensePackageAccount.CreateExpensePackage | programs/slide/src/lib.rs:36-62 | the account's fields and the returned error are those of CreateExpensePackageStep |
| Slide.ExpensePackageAccount.AddTransactionHash | programs/slide/src/lib.rs:64-79 | the account's fields and the returned error are those of AddTransactionHashStep |

## Left out

- The address search (`findProgramAddress` / `findProgramAddressSync`) is a caller-supplied function (`Address.AddressSearch`). Its SHA-256 hashing and off-curve bump search are not modelled.
- Builders.CreateSquadPlan: the address search throws for a seed longer than 32 bytes. The squad seed is the raw random id, so a caller-supplied id of more than 32 UTF-8 bytes throws in the source, while the plan returns Ok. `getRandomId` never produces such an id.
- Utils.SeedsAgree: programs/slide/src/lib.rs compiles against programs/slide/src/instructions.rs, whose package seeds take no nonce. The agreement is with the later account definitions in programs/slide/src/instructions/main.rs; Utils.PackageSeedsMissCompiledHandler states the mismatch with the compiled ones.
- `getMemberEquityAddressAndBump`, `getSquadMintAddressAndBump`, `getVoteAccountAddressAndBump` and `getSquadTreasuryAddressAndBump` are not part of this model. Their seed lists are not visible, so they are functions in `Builders.Oracles`.
- `withAddMembersToSquad` calls the member-equity helper without `await`, and imports it from a utils file that does not define it. `withCastVote` and `withExecuteProposal` import the member-equity, squad-mint, vote-account and treasury helpers from `./address`, but tests/squads_sdk/address.ts defines none of them either. The model treats each result as a key.
- `SQUADS_PROGRAM_ID` is imported from a utils file that does not define it. It and the token, system, rent and associated-token keys are fields of `Builders.ProgramIds`, so their byte values are not reproduced.
- `getRandomId` uses `Math.random` and base-36 float formatting, so the random id is a parameter. Builders.CreateSquadSameId is stated for ten-unit ids, which is what it produces except when `Math.random()` returns 0: `"0" + "0000000000"` sliced from 2 to 12 has nine units.
- `Date.now()` is read twice in `withCreateProposalAccount`. The model uses a single `now` parameter for both reads.
- Builders.WithCreateSquad: the older copy in tests/squads_sdk.ts:252-319 returns only `{ squad }`. The model follows tests/squads_sdk/withCreateSquad.ts, which also returns the mint owner.
- JavaScript numbers are modelled as integers. Fractional values, NaN and values beyond 2^53 are not modelled.
- Layout.DecodeFixedUtf8: malformed UTF-8 decodes to None. Node instead substitutes U+FFFD.
- Structure.WriteField: a property of the wrong JavaScript type is modelled as a WrongType error. The library's exact behaviour for it is not modelled.
- Structure.GetSpan: a count byte outside the buffer is read as a span of 0.
- Structure.DeclaredSpan: the library declares a span of -1 for a count-prefixed table, so an undefined table would move the offset back one byte. The model uses 0, since `AddMembersToSquadArgs` always sets its table.
- The byte count a struct `encode` returns is not modelled. No builder uses it.
- The runtime discards a failed transaction's writes. This is not modelled, so `Slide.ExpensePackageAccount.CreateExpensePackage` keeps the writes it made before its ManagerUninitialized check.
- The Anchor account constraints, `init` allocation and account (de)serialisation are not modelled. The `data_is_empty` flags are plain fields of the account classes.
- RPC submission, airdrops and balance polling (`getBalanceSum`, `getBalance`, `transfer`, `getAccountInfo`) and the test harness files are not part of this model. The same goes for the riptide-q1 program, an unguarded earlier copy of the handlers.
