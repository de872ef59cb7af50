/**
 * The seed lists of tests/squads_sdk/address.ts (and their older copies in
 * tests/squads_sdk.ts): what each helper asks the ledger's address search
 * for. The search itself (SHA-256 over the seeds and an off-curve test over
 * the bump seeds) is a deterministic function the caller supplies.
 */
module Address {
  import opened Wrappers
  import opened Bytes
  import opened Errors
  import Utf8

  /** What `findProgramAddress` is asked: the seeds, in order, and the program that owns the address. */
  datatype Derivation = Derivation(seeds: seq<seq<byte>>, programId: Pubkey)

  /** What it answers: the address and its bump seed. */
  datatype ProgramAddress = ProgramAddress(address: Pubkey, bump: byte)

  /**
   * `PublicKey.findProgramAddress`: deterministic. The search itself throws
   * for a seed longer than 32 bytes; that case is not modelled (a squad seed
   * made from a caller's random id of more than 32 UTF-8 bytes would reach it).
   */
  type AddressSearch = Derivation -> ProgramAddress

  const SQUAD_TAG: seq<byte> := Ascii("!squad")
  const SQUAD_MINT_TAG: seq<byte> := Ascii("!squadmint")
  const PROPOSAL_TAG: seq<byte> := Ascii("!proposal")

  const TWO_31: int := 0x8000_0000

  /* ---- Squad and mint owner ---- */

  /** `getSquadAddressAndBump(admin, randomId)`: the admin's key, the id's UTF-8 bytes, then "!squad". */
  function SquadDerivation(squadsProgram: Pubkey, admin: Pubkey, randomId: JsString): (d: Derivation)
    ensures |d.seeds| == 3 && d.programId == squadsProgram
  {
    Derivation([admin, Utf8.Encode(randomId), SQUAD_TAG], squadsProgram)
  }

  /** `getMintOwnerAddressAndBump(squad)`: the squad's key, then "!squadmint". */
  function MintOwnerDerivation(squadsProgram: Pubkey, squad: Pubkey): (d: Derivation)
    ensures |d.seeds| == 2 && d.programId == squadsProgram
  {
    Derivation([squad, SQUAD_MINT_TAG], squadsProgram)
  }

  /**
   * Two squad requests are the same only for the same admin and, among ids
   * without lone surrogates, the same random id.
   */
  lemma SquadDerivationInjective(p: Pubkey, a: Pubkey, s: JsString, b: Pubkey, t: JsString)
    requires Utf8.WellFormed(s) && Utf8.WellFormed(t)
    requires SquadDerivation(p, a, s) == SquadDerivation(p, b, t)
    ensures a == b && s == t
  {
    assert SquadDerivation(p, a, s).seeds[1] == Utf8.Encode(s);
    assert SquadDerivation(p, b, t).seeds[1] == Utf8.Encode(t);
    Utf8.EncodeInjective(s, t);
  }

  /* ---- Proposal ---- */

  predicate InInt32(n: int) { -TWO_31 <= n < TWO_31 }

  /**
   * `buf.writeInt32LE(nonce)` into a fresh 4-byte buffer: a nonce outside
   * the signed 32-bit range is refused, any other is written as its
   * two's-complement little-endian bytes.
   */
  function Int32LE(n: int): (r: Result<seq<byte>, Error>)
    ensures r.Ok? <==> InInt32(n)
    ensures r.Err? ==> r.error == OutOfRange
    ensures r.Ok? ==> |r.value| == 4
  {
    if InInt32(n) then Ok(LE(n % TWO_32, 4)) else Err(OutOfRange)
  }

  /** `buf.readInt32LE(0)`. */
  function ReadInt32LE(b: seq<byte>): (n: int)
    requires |b| == 4
    ensures InInt32(n)
  {
    Pow256Values();
    var u := FromLE(b);
    if u >= TWO_31 then u - TWO_32 else u
  }

  /** The nonce reads back from its four bytes. */
  lemma Int32RoundTrip(n: int)
    requires InInt32(n)
    ensures ReadInt32LE(Int32LE(n).value) == n
  {
    Pow256Values();
    FromLEOfLE(n % TWO_32, 4);
  }

  /** Distinct nonces give distinct nonce buffers. */
  lemma Int32Injective(n: int, m: int)
    requires InInt32(n) && InInt32(m) && n != m
    ensures Int32LE(n) != Int32LE(m)
  {
    Int32RoundTrip(n);
    Int32RoundTrip(m);
  }

  /** `getProposalAccountAddressAndBump(squad, nonce)`: the squad's key, the 4-byte nonce, then "!proposal". */
  function ProposalDerivation(squadsProgram: Pubkey, squad: Pubkey, nonce: int): (r: Result<Derivation, Error>)
    ensures r.Ok? <==> InInt32(nonce)
    ensures r.Ok? ==> |r.value.seeds| == 3 && r.value.programId == squadsProgram
  {
    match Int32LE(nonce)
    case Err(e) => Err(e)
    case Ok(buf) => Ok(Derivation([squad, buf, PROPOSAL_TAG], squadsProgram))
  }

  /** Proposals of one squad with distinct nonces are asked for under distinct seeds. */
  lemma ProposalDerivationInjective(p: Pubkey, squad: Pubkey, n: int, m: int)
    requires InInt32(n) && InInt32(m) && n != m
    ensures ProposalDerivation(p, squad, n).value != ProposalDerivation(p, squad, m).value
  {
    Int32Injective(n, m);
    assert ProposalDerivation(p, squad, n).value.seeds[1] == Int32LE(n).value;
    assert ProposalDerivation(p, squad, m).value.seeds[1] == Int32LE(m).value;
  }

  /** The three kinds of request never coincide: their seed counts or their closing tags differ. */
  lemma DerivationsDistinct(p: Pubkey, admin: Pubkey, randomId: JsString, squad: Pubkey, owner: Pubkey, nonce: int)
    requires InInt32(nonce)
    ensures SquadDerivation(p, admin, randomId) != MintOwnerDerivation(p, owner)
    ensures SquadDerivation(p, admin, randomId) != ProposalDerivation(p, squad, nonce).value
  {
    assert SQUAD_TAG != PROPOSAL_TAG by {
      assert |SQUAD_TAG| == 6 && |PROPOSAL_TAG| == 9;
    }
    assert SquadDerivation(p, admin, randomId).seeds[2] == SQUAD_TAG;
    assert ProposalDerivation(p, squad, nonce).value.seeds[2] == PROPOSAL_TAG;
  }

  /** `Buffer.alloc(4)` followed by `writeInt32LE(nonce)`, byte by byte. */
  method NonceBuffer(nonce: int) returns (r: Result<array<byte>, Error>)
    ensures r.Ok? <==> Int32LE(nonce).Ok?
    ensures r.Err? ==> r.error == Int32LE(nonce).error
    ensures r.Ok? ==> fresh(r.value) && r.value[..] == Int32LE(nonce).value
  {
    var b := new byte[4](_ => 0);
    if !InInt32(nonce) {
      return Err(OutOfRange);
    }
    var rest: nat := nonce % TWO_32;
    var i := 0;
    while i < 4
      invariant 0 <= i <= 4
      invariant b[..i] + LE(rest, 4 - i) == LE(nonce % TWO_32, 4)
    {
      assert LE(rest, 4 - i) == [rest % 256] + LE(rest / 256, 4 - i - 1);
      b[i] := rest % 256;
      assert b[..i + 1] == b[..i] + [rest % 256];
      rest := rest / 256;
      i := i + 1;
    }
    assert b[..] == b[..4];
    return Ok(b);
  }

  /** The proposal address: the nonce buffer, then the search over the proposal seeds. */
  method ProposalAccountAddress(find: AddressSearch, squadsProgram: Pubkey, squad: Pubkey, nonce: int)
    returns (r: Result<ProgramAddress, Error>)
    ensures r.Ok? <==> InInt32(nonce)
    ensures r.Ok? ==> r.value == find(ProposalDerivation(squadsProgram, squad, nonce).value)
    ensures r.Err? ==> r.error == OutOfRange
  {
    var buf := NonceBuffer(nonce);
    if buf.Err? {
      return Err(buf.error);
    }
    r := Ok(find(Derivation([squad, buf.value[..], PROPOSAL_TAG], squadsProgram)));
  }
}
