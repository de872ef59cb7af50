/**
 * The helpers of tests/utils.ts the client uses to build instructions:
 * `toBN` and the seed lists of the slide program's own accounts, next to
 * the seeds the program itself checks for those accounts
 * (programs/slide/src/instructions/main.rs).
 */
module Utils {
  import opened Wrappers
  import opened Bytes
  import Utf8
  import Address

  /* ---- toBN ---- */

  function DigitChar(d: nat): (c: char)
    requires d < 10
    ensures '0' <= c <= '9' && (c as int) - ('0' as int) == d
  {
    ('0' as int + d) as char
  }

  /** The decimal digits of `n`, most significant first, with no leading zero. */
  function Digits(n: nat): (s: string)
    ensures |s| > 0 && (n > 0 ==> s[0] != '0')
    ensures forall i :: 0 <= i < |s| ==> '0' <= s[i] <= '9'
    decreases n
  {
    if n < 10 then [DigitChar(n)] else Digits(n / 10) + [DigitChar(n % 10)]
  }

  /** `${num}` for an integer: an optional minus sign, then the digits. */
  function DecimalString(n: int): (s: string)
    ensures |s| > 0 && (s[0] == '-' <==> n < 0)
  {
    if n < 0 then "-" + Digits(-n) else Digits(n)
  }

  /** The value of a string of decimal digits, or nothing if it holds anything else or is empty. */
  function ParseDigits(s: string): (r: Option<nat>)
    ensures r.Some? <==> |s| > 0 && forall i :: 0 <= i < |s| ==> '0' <= s[i] <= '9'
    decreases |s|
  {
    if |s| == 0 || !('0' <= s[|s| - 1] <= '9') then None
    else if |s| == 1 then Some((s[0] as int) - ('0' as int))
    else match ParseDigits(s[..|s| - 1])
      case None => None
      case Some(high) => Some(10 * high + ((s[|s| - 1] as int) - ('0' as int)))
  }

  /** `new BN(s, 10)` on a decimal string: an optional minus sign, then digits. */
  function ParseDecimal(s: string): (r: Option<int>)
  {
    var negative := |s| > 0 && s[0] == '-';
    var digits := if negative then ParseDigits(s[1..]) else ParseDigits(s);
    if digits.None? then None
    else if negative then Some(-(digits.value as int))
    else Some(digits.value as int)
  }

  /** Reading the digits back gives the number. */
  lemma {:induction false} DigitsRoundTrip(n: nat)
    ensures ParseDigits(Digits(n)) == Some(n)
    decreases n
  {
    if n >= 10 {
      var s := Digits(n);
      DigitsRoundTrip(n / 10);
      assert s[..|s| - 1] == Digits(n / 10);
    }
  }

  /** Reading the decimal string back gives the number. */
  lemma DecimalRoundTrip(n: int)
    ensures ParseDecimal(DecimalString(n)) == Some(n)
  {
    if n < 0 {
      DigitsRoundTrip(-n);
      assert DecimalString(n)[1..] == Digits(-n);
    } else {
      DigitsRoundTrip(n);
    }
  }

  /** `toBN(num)`: the number through its decimal string, which is the number itself. */
  function ToBN(num: int): (r: int)
    ensures r == num
  {
    DecimalRoundTrip(num);
    ParseDecimal(DecimalString(num)).value
  }

  /* ---- Seeds of the slide program's accounts ---- */

  const USER_DATA_TAG: seq<byte> := Ascii("user_data")
  const EXPENSE_MANAGER_TAG: seq<byte> := Ascii("expense_manager")
  const EXPENSE_PACKAGE_TAG: seq<byte> := Ascii("expense_package")

  /** `getUserDataAddressAndBump(user, programId)`. */
  function UserDataDerivation(user: Pubkey, programId: Pubkey): (d: Address.Derivation)
    ensures |d.seeds| == 2 && d.seeds[1] == user && d.programId == programId
  {
    Address.Derivation([USER_DATA_TAG, user], programId)
  }

  /** `getExpenseManagerAddressAndBump(name, programId)`: the manager's name as UTF-8. */
  function ExpenseManagerDerivation(name: JsString, programId: Pubkey): (d: Address.Derivation)
    ensures |d.seeds| == 2 && d.seeds[1] == Utf8.Encode(name) && d.programId == programId
  {
    Address.Derivation([EXPENSE_MANAGER_TAG, Utf8.Encode(name)], programId)
  }

  /**
   * `getExpensePackageAddressAndBump(manager, owner, nonce, programId)`:
   * `Buffer.from([nonce])` keeps the nonce modulo 256.
   */
  function ExpensePackageDerivation(manager: Pubkey, owner: Pubkey, nonce: int, programId: Pubkey): (d: Address.Derivation)
    ensures |d.seeds| == 4 && d.programId == programId
  {
    Address.Derivation([EXPENSE_PACKAGE_TAG, manager, owner, [nonce % 256]], programId)
  }

  /** `seeds = [b"user_data", user.key().as_ref()]`. */
  function ProgramUserDataSeeds(user: Pubkey): (seeds: seq<seq<byte>>)
    ensures |seeds| == 2 && seeds[1] == user
  {
    [Ascii("user_data"), user]
  }

  /** `seeds = [b"expense_manager", name.as_bytes()]`, for a name as the program receives it. */
  function ProgramExpenseManagerSeeds(nameBytes: seq<byte>): (seeds: seq<seq<byte>>)
    ensures |seeds| == 2 && seeds[1] == nameBytes
  {
    [Ascii("expense_manager"), nameBytes]
  }

  /** `seeds = [b"expense_package", expense_manager.key().as_ref(), owner.key().as_ref(), &[nonce]]` with a `u8` nonce. */
  function ProgramExpensePackageSeeds(manager: Pubkey, owner: Pubkey, nonce: byte): (seeds: seq<seq<byte>>)
    ensures |seeds| == 4 && seeds[1] == manager && seeds[2] == owner && seeds[3] == [nonce]
  {
    [Ascii("expense_package"), manager, owner, [nonce]]
  }

  /**
   * The client asks for the addresses that the account definitions of
   * programs/slide/src/instructions/main.rs check: the same seeds, in the same
   * order, for the same user, for the name's UTF-8 bytes, and for the package
   * nonce received as a `u8`. Those definitions are a later version than the
   * ones programs/slide/src/lib.rs compiles against (see below).
   */
  lemma SeedsAgree(user: Pubkey, name: JsString, manager: Pubkey, owner: Pubkey, nonce: byte, programId: Pubkey)
    ensures UserDataDerivation(user, programId).seeds == ProgramUserDataSeeds(user)
    ensures ExpenseManagerDerivation(name, programId).seeds == ProgramExpenseManagerSeeds(Utf8.Encode(name))
    ensures ExpensePackageDerivation(manager, owner, nonce, programId).seeds == ProgramExpensePackageSeeds(manager, owner, nonce)
  {
    assert nonce % 256 == nonce;
  }

  /**
   * `seeds = [b"expense_package", expense_manager.key().as_ref(), owner.key().as_ref()]`:
   * the package seeds of programs/slide/src/instructions.rs, the module that
   * programs/slide/src/lib.rs compiles against, which take no nonce.
   */
  function CompiledExpensePackageSeeds(manager: Pubkey, owner: Pubkey): (seeds: seq<seq<byte>>)
    ensures |seeds| == 3 && seeds[1] == manager && seeds[2] == owner
  {
    [Ascii("expense_package"), manager, owner]
  }

  /** The client's four package seeds never match the three that the compiled handler checks. */
  lemma PackageSeedsMissCompiledHandler(manager: Pubkey, owner: Pubkey, nonce: int, programId: Pubkey)
    ensures ExpensePackageDerivation(manager, owner, nonce, programId).seeds != CompiledExpensePackageSeeds(manager, owner)
  {
  }

  /**
   * A nonce outside 0..255 is asked for as its remainder modulo 256, the
   * `u8` the program would have to receive.
   */
  lemma PackageNonceWraps(manager: Pubkey, owner: Pubkey, nonce: int, programId: Pubkey)
    ensures ExpensePackageDerivation(manager, owner, nonce, programId)
         == ExpensePackageDerivation(manager, owner, nonce % 256, programId)
    ensures ExpensePackageDerivation(manager, owner, nonce, programId).seeds
         == ProgramExpensePackageSeeds(manager, owner, nonce % 256)
  {
  }

  /** Distinct nonces in 0..255 give seed lists that agree everywhere but the last byte. */
  lemma PackageNonceDistinct(manager: Pubkey, owner: Pubkey, n: byte, m: byte, programId: Pubkey)
    requires n != m
    ensures var a := ExpensePackageDerivation(manager, owner, n, programId).seeds;
      var b := ExpensePackageDerivation(manager, owner, m, programId).seeds;
      a[..3] == b[..3] && a[3] != b[3] && |a[3]| == |b[3]| == 1
  {
    assert n % 256 == n && m % 256 == m;
  }
}
