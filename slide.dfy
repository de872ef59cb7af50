/**
 * The three handlers of the slide program (programs/slide/src/lib.rs) over
 * the accounts of programs/slide/src/state.rs: each checks its guards and
 * assigns fields of the account it was given, in the order the handler does
 * (`create_expense_package` checks one guard, assigns three fields, checks
 * a second guard, then assigns the rest). A handler that returns an error
 * has still made the assignments before its failing check; the runtime
 * discards a failed transaction's writes, which this model leaves out.
 */
module Slide {
  import opened Wrappers
  import opened Bytes

  /** The errors these handlers raise (programs/slide/src/utils.rs). */
  datatype SlideError = PackageFrozen | ManagerAlreadyExists | PackageAlreadyExists | ManagerUninitialized

  /** `ExpensePackageState`; a new package is `CREATED`. */
  datatype ExpensePackageState = CREATED | PENDING | DENIED | ACCEPTED | PAID

  /** The fields of an `ExpenseManager` account. */
  datatype Manager = Manager(name: string, authority: Pubkey)

  /** The fields of an `ExpensePackage` account. */
  datatype Package = Package(
    name: string,
    description: string,
    transactionHashes: seq<string>,
    owner: Pubkey,
    expenseManager: Pubkey,
    state: ExpensePackageState)

  /** What a handler leaves in the account it writes, and the error it returns, if any. */
  datatype Handled<T> = Handled(after: T, error: Option<SlideError>)

  /* ---- The handlers as functions of the account fields ---- */

  /**
   * `create_expense_manager`: refused unless the manager is still empty (an
   * empty name and the default key); otherwise the name and the signer's key are set.
   */
  function CreateExpenseManagerStep(m: Manager, name: string, signer: Pubkey): (s: Handled<Manager>)
    ensures s.error.None? <==> m.name == "" && m.authority == DEFAULT_PUBKEY
    ensures s.error.Some? ==> s.error.value == ManagerAlreadyExists && s.after == m
    ensures s.error.None? ==> s.after.name == name && s.after.authority == signer
  {
    if m.name == "" && m.authority == DEFAULT_PUBKEY then Handled(Manager(name, signer), None)
    else Handled(m, Some(ManagerAlreadyExists))
  }

  /**
   * `create_expense_package`: refused if the package's account already holds
   * data; otherwise the name, description and owner are set, and only then
   * is a manager account without data refused; otherwise the manager's key is recorded.
   */
  function CreateExpensePackageStep(p: Package, packageDataEmpty: bool, managerDataEmpty: bool, managerKey: Pubkey,
    name: string, description: string, owner: Pubkey): (s: Handled<Package>)
    ensures !packageDataEmpty ==> s == Handled(p, Some(PackageAlreadyExists))
    ensures packageDataEmpty ==> s.after.name == name && s.after.description == description && s.after.owner == owner
    ensures packageDataEmpty && managerDataEmpty ==> s.error == Some(ManagerUninitialized) && s.after.expenseManager == p.expenseManager
    ensures packageDataEmpty && !managerDataEmpty ==> s.error.None? && s.after.expenseManager == managerKey
    ensures s.after.transactionHashes == p.transactionHashes && s.after.state == p.state
  {
    if !packageDataEmpty then Handled(p, Some(PackageAlreadyExists))
    else
      var written := p.(name := name, description := description, owner := owner);
      if managerDataEmpty then Handled(written, Some(ManagerUninitialized))
      else Handled(written.(expenseManager := managerKey), None)
  }

  /** `add_transaction_hash`: refused unless the package is `CREATED`; otherwise the hash goes at the end of the list. */
  function AddTransactionHashStep(p: Package, hash: string): (s: Handled<Package>)
    ensures s.error.None? <==> p.state == CREATED
    ensures s.error.Some? ==> s.error.value == PackageFrozen && s.after == p
    ensures s.error.None? ==> s.after == p.(transactionHashes := p.transactionHashes + [hash])
  {
    if p.state == CREATED then Handled(p.(transactionHashes := p.transactionHashes + [hash]), None)
    else Handled(p, Some(PackageFrozen))
  }

  /* ---- What the guards promise across calls ---- */

  /**
   * A manager is created once: after a creation that set a name or a
   * non-default authority, every later creation is refused and changes nothing.
   */
  lemma ManagerCreatedOnce(m: Manager, name: string, signer: Pubkey, name2: string, signer2: Pubkey)
    requires CreateExpenseManagerStep(m, name, signer).error.None?
    requires name != "" || signer != DEFAULT_PUBKEY
    ensures var m2 := CreateExpenseManagerStep(m, name, signer).after;
      CreateExpenseManagerStep(m2, name2, signer2) == Handled(m2, Some(ManagerAlreadyExists))
  {
  }

  /** Adding hashes one at a time: the package state after each accepted one, or the first refusal. */
  function AddTransactionHashes(p: Package, hashes: seq<string>): (s: Handled<Package>)
    decreases |hashes|
  {
    if |hashes| == 0 then Handled(p, None)
    else
      var first := AddTransactionHashStep(p, hashes[0]);
      if first.error.Some? then first else AddTransactionHashes(first.after, hashes[1..])
  }

  /**
   * While a package is `CREATED`, successive `add_transaction_hash` calls
   * append their hashes in call order and change nothing else; a package
   * in any other state refuses the first one and is left as it was.
   */
  lemma {:induction false} AddTransactionHashesAppend(p: Package, hashes: seq<string>)
    ensures p.state == CREATED ==> AddTransactionHashes(p, hashes) == Handled(p.(transactionHashes := p.transactionHashes + hashes), None)
    ensures p.state != CREATED && |hashes| > 0 ==> AddTransactionHashes(p, hashes) == Handled(p, Some(PackageFrozen))
    decreases |hashes|
  {
    if |hashes| > 0 && p.state == CREATED {
      var next := p.(transactionHashes := p.transactionHashes + [hashes[0]]);
      AddTransactionHashesAppend(next, hashes[1..]);
      assert next.transactionHashes + hashes[1..] == p.transactionHashes + hashes;
    } else if |hashes| == 0 {
      assert p.transactionHashes + hashes == p.transactionHashes;
    }
  }

  /** No handler moves a package out of, or into, any state: a frozen package stays frozen. */
  lemma HandlersKeepState(p: Package, packageDataEmpty: bool, managerDataEmpty: bool, managerKey: Pubkey,
    name: string, description: string, owner: Pubkey, hash: string)
    ensures CreateExpensePackageStep(p, packageDataEmpty, managerDataEmpty, managerKey, name, description, owner).after.state == p.state
    ensures AddTransactionHashStep(p, hash).after.state == p.state
    ensures p.state != CREATED ==> AddTransactionHashStep(p, hash).error == Some(PackageFrozen)
  {
  }

  /* ---- The accounts and the handlers over them ---- */

  /** An `ExpenseManager` account: its key, whether its data is empty, and its fields. */
  class ExpenseManagerAccount {
    var key: Pubkey
    var dataIsEmpty: bool
    var name: string
    var authority: Pubkey

    function Fields(): Manager
      reads this
    {
      Manager(name, authority)
    }

    /** `create_expense_manager`, signed by `authority`. */
    method CreateExpenseManager(name: string, signer: Pubkey) returns (error: Option<SlideError>)
      modifies this
      ensures var s := CreateExpenseManagerStep(old(Fields()), name, signer);
        Fields() == s.after && error == s.error
      ensures key == old(key) && dataIsEmpty == old(dataIsEmpty)
    {
      if !(this.name == "" && authority == DEFAULT_PUBKEY) {
        return Some(ManagerAlreadyExists);
      }
      this.name := name;
      authority := signer;
      return None;
    }
  }

  /** An `ExpensePackage` account: its key, whether its data is empty, and its fields. */
  class ExpensePackageAccount {
    var key: Pubkey
    var dataIsEmpty: bool
    var name: string
    var description: string
    var transactionHashes: seq<string>
    var owner: Pubkey
    var expenseManager: Pubkey
    var state: ExpensePackageState

    function Fields(): Package
      reads this
    {
      Package(name, description, transactionHashes, owner, expenseManager, state)
    }

    /** `create_expense_package`, signed by `owner`, under the given manager account. */
    method CreateExpensePackage(manager: ExpenseManagerAccount, name: string, description: string, owner: Pubkey)
      returns (error: Option<SlideError>)
      modifies this
      ensures var s := CreateExpensePackageStep(old(Fields()), old(dataIsEmpty), manager.dataIsEmpty, manager.key,
          name, description, owner);
        Fields() == s.after && error == s.error
      ensures key == old(key) && dataIsEmpty == old(dataIsEmpty)
    {
      if !dataIsEmpty {
        return Some(PackageAlreadyExists);
      }
      this.name := name;
      this.description := description;
      this.owner := owner;
      if manager.dataIsEmpty {
        return Some(ManagerUninitialized);
      }
      expenseManager := manager.key;
      return None;
    }

    /** `add_transaction_hash`. */
    method AddTransactionHash(hash: string) returns (error: Option<SlideError>)
      modifies this
      ensures var s := AddTransactionHashStep(old(Fields()), hash);
        Fields() == s.after && error == s.error
      ensures key == old(key) && dataIsEmpty == old(dataIsEmpty)
    {
      if state != CREATED {
        return Some(PackageFrozen);
      }
      transactionHashes := transactionHashes + [hash];
      return None;
    }
  }
}
