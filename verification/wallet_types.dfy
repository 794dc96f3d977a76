/** The wallet record shared by the dashboard components through the application
    context, and the invariant the wallet registry is meant to keep. */
module WalletTypes {

  /** An optional value: `None` plays the part of JavaScript's `undefined`. */
  datatype Option<T> = None | Some(value: T) {

    /** The nullish-coalescing operator `x ?? default`. */
    function GetOr(default: T): T
    {
      if Some? then value else default
    }
  }

  /** Bounds on the length of a wallet name, in characters. */
  const MinNameLength: nat := 2
  const MaxNameLength: nat := 20

  /** A wallet as the dashboard sees it: a name and a balance. */
  datatype Wallet = Wallet(name: string, balance: real)

  /** Some wallet of the registry carries exactly this name (case-sensitive). */
  predicate NameTaken(name: string, wallets: seq<Wallet>)
  {
    exists i :: 0 <= i < |wallets| && wallets[i].name == name
  }

  /** A single wallet obeys the field rules of the add-wallet form. */
  predicate WellFormed(w: Wallet)
  {
    MinNameLength <= |w.name| <= MaxNameLength && w.balance >= 0.0
  }

  /** No two wallets of the registry share a name. */
  predicate DistinctNames(wallets: seq<Wallet>)
  {
    forall i, j :: 0 <= i < j < |wallets| ==> wallets[i].name != wallets[j].name
  }

  /** The registry invariant: every wallet well formed, names pairwise distinct. */
  predicate ValidRegistry(wallets: seq<Wallet>)
  {
    && (forall i :: 0 <= i < |wallets| ==> WellFormed(wallets[i]))
    && DistinctNames(wallets)
  }
}
