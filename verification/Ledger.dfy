/** The token ledger the contracts run against: integer widths, balances, the SEP-41 `transfer`,
    and the sums over the record of past transfers that the money theorems are stated with. */
module Ledger {

  datatype Option<+T> = None | Some(value: T)

  // A Stellar address; a token is named by the address of its contract.
  datatype Address = Address(strkey: string)

  const U32_MAX: int := 0xFFFF_FFFF
  const U64_MAX: int := 0xFFFF_FFFF_FFFF_FFFF
  const I128_MAX: int := 0x7FFF_FFFF_FFFF_FFFF_FFFF_FFFF_FFFF_FFFF

  type U32 = x: int | 0 <= x <= U32_MAX
  type U64 = x: int | 0 <= x <= U64_MAX
  type I128 = x: int | -I128_MAX - 1 <= x <= I128_MAX

  predicate FitsI128(x: int) { -I128_MAX - 1 <= x <= I128_MAX }

  /** What a contract meant by a transfer. Labels never influence an outcome; `Outside` marks a
      transfer that no modelled contract made. */
  datatype Label = Deposit | Fee | Payout | Refund | Outside

  datatype Movement = Movement(token: Address, src: Address, dst: Address, amount: nat, memo: Label)

  /** Balances of every token and address (absent means zero) and all successful transfers so far. */
  datatype Bank = Bank(balances: map<(Address, Address), nat>, log: seq<Movement>)

  function Balance(b: Bank, token: Address, who: Address): nat {
    if (token, who) in b.balances then b.balances[(token, who)] else 0
  }

  /** SEP-41 `transfer`: refuses a negative amount and an overdraft. Debit first, then credit, so a
      transfer to oneself changes nothing. */
  function Transfer(b: Bank, token: Address, src: Address, dst: Address, amount: int, memo: Label): (r: Option<Bank>)
    ensures r.Some? <==> 0 <= amount <= Balance(b, token, src)
    ensures r.Some? ==> r.value.log == b.log + [Movement(token, src, dst, amount, memo)]
    ensures r.Some? ==> forall t, a ::
      Balance(r.value, t, a) == Balance(b, t, a) + (if t == token && a == dst then amount else 0)
        - (if t == token && a == src then amount else 0)
  {
    if amount < 0 || Balance(b, token, src) < amount then None
    else
      var debited := b.balances[(token, src) := Balance(b, token, src) - amount];
      var held := if (token, dst) in debited then debited[(token, dst)] else 0;
      Some(Bank(debited[(token, dst) := held + amount], b.log + [Movement(token, src, dst, amount, memo)]))
  }

  // ---------------------------------------------------------------------------------------------
  // Sums over the log

  /** `Flow`: received minus sent by `who`. `Labelled`: moved under one label. `Gift`: received by
      `who` under any label but `Deposit`, be it from outside or, for a vault, from itself. */
  datatype Query =
    | Flow(token: Address, who: Address)
    | Labelled(token: Address, memo: Label)
    | Gift(token: Address, who: Address)

  function Weight(q: Query, m: Movement): int {
    if m.token != q.token then 0
    else match q
      case Flow(_, who) => (if m.dst == who then m.amount else 0) - (if m.src == who then m.amount else 0)
      case Labelled(_, memo) => if m.memo == memo then m.amount else 0
      case Gift(_, who) => if m.dst == who && m.memo != Deposit then m.amount else 0
  }

  function Moved(log: seq<Movement>, q: Query): int {
    if log == [] then 0 else Moved(log[..|log| - 1], q) + Weight(q, log[|log| - 1])
  }

  lemma {:induction false} MovedSnoc(log: seq<Movement>, m: Movement, q: Query)
    ensures Moved(log + [m], q) == Moved(log, q) + Weight(q, m)
  {
    assert (log + [m])[..|log|] == log;
  }

  lemma {:induction false} MovedConcat(log: seq<Movement>, more: seq<Movement>, q: Query)
    ensures Moved(log + more, q) == Moved(log, q) + Moved(more, q)
  {
    if more == [] {
      assert log + more == log;
    } else {
      var n := |more| - 1;
      assert log + more == (log + more[..n]) + [more[n]];
      MovedSnoc(log + more[..n], more[n], q);
      MovedConcat(log, more[..n], q);
    }
  }

  // The movements of one call are few; their sums in the open.
  lemma {:induction false} MovedOfFew(a: Movement, b: Movement, q: Query)
    ensures Moved([], q) == 0
    ensures Moved([a], q) == Weight(q, a)
    ensures Moved([a, b], q) == Weight(q, a) + Weight(q, b)
  {
    MovedSnoc([], a, q);
    assert [] + [a] == [a];
    MovedSnoc([a], b, q);
    assert [a] + [b] == [a, b];
  }

  /** What `who` would hold had no logged transfer happened. */
  function Opening(b: Bank, token: Address, who: Address): int {
    Balance(b, token, who) - Moved(b.log, Flow(token, who))
  }

  /** Balances are what the log replays to: no transfer changes anybody's opening balance. */
  lemma {:induction false} TransferKeepsOpening(b: Bank, token: Address, src: Address, dst: Address, amount: int,
                                                memo: Label, t: Address, a: Address)
    requires Transfer(b, token, src, dst, amount, memo).Some?
    ensures Opening(Transfer(b, token, src, dst, amount, memo).value, t, a) == Opening(b, t, a)
  {
    MovedSnoc(b.log, Movement(token, src, dst, amount, memo), Flow(t, a));
  }

  /** Deposits come from elsewhere into the vault; fees, payouts and refunds leave the vault; an
      outside transfer is made by somebody else. */
  predicate Classified(log: seq<Movement>, vault: Address) {
    forall m <- log :: match m.memo
      case Deposit => m.src != vault && m.dst == vault
      case Outside => m.src != vault
      case _ => m.src == vault
  }

  /** The vault's flow, split by label. */
  lemma {:induction false} FlowByLabel(log: seq<Movement>, vault: Address, t: Address)
    requires Classified(log, vault)
    ensures Moved(log, Flow(t, vault)) == Moved(log, Labelled(t, Deposit)) + Moved(log, Gift(t, vault))
              - Moved(log, Labelled(t, Fee)) - Moved(log, Labelled(t, Payout)) - Moved(log, Labelled(t, Refund))
  {
    if log != [] {
      assert log[|log| - 1] in log;
      FlowByLabel(log[..|log| - 1], vault, t);
    }
  }

  lemma {:induction false} GiftsArePositive(log: seq<Movement>, t: Address, who: Address)
    ensures Moved(log, Gift(t, who)) >= 0
  {
    if log != [] { GiftsArePositive(log[..|log| - 1], t, who); }
  }
}
