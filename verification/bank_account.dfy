/** The `BankAccount` class of `examples/oop/oop_demo.cpp`: guarded deposits and
    withdrawals, and the static count of live accounts. Amounts are exact reals rather
    than IEEE doubles. */
module BankAccounts {

  datatype Account = Account(number: string, balance: real)

  /** `deposit`: only a positive amount is added. */
  function Deposit(a: Account, amount: real): (r: Account)
    ensures r.number == a.number
    ensures amount > 0.0 ==> r.balance == a.balance + amount
    ensures amount <= 0.0 ==> r == a
  {
    if amount > 0.0 then a.(balance := a.balance + amount) else a
  }

  /** `withdraw`: only a positive amount not above the balance is taken. */
  function Withdraw(a: Account, amount: real): (r: Account)
    ensures r.number == a.number
    ensures 0.0 < amount <= a.balance ==> r.balance == a.balance - amount
    ensures !(0.0 < amount <= a.balance) ==> r == a
  {
    if amount > 0.0 && amount <= a.balance then a.(balance := a.balance - amount) else a
  }

  datatype Op = DepositOp(amount: real) | WithdrawOp(amount: real)

  function Apply(a: Account, op: Op): Account
  {
    match op
    case DepositOp(x) => Deposit(a, x)
    case WithdrawOp(x) => Withdraw(a, x)
  }

  function ApplyAll(a: Account, ops: seq<Op>): Account
    decreases |ops|
  {
    if |ops| == 0 then a else ApplyAll(Apply(a, ops[0]), ops[1..])
  }

  /** No sequence of deposits and withdrawals takes a non-negative balance below zero. */
  lemma {:induction false} BalanceStaysNonNegative(a: Account, ops: seq<Op>)
    requires a.balance >= 0.0
    ensures ApplyAll(a, ops).balance >= 0.0
    ensures ApplyAll(a, ops).number == a.number
    decreases |ops|
  {
    if |ops| > 0 {
      BalanceStaysNonNegative(Apply(a, ops[0]), ops[1..]);
    }
  }

  /** The account demo: 500, deposit 200, withdraw 100, then a refused withdrawal of 1000;
      and the composed account of `Person` receiving 500 on top of its 1000. */
  lemma AccountDemo()
    ensures var acc := Withdraw(Deposit(Account("ACC002", 500.0), 200.0), 100.0);
            acc.balance == 600.0 && Withdraw(acc, 1000.0) == acc
    ensures Deposit(Account("ACC001", 1000.0), 500.0).balance == 1500.0
  {
  }

  // ---------------------------------------------------------------------------
  // accountCount
  // ---------------------------------------------------------------------------

  /** The live accounts with the static counter the constructor raises and the
      destructor lowers. */
  datatype Accounts = Accounts(live: seq<Account>, accountCount: int)

  predicate CountMatches(w: Accounts)
  {
    w.accountCount == |w.live|
  }

  /** The constructor: a new account, the counter one up. */
  function Construct(w: Accounts, number: string, initialBalance: real): (w': Accounts)
    ensures w'.live == w.live + [Account(number, initialBalance)]
    ensures CountMatches(w) ==> CountMatches(w')
  {
    Accounts(w.live + [Account(number, initialBalance)], w.accountCount + 1)
  }

  /** The destructor of the `i`-th live account: gone, the counter one down. */
  function Destroy(w: Accounts, i: nat): (w': Accounts)
    requires i < |w.live|
    ensures w'.live == w.live[..i] + w.live[i + 1..]
    ensures CountMatches(w) ==> CountMatches(w')
  {
    Accounts(w.live[..i] + w.live[i + 1..], w.accountCount - 1)
  }

  /** The copy constructor the compiler generates, since `BankAccount` declares none: a
      second live account with the same number and balance, and the counter untouched. */
  function CopyImplicit(w: Accounts, i: nat): (w': Accounts)
    requires i < |w.live|
    ensures w'.live == w.live + [w.live[i]]
    ensures w'.accountCount == w.accountCount
  {
    Accounts(w.live + [w.live[i]], w.accountCount)
  }

  /** A copy constructor that counts the copy, as the constructor counts a new account. */
  function CopyCounted(w: Accounts, i: nat): (w': Accounts)
    requires i < |w.live|
    ensures w'.live == w.live + [w.live[i]]
    ensures CountMatches(w) ==> CountMatches(w')
  {
    Accounts(w.live + [w.live[i]], w.accountCount + 1)
  }

  datatype Lifecycle = Create(number: string, initialBalance: real) | Delete(index: nat) | Copy(index: nat)

  /** Constructions, destructions and copies in turn; an event naming an account that
      does not exist is skipped. `countCopies` chooses the counting copy constructor
      over the implicit one. */
  function Run(w: Accounts, events: seq<Lifecycle>, countCopies: bool): Accounts
    decreases |events|
  {
    if |events| == 0 then w
    else match events[0]
      case Create(n, b) => Run(Construct(w, n, b), events[1..], countCopies)
      case Delete(i) => if i < |w.live| then Run(Destroy(w, i), events[1..], countCopies) else Run(w, events[1..], countCopies)
      case Copy(i) =>
        if i >= |w.live| then Run(w, events[1..], countCopies)
        else if countCopies then Run(CopyCounted(w, i), events[1..], countCopies)
        else Run(CopyImplicit(w, i), events[1..], countCopies)
  }

  /** With copies counted, `getAccountCount` is the number of live accounts whatever the
      history. */
  lemma {:induction false} CountIsLiveAccounts(w: Accounts, events: seq<Lifecycle>)
    requires CountMatches(w)
    ensures CountMatches(Run(w, events, true))
    ensures Run(w, events, true).accountCount >= 0
    decreases |events|
  {
    if |events| > 0 {
      match events[0]
      case Create(n, b) => CountIsLiveAccounts(Construct(w, n, b), events[1..]);
      case Delete(i) =>
        if i < |w.live| {
          CountIsLiveAccounts(Destroy(w, i), events[1..]);
        } else {
          CountIsLiveAccounts(w, events[1..]);
        }
      case Copy(i) =>
        if i < |w.live| {
          CountIsLiveAccounts(CopyCounted(w, i), events[1..]);
        } else {
          CountIsLiveAccounts(w, events[1..]);
        }
    }
  }

  /** As written, the count never exceeds the live accounts, and it equals them for every
      history without copies; each copy makes it lag by one more. */
  lemma {:induction false} CountLagsByCopies(w: Accounts, events: seq<Lifecycle>)
    requires w.accountCount <= |w.live|
    ensures Run(w, events, false).accountCount <= |Run(w, events, false).live|
    ensures CountMatches(w) && (forall k :: 0 <= k < |events| ==> !events[k].Copy?) ==>
              CountMatches(Run(w, events, false)) && Run(w, events, false) == Run(w, events, true)
    decreases |events|
  {
    if |events| > 0 {
      var rest := events[1..];
      assert forall k :: 0 <= k < |rest| ==> rest[k] == events[k + 1];
      match events[0]
      case Create(n, b) => CountLagsByCopies(Construct(w, n, b), rest);
      case Delete(i) =>
        if i < |w.live| {
          CountLagsByCopies(Destroy(w, i), rest);
        } else {
          CountLagsByCopies(w, rest);
        }
      case Copy(i) =>
        if i < |w.live| {
          CountLagsByCopies(CopyImplicit(w, i), rest);
        } else {
          CountLagsByCopies(w, rest);
        }
    }
  }

  /** One account, copied, and both destroyed: no account is alive, yet
      `getAccountCount()` returns -1. */
  lemma CopyDrift()
    ensures var w := Run(Accounts([], 0), [Create("ACC001", 1000.0), Copy(0)], false);
            |w.live| == 2 && w.accountCount == 1
    ensures var w := Run(Accounts([], 0), [Create("ACC001", 1000.0), Copy(0), Delete(0), Delete(0)], false);
            |w.live| == 0 && w.accountCount == -1
  {
  }

  /** The demo's count: Alice's account and "ACC002" make 2, "ACC003" makes 3. */
  lemma AccountCountDemo()
    ensures var w1 := Construct(Construct(Accounts([], 0), "ACC001", 1000.0), "ACC002", 500.0);
            w1.accountCount == 2 && Construct(w1, "ACC003", 300.0).accountCount == 3
  {
  }
}
