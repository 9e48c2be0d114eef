/**
 The token transfer benchmark: the schedule of transfers that is generated, the ledger that
 runs them, and the check of the balances at the end. Accounts are numbered; addresses,
 signatures, nonces and encodings are not modelled.
 */
module Transfers {
  import opened Words

  // ----- the ledger -----

  datatype Transfer = Transfer(token: nat, amount: int, from: nat, to: nat)

  datatype Ledger = Ledger(tokens: set<nat>, balances: map<(nat, nat), int>, operators: set<(nat, nat, nat)>)

  function Balance(l: Ledger, owner: nat, token: nat): int {
    if (owner, token) in l.balances then l.balances[(owner, token)] else 0
  }

  function Credited(l: Ledger, owner: nat, token: nat, amount: int): Ledger {
    l.(balances := l.balances[(owner, token) := Balance(l, owner, token) + amount])
  }

  function Moved(l: Ledger, t: Transfer): Ledger {
    Credited(Credited(l, t.from, t.token, -t.amount), t.to, t.token, t.amount)
  }

  /** The token exists, the caller may move it, and no balance becomes negative. */
  predicate Accepts(l: Ledger, caller: nat, t: Transfer) {
    Debits(l, caller, t) && Balance(Moved(l, t), t.to, t.token) >= 0
  }

  /** The sender's side of a transfer goes through. */
  predicate Debits(l: Ledger, caller: nat, t: Transfer) {
    && t.token in l.tokens
    && (caller == t.from || (t.from, caller, t.token) in l.operators)
    && Balance(l, t.from, t.token) - t.amount >= 0
  }

  class Fa2 {
    var tokens: set<nat>
    var balances: map<(nat, nat), int>
    var operators: set<(nat, nat, nat)>

    function View(): Ledger
      reads this
    {
      Ledger(tokens, balances, operators)
    }

    constructor ()
      ensures View() == Ledger({}, map[], {})
    {
      tokens, balances, operators := {}, map[], {};
    }

    /** Change a balance; refused when it would become negative. */
    method AddBalance(owner: nat, token: nat, amount: int) returns (ok: bool)
      modifies this`balances
      ensures ok <==> Balance(old(View()), owner, token) + amount >= 0
      ensures View() == if ok then Credited(old(View()), owner, token, amount) else old(View())
    {
      var b := Balance(View(), owner, token) + amount;
      if b < 0 { return false; }
      balances := balances[(owner, token) := b];
      return true;
    }

    /** Create a token and give an amount of it to an owner. */
    method MintNew(token: nat, owner: nat, amount: int) returns (ok: bool)
      modifies this
      ensures ok <==> token !in old(tokens) && Balance(old(View()), owner, token) + amount >= 0
      ensures ok ==> View() == Credited(old(View()).(tokens := old(tokens) + {token}), owner, token, amount)
      ensures !ok ==> View() == old(View()).(tokens := old(tokens) + {token})
    {
      if token in tokens { return false; }
      tokens := tokens + {token};
      ok := AddBalance(owner, token, amount);
    }

    /** Move an amount of a token from one account to another. */
    method TransferOne(caller: nat, t: Transfer) returns (ok: bool)
      modifies this`balances
      ensures ok <==> Accepts(old(View()), caller, t)
      ensures View() == if ok then Moved(old(View()), t)
                        else if Debits(old(View()), caller, t) then Credited(old(View()), t.from, t.token, -t.amount)
                        else old(View())
    {
      if t.token !in tokens || (caller != t.from && (t.from, caller, t.token) !in operators) { return false; }
      ok := AddBalance(t.from, t.token, -t.amount);
      if ok { ok := AddBalance(t.to, t.token, t.amount); }
    }
  }

  /** How much of a token the first accounts hold. */
  function Supply(l: Ledger, token: nat, n: nat): int {
    if n == 0 then 0 else Supply(l, token, n - 1) + Balance(l, n - 1, token)
  }

  lemma {:induction false} CreditedSupply(l: Ledger, owner: nat, t: nat, amount: int, token: nat, n: nat)
    ensures Supply(Credited(l, owner, t, amount), token, n)
            == Supply(l, token, n) + if owner < n && t == token then amount else 0
    decreases n
  {
    if n != 0 { CreditedSupply(l, owner, t, amount, token, n - 1); }
  }

  /** Whatever is transferred between accounts, the supply of every token stays the same. */
  lemma SupplyKept(l: Ledger, t: Transfer, token: nat, n: nat)
    requires t.from < n && t.to < n
    ensures Supply(Moved(l, t), token, n) == Supply(l, token, n)
  {
    CreditedSupply(l, t.from, t.token, -t.amount, token, n);
    CreditedSupply(Credited(l, t.from, t.token, -t.amount), t.to, t.token, t.amount, token, n);
  }

  // ----- the schedule -----

  /** The smallest number whose square is at least `t`. */
  function CeilSqrt(t: nat, from: nat): (k: nat)
    requires from == 0 || (from - 1) * (from - 1) < t
    ensures k * k >= t && (k == 0 || (k - 1) * (k - 1) < t)
    decreases if from * from >= t then 0 else t + 1 - from
  {
    if from * from >= t then from else CeilSqrt(t, from + 1)
  }

  function AccountsFor(transfers: nat): nat { CeilSqrt(transfers, 0) + 1 }

  /** One account more than the root rounded up; there are enough transfers to be made between so many. */
  lemma EnoughAccounts(transfers: nat)
    ensures var n := AccountsFor(transfers);
            && n >= 1 && (n - 1) * (n - 1) >= transfers && (n > 1 ==> (n - 2) * (n - 2) < transfers)
            && n * (n - 1) >= transfers
  {
    var k := CeilSqrt(transfers, 0);
    assert (k + 1) * k == k * k + k;
  }

  function Wrapped(x: nat, n: nat): nat
    requires x < 2 * n
  {
    if x < n then x else x - n
  }

  /** Transfer `j` of a token: all but one go on to the next account. */
  function Hop(n: nat, token: nat, j: nat): Transfer
    requires token < n && j + 1 < n
  {
    Transfer(token, n - (j + 1), Wrapped(token + j, n), Wrapped(token + j + 1, n))
  }

  /** The transfers of the first tokens. */
  function Hops(n: nat, token: nat, j: nat): seq<Transfer>
    requires token < n && j < n
  {
    if j == 0 then [] else Hops(n, token, j - 1) + [Hop(n, token, j - 1)]
  }

  function AllHops(n: nat, tokens: nat): seq<Transfer>
    requires tokens <= n
  {
    if tokens == 0 then [] else AllHops(n, tokens - 1) + Hops(n, tokens - 1, n - 1)
  }

  lemma {:induction false} HopsLength(n: nat, token: nat, j: nat)
    requires token < n && j < n
    ensures |Hops(n, token, j)| == j
  {
    if j != 0 { HopsLength(n, token, j - 1); }
  }

  lemma {:induction false} AllHopsLength(n: nat, tokens: nat)
    requires tokens <= n && n > 0
    ensures |AllHops(n, tokens)| == tokens * (n - 1)
  {
    if tokens != 0 {
      AllHopsLength(n, tokens - 1);
      HopsLength(n, tokens - 1, n - 1);
      assert tokens * (n - 1) == (tokens - 1) * (n - 1) + (n - 1);
    }
  }

  /** The transfers generated for a number of accounts: at most so many, token by token. */
  method Generate(n: nat, transfers: nat) returns (s: seq<Transfer>)
    requires n > 0
    ensures s <= AllHops(n, n)
    ensures |s| == if transfers <= n * (n - 1) then transfers else n * (n - 1)
  {
    hide Hop;
    s := [];
    AllHopsLength(n, n);
    var token := 0;
    while token < n
      invariant 0 <= token <= n && s == AllHops(n, token) && |s| <= transfers
    {
      var j := 0;
      assert s + [] == s;
      while j + 1 < n
        invariant 0 <= j < n && s == AllHops(n, token) + Hops(n, token, j) && |s| <= transfers
      {
        if |s| == transfers {
          EarlyEnd(n, token, j);
          return;
        }
        HopIs(n, token, j);
        s := s + [Transfer(token, n - (j + 1), (token + j) % n, (token + j + 1) % n)];
        j := j + 1;
      }
      token := token + 1;
    }
  }

  lemma HopIs(n: nat, token: nat, j: nat)
    requires token < n && j + 1 < n
    ensures Hop(n, token, j) == Transfer(token, n - (j + 1), (token + j) % n, (token + j + 1) % n)
  {
    WrappedIsMod(token + j, n);
    WrappedIsMod(token + j + 1, n);
  }

  lemma WrappedIsMod(x: nat, n: nat)
    requires 0 < n && x < 2 * n
    ensures x % n == Wrapped(x, n)
  {
    if x >= n { assert x % n == (x - n) % n; }
  }

  /** Ending within the transfers of a token leaves a prefix of the schedule. */
  lemma EarlyEnd(n: nat, token: nat, j: nat)
    requires token < n && j < n
    ensures AllHops(n, token) + Hops(n, token, j) <= AllHops(n, n)
    ensures |AllHops(n, token) + Hops(n, token, j)| <= n * (n - 1)
  {
    PrefixOfAll(n, token, j);
    AllHopsLength(n, n);
  }

  lemma PrefixOfAll(n: nat, token: nat, j: nat)
    requires token < n && j < n
    ensures AllHops(n, token) + Hops(n, token, j) <= AllHops(n, n)
  {
    hide AllHops, Hops;
    OneTokenMore(n, token);
    HopsPrefix(n, token, j, n - 1);
    AllPrefix(n, token + 1, n);
    PrefixAppend(AllHops(n, token), Hops(n, token, j), Hops(n, token, n - 1));
    PrefixTransitive(AllHops(n, token) + Hops(n, token, j), AllHops(n, token + 1), AllHops(n, n));
  }

  lemma OneTokenMore(n: nat, token: nat)
    requires token < n
    ensures AllHops(n, token + 1) == AllHops(n, token) + Hops(n, token, n - 1)
  {
    hide Hops;
  }

  lemma PrefixAppend(a: seq<Transfer>, b: seq<Transfer>, c: seq<Transfer>)
    requires b <= c
    ensures a + b <= a + c
  {
  }

  lemma PrefixTransitive(a: seq<Transfer>, b: seq<Transfer>, c: seq<Transfer>)
    requires a <= b <= c
    ensures a <= c
  {
  }

  lemma {:induction false} HopsPrefix(n: nat, token: nat, i: nat, j: nat)
    requires token < n && i <= j < n
    ensures Hops(n, token, i) <= Hops(n, token, j)
    decreases j
  {
    if i < j { HopsPrefix(n, token, i, j - 1); }
  }

  lemma {:induction false} AllPrefix(n: nat, i: nat, j: nat)
    requires i <= j <= n
    ensures AllHops(n, i) <= AllHops(n, j)
    decreases j
  {
    if i < j { AllPrefix(n, i, j - 1); }
  }

  // ----- balances along the schedule -----

  /** How far an account is from the first holder of a token. */
  function Distance(n: nat, token: nat, owner: nat): nat
    requires token < n && owner < n
  {
    if owner >= token then owner - token else owner + n - token
  }

  /** What an account holds of a token after some of its transfers. */
  function Held(n: nat, token: nat, made: nat, owner: nat): int
    requires token < n && owner < n
  {
    var p := Distance(n, token, owner);
    if p == 0 then (if made == 0 then n + 1 else 2)
    else if p < made then 1
    else if p == made then n - made
    else 0
  }

  ghost predicate Row(l: Ledger, n: nat, token: nat, made: nat)
    requires token < n
  {
    token in l.tokens && forall owner :: 0 <= owner < n ==> Balance(l, owner, token) == Held(n, token, made, owner)
  }

  /** How many transfers of a token have been made when `made` of those of `current` have. */
  function MadeOf(n: nat, current: nat, made: nat, token: nat): nat
    requires n > 0
  {
    if token < current then n - 1 else if token == current then made else 0
  }

  /** After the transfers of the first tokens and some of the next. */
  ghost predicate Reached(l: Ledger, n: nat, token: nat, made: nat)
    requires n > 0
  {
    forall t {:trigger MadeOf(n, token, made, t)} :: 0 <= t < n ==> Row(l, n, t, MadeOf(n, token, made, t))
  }

  /** A transfer of the schedule is accepted and gets the ledger to the next point of it. */
  lemma HopAccepted(l: Ledger, n: nat, token: nat, j: nat)
    requires token < n && j + 1 < n && Row(l, n, token, j)
    ensures var t := Hop(n, token, j); Accepts(l, t.from, t) && Row(Moved(l, t), n, token, j + 1)
    ensures Balance(l, Hop(n, token, j).to, token) == 0
            && Balance(l, Hop(n, token, j).from, token) > Hop(n, token, j).amount > 0
  {
    var t := Hop(n, token, j);
    assert Distance(n, token, t.from) == j && Distance(n, token, t.to) == j + 1;
    var l' := Moved(l, t);
    forall owner | 0 <= owner < n ensures Balance(l', owner, token) == Held(n, token, j + 1, owner) {
      assert Balance(l, owner, token) == Held(n, token, j, owner);
      if owner != t.from && owner != t.to {
        assert Distance(n, token, owner) != j && Distance(n, token, owner) != j + 1;
      }
    }
  }

  /** The other tokens are not touched. */
  lemma OtherRow(l: Ledger, t: Transfer, n: nat, token: nat, made: nat)
    requires token < n && token != t.token && Row(l, n, token, made)
    ensures Row(Moved(l, t), n, token, made)
  {
    forall owner | 0 <= owner < n ensures Balance(Moved(l, t), owner, token) == Held(n, token, made, owner) {
      assert Balance(Moved(l, t), owner, token) == Balance(l, owner, token);
    }
  }

  lemma HopReaches(l: Ledger, n: nat, token: nat, j: nat)
    requires token < n && j + 1 < n && Reached(l, n, token, j)
    ensures Reached(Moved(l, Hop(n, token, j)), n, token, j + 1)
  {
    hide Row;
    var t, next := Hop(n, token, j), j + 1;
    forall u | 0 <= u < n ensures Row(Moved(l, t), n, u, MadeOf(n, token, next, u)) {
      assert Row(l, n, u, MadeOf(n, token, j, u));
      if u == token { HopAccepted(l, n, token, j); } else { OtherRow(l, t, n, u, MadeOf(n, token, j, u)); }
    }
  }

  // ----- counting empty balances -----

  /** How many of the first tokens an account holds nothing of. */
  function EmptyOf(l: Ledger, owner: nat, tokens: nat): nat {
    if tokens == 0 then 0 else EmptyOf(l, owner, tokens - 1) + if Balance(l, owner, tokens - 1) == 0 then 1 else 0
  }

  function Empty(l: Ledger, accounts: nat, tokens: nat): nat {
    if accounts == 0 then 0 else Empty(l, accounts - 1, tokens) + EmptyOf(l, accounts - 1, tokens)
  }

  /** Exactly one balance, at this account and token, is no longer empty. */
  ghost predicate FilledAt(l: Ledger, l': Ledger, owner: nat, token: nat) {
    && Balance(l, owner, token) == 0 && Balance(l', owner, token) != 0
    && forall o: nat, t: nat :: (o, t) != (owner, token) ==> (Balance(l, o, t) == 0 <==> Balance(l', o, t) == 0)
  }

  lemma {:induction false} FilledOf(l: Ledger, l': Ledger, owner: nat, token: nat, o: nat, tokens: nat)
    requires FilledAt(l, l', owner, token)
    ensures EmptyOf(l, o, tokens) == EmptyOf(l', o, tokens) + if o == owner && token < tokens then 1 else 0
    decreases tokens
  {
    if tokens != 0 {
      FilledOf(l, l', owner, token, o, tokens - 1);
      assert (o, tokens - 1) == (owner, token) || (Balance(l, o, tokens - 1) == 0 <==> Balance(l', o, tokens - 1) == 0);
    }
  }

  lemma {:induction false} FilledEmpty(l: Ledger, l': Ledger, owner: nat, token: nat, accounts: nat, tokens: nat)
    requires FilledAt(l, l', owner, token)
    ensures Empty(l, accounts, tokens)
            == Empty(l', accounts, tokens) + if owner < accounts && token < tokens then 1 else 0
    decreases accounts
  {
    if accounts != 0 {
      FilledEmpty(l, l', owner, token, accounts - 1, tokens);
      FilledOf(l, l', owner, token, accounts - 1, tokens);
    }
  }

  /** Every transfer of the schedule leaves one empty balance less. */
  lemma HopFills(l: Ledger, n: nat, token: nat, j: nat)
    requires token < n && j + 1 < n && Row(l, n, token, j)
    ensures Empty(l, n, n) == Empty(Moved(l, Hop(n, token, j)), n, n) + 1
  {
    var t := Hop(n, token, j);
    HopAccepted(l, n, token, j);
    assert FilledAt(l, Moved(l, t), t.to, token);
    FilledEmpty(l, Moved(l, t), t.to, token, n, n);
  }

  // ----- minting -----

  /** Only the first holder of each token has any of it. */
  ghost predicate Minted(l: Ledger, n: nat, upTo: nat) {
    && (forall t: nat :: t in l.tokens <==> t < upTo)
    && forall o: nat, t: nat :: Balance(l, o, t) == if o == t && t < upTo then n + 1 else 0
  }

  lemma {:induction false} MintedEmptyOf(l: Ledger, n: nat, o: nat, tokens: nat)
    requires Minted(l, n, n) && o < n && tokens <= n
    ensures EmptyOf(l, o, tokens) == if o < tokens then tokens - 1 else tokens
    decreases tokens
  {
    if tokens != 0 { MintedEmptyOf(l, n, o, tokens - 1); }
  }

  lemma {:induction false} MintedEmpty(l: Ledger, n: nat, accounts: nat)
    requires Minted(l, n, n) && accounts <= n
    ensures Empty(l, accounts, n) == accounts * (n - 1)
    decreases accounts
  {
    if accounts != 0 {
      MintedEmpty(l, n, accounts - 1);
      MintedEmptyOf(l, n, accounts - 1, n);
      assert accounts * (n - 1) == (accounts - 1) * (n - 1) + (n - 1);
    }
  }

  lemma MintedReached(l: Ledger, n: nat)
    requires Minted(l, n, n) && n > 0
    ensures Reached(l, n, 0, 0)
  {
  }

  /** Give each account an amount of its own token. */
  method BatchMint(fa2: Fa2, n: nat) returns (ok: bool)
    requires fa2.View() == Ledger({}, map[], {})
    modifies fa2
    ensures ok && Minted(fa2.View(), n, n)
  {
    var i := 0;
    while i < n
      invariant 0 <= i <= n && Minted(fa2.View(), n, i)
    {
      ghost var l := fa2.View();
      ok := fa2.MintNew(i, i, n + 1);
      assert ok;
      forall o: nat, t: nat ensures Balance(fa2.View(), o, t) == if o == t && t < i + 1 then n + 1 else 0 {
        assert Balance(l, o, t) == if o == t && t < i then n + 1 else 0;
      }
      i := i + 1;
    }
    ok := true;
  }

  // ----- running the schedule -----

  /** A point of the schedule: so many tokens done, and so many transfers of the next. */
  ghost predicate At(s: seq<Transfer>, n: nat, token: nat, made: nat) {
    token < n && made < n && s == AllHops(n, token) + Hops(n, token, made)
  }

  lemma StartAt(all: seq<Transfer>, n: nat)
    requires n > 0
    ensures At(all[..0], n, 0, 0)
  {
    assert all[..0] == [] + [];
  }

  lemma InRange(s: seq<Transfer>, n: nat, token: nat, made: nat)
    requires At(s, n, token, made)
    ensures token < n && made < n
  {
  }

  /** The next transfer of the schedule. */
  lemma NextHop(s: seq<Transfer>, n: nat, token: nat, made: nat, all: seq<Transfer>)
    requires At(s, n, token, made) && s < all <= AllHops(n, n)
    ensures made + 1 < n ==> all[|s|] == Hop(n, token, made) && At(s + [all[|s|]], n, token, made + 1)
    ensures made + 1 == n ==> token + 1 < n && At(s, n, token + 1, 0)
  {
    if made + 1 < n {
      PrefixOfAll(n, token, made + 1);
      assert AllHops(n, token) + Hops(n, token, made + 1) == s + [Hop(n, token, made)];
      assert (s + [Hop(n, token, made)])[|s|] == AllHops(n, n)[|s|] == all[|s|];
    } else {
      assert s == AllHops(n, token + 1);
      assert token + 1 != n;
      assert s + Hops(n, token + 1, 0) == s;
    }
  }

  /** Run the transfers of the schedule, each called by its sender; none of them is refused. */
  method RunAll(fa2: Fa2, n: nat, all: seq<Transfer>) returns (accepted: nat)
    requires n > 0 && Minted(fa2.View(), n, n) && all <= AllHops(n, n)
    modifies fa2
    ensures accepted == |all|
    ensures Empty(fa2.View(), n, n) == n * (n - 1) - |all|
    ensures forall token :: 0 <= token < n ==> Supply(fa2.View(), token, n) == n + 1
  {
    hide Row, Reached, Minted, Supply, Empty, Moved, Accepts, At, Hop;
    MintedEmpty(fa2.View(), n, n);
    MintedReached(fa2.View(), n);
    forall token | 0 <= token < n ensures Supply(fa2.View(), token, n) == n + 1 {
      MintedSupply(fa2.View(), n, token, n);
    }
    ghost var token, made := 0, 0;
    var k := 0;
    accepted := 0;
    StartAt(all, n);
    while k < |all|
      invariant 0 <= k <= |all| && At(all[..k], n, token, made) && Reached(fa2.View(), n, token, made)
      invariant Empty(fa2.View(), n, n) == n * (n - 1) - k && accepted == k
      invariant forall t :: 0 <= t < n ==> Supply(fa2.View(), t, n) == n + 1
    {
      InRange(all[..k], n, token, made);
      NextHop(all[..k], n, token, made, all);
      if made + 1 == n {
        NextToken(fa2.View(), n, token);
        token, made := token + 1, 0;
        InRange(all[..k], n, token, made);
        NextHop(all[..k], n, token, made, all);
      }
      ghost var l := fa2.View();
      assert n > 1 && made + 1 < n;
      HopNow(l, n, token, made);
      var ok := fa2.TransferOne(all[k].from, all[k]);
      if ok { accepted := accepted + 1; }
      HopReaches(l, n, token, made);
      forall t | 0 <= t < n ensures Supply(fa2.View(), t, n) == n + 1 { SupplyKept(l, all[k], t, n); }
      assert all[..k + 1] == all[..k] + [all[k]];
      k, made := k + 1, made + 1;
    }
    assert all[..k] == all;
  }

  /** Once all transfers of a token are made, the next token is as it was minted. */
  lemma NextToken(l: Ledger, n: nat, token: nat)
    requires token + 1 < n && Reached(l, n, token, n - 1)
    ensures Reached(l, n, token + 1, 0)
  {
    hide Row;
    var next := token + 1;
    forall t | 0 <= t < n ensures Row(l, n, t, MadeOf(n, next, 0, t)) {
      assert Row(l, n, t, MadeOf(n, token, n - 1, t));
    }
  }

  lemma HopNow(l: Ledger, n: nat, token: nat, made: nat)
    requires token < n && made + 1 < n && Reached(l, n, token, made)
    ensures var t := Hop(n, token, made);
            Accepts(l, t.from, t) && t.from < n && t.to < n && Empty(l, n, n) == Empty(Moved(l, t), n, n) + 1
  {
    hide Row;
    assert Row(l, n, token, MadeOf(n, token, made, token));
    HopAccepted(l, n, token, made);
    HopFills(l, n, token, made);
  }

  lemma {:induction false} MintedSupply(l: Ledger, n: nat, token: nat, m: nat)
    requires Minted(l, n, n) && token < n
    ensures Supply(l, token, m) == if token < m then n + 1 else 0
    decreases m
  {
    if m != 0 { MintedSupply(l, n, token, m - 1); }
  }

  // ----- checking the balances -----

  datatype Report = Report(account: nat, balance: int, token: nat)

  /** What an account holds of each of the first tokens. */
  function ReportsOf(l: Ledger, account: nat, tokens: nat): seq<Report> {
    if tokens == 0 then []
    else ReportsOf(l, account, tokens - 1) + [Report(account, Balance(l, account, tokens - 1), tokens - 1)]
  }

  function AllReports(l: Ledger, accounts: nat, tokens: nat): seq<Report> {
    if accounts == 0 then [] else AllReports(l, accounts - 1, tokens) + ReportsOf(l, accounts - 1, tokens)
  }

  function AccountsIn(rs: seq<Report>): set<nat> { set r | r in rs :: r.account }

  function TokensIn(rs: seq<Report>): set<nat> { set r | r in rs :: r.token }

  function EmptyIn(rs: seq<Report>): nat {
    if rs == [] then 0 else EmptyIn(rs[..|rs| - 1]) + if rs[|rs| - 1].balance == 0 then 1 else 0
  }

  /** Compare the reported balances with the number of transfers. */
  method CheckBalances(rs: seq<Report>, messages: nat, transfers: nat) returns (ok: bool)
    ensures ok <==> && |AccountsIn(rs)| == |TokensIn(rs)| == messages
                    && (messages - 1) * messages - EmptyIn(rs) == transfers
  {
    var accounts: set<nat>, tokens: set<nat>, skipped := {}, {}, 0;
    var i := 0;
    while i < |rs|
      invariant 0 <= i <= |rs| && accounts == AccountsIn(rs[..i]) && tokens == TokensIn(rs[..i])
                && skipped == EmptyIn(rs[..i])
    {
      assert rs[..i + 1] == rs[..i] + [rs[i]];
      assert AccountsIn(rs[..i + 1]) == AccountsIn(rs[..i]) + {rs[i].account};
      assert TokensIn(rs[..i + 1]) == TokensIn(rs[..i]) + {rs[i].token};
      accounts, tokens := accounts + {rs[i].account}, tokens + {rs[i].token};
      if rs[i].balance == 0 { skipped := skipped + 1; }
      i := i + 1;
    }
    assert rs[..i] == rs;
    if |accounts| != |tokens| { return false; }
    if |accounts| != messages { return false; }
    ok := (|accounts| - 1) * |tokens| - skipped == transfers;
  }

  lemma {:induction false} EmptyInAppend(a: seq<Report>, b: seq<Report>)
    ensures EmptyIn(a + b) == EmptyIn(a) + EmptyIn(b)
    decreases |b|
  {
    if b == [] {
      assert a + b == a;
    } else {
      assert (a + b)[..|a + b| - 1] == a + b[..|b| - 1];
      EmptyInAppend(a, b[..|b| - 1]);
    }
  }

  lemma {:induction false} ReportsEmpty(l: Ledger, account: nat, tokens: nat)
    ensures EmptyIn(ReportsOf(l, account, tokens)) == EmptyOf(l, account, tokens)
    decreases tokens
  {
    if tokens != 0 {
      ReportsEmpty(l, account, tokens - 1);
      var r := Report(account, Balance(l, account, tokens - 1), tokens - 1);
      EmptyInAppend(ReportsOf(l, account, tokens - 1), [r]);
      assert [r][..0] == [];
    }
  }

  lemma {:induction false} AllReportsEmpty(l: Ledger, accounts: nat, tokens: nat)
    ensures EmptyIn(AllReports(l, accounts, tokens)) == Empty(l, accounts, tokens)
    decreases accounts
  {
    if accounts != 0 {
      AllReportsEmpty(l, accounts - 1, tokens);
      ReportsEmpty(l, accounts - 1, tokens);
      EmptyInAppend(AllReports(l, accounts - 1, tokens), ReportsOf(l, accounts - 1, tokens));
    }
  }

  /** The reports of an account are on each of the tokens, and on nothing else. */
  lemma {:induction false} ReportsInOf(l: Ledger, account: nat, tokens: nat, r: Report)
    ensures r in ReportsOf(l, account, tokens) <==>
            r == Report(account, Balance(l, account, r.token), r.token) && r.token < tokens
    decreases tokens
  {
    if tokens != 0 { ReportsInOf(l, account, tokens - 1, r); }
  }

  lemma {:induction false} ReportsIn(l: Ledger, accounts: nat, tokens: nat, r: Report)
    ensures r in AllReports(l, accounts, tokens) <==>
            r == Report(r.account, Balance(l, r.account, r.token), r.token) && r.account < accounts && r.token < tokens
    decreases accounts
  {
    hide ReportsOf, Balance;
    if accounts != 0 {
      ReportsIn(l, accounts - 1, tokens, r);
      ReportsInOf(l, accounts - 1, tokens, r);
    }
  }

  /** The reports of all accounts name all accounts and all tokens. */
  lemma ReportsComplete(l: Ledger, n: nat)
    requires n > 0
    ensures |AccountsIn(AllReports(l, n, n))| == |TokensIn(AllReports(l, n, n))| == n
  {
    var rs := AllReports(l, n, n);
    forall b: nat ensures (b in AccountsIn(rs) <==> b in UpTo(n)) && (b in TokensIn(rs) <==> b in UpTo(n)) {
      if b < n {
        ReportsIn(l, n, n, Report(b, Balance(l, b, 0), 0));
        ReportsIn(l, n, n, Report(0, Balance(l, 0, b), b));
        assert Report(b, Balance(l, b, 0), 0) in rs && Report(0, Balance(l, 0, b), b) in rs;
      }
      forall r | r in rs ensures r.account < n && r.token < n { ReportsIn(l, n, n, r); }
    }
    assert AccountsIn(rs) == UpTo(n) && TokensIn(rs) == UpTo(n);
  }

  /** The whole benchmark: for every number of transfers, the final check accepts exactly that number. */
  method Benchmark(transfers: nat, claimed: nat) returns (ok: bool, accepted: nat)
    ensures accepted == transfers && (ok <==> claimed == transfers)
  {
    hide Minted, Empty, AllReports, AllHops, Supply, EmptyIn, AccountsIn, TokensIn, AccountsFor;
    EnoughAccounts(transfers);
    var n := AccountsFor(transfers);
    var fa2 := new Fa2();
    var _ := BatchMint(fa2, n);
    var schedule := Generate(n, transfers);
    accepted := RunAll(fa2, n, schedule);
    var reports := AllReports(fa2.View(), n, n);
    AllReportsEmpty(fa2.View(), n, n);
    ReportsComplete(fa2.View(), n);
    ok := CheckBalances(reports, n, claimed);
    assert (n - 1) * n == n * (n - 1);
  }
}
