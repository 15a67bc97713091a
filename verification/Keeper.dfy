/**
 The fixedmint keeper (x/fixedmint/keeper, x/fixedmint/module/genesis.go): parameters
 kept in the store as bytes, and the block reward minted through the bank.
 */
module Keeper {
  import opened Bits
  import opened Wire
  import opened AmountText
  import P = ParamsCodec
  import M = Messages

  type Account = string
  type Denom = seq<byte>

  /** `types.ModuleName` and `authtypes.FeeCollectorName` */
  const MODULE: Account := "fixedmint"
  const FEE_COLLECTOR: Account := "fee_collector"

  /** `types.ParamsKey`, "p_fixedmint" */
  const PARAMS_KEY: seq<byte> := [112, 95, 102, 105, 120, 101, 100, 109, 105, 110, 116]

  // ------------------------------------------------------------- validation

  datatype Verdict = Valid | EmptyDenom | NegativeAmount | NilAmount

  /** `Params.Validate`; asking an unset amount for its sign is a nil dereference. */
  function Validate(p: P.ParamsValue): Verdict {
    if p.denom == [] then EmptyDenom
    else if p.amount == Unset then NilAmount
    else if p.amount.value < 0 then NegativeAmount
    else Valid
  }

  /** Which records pass, what the others are told, and an empty genesis state among them. */
  lemma ValidExactlyWhen(p: P.ParamsValue)
    ensures Validate(p) == Valid <==> p.denom != [] && p.amount.Set? && p.amount.value >= 0
    ensures Validate(p) == EmptyDenom <==> p.denom == []
    ensures Validate(p) == NegativeAmount <==> p.denom != [] && p.amount.Set? && p.amount.value < 0
    ensures Validate(p) == NilAmount <==> p.denom != [] && p.amount == Unset
    ensures Validate(P.EMPTY) == EmptyDenom
  {
  }

  /** "ubluechip" */
  const DEFAULT_DENOM: seq<byte> := [117, 98, 108, 117, 101, 99, 104, 105, 112]
  const DEFAULT_PARAMS: P.ParamsValue := P.ParamsValue(DEFAULT_DENOM, Set(1_000_000), true)

  // -------------------------------------------------------------------- bank

  datatype BankValue = BankValue(balances: map<(Account, Denom), nat>, supply: map<Denom, nat>)

  function Balance(b: BankValue, a: Account, d: Denom): (r: nat)
    ensures (a, d) in b.balances ==> r == b.balances[(a, d)]
    ensures (a, d) !in b.balances ==> r == 0
  {
    if (a, d) in b.balances then b.balances[(a, d)] else 0
  }

  function Supply(b: BankValue, d: Denom): (r: nat)
    ensures d in b.supply ==> r == b.supply[d]
    ensures d !in b.supply ==> r == 0
  {
    if d in b.supply then b.supply[d] else 0
  }

  function Minted(b: BankValue, a: Account, d: Denom, n: nat): BankValue {
    BankValue(b.balances[(a, d) := Balance(b, a, d) + n], b.supply[d := Supply(b, d) + n])
  }

  function Sent(b: BankValue, from: Account, to: Account, d: Denom, n: nat): BankValue
    requires n <= Balance(b, from, d)
  {
    var debited := b.(balances := b.balances[(from, d) := Balance(b, from, d) - n]);
    debited.(balances := debited.balances[(to, d) := Balance(debited, to, d) + n])
  }

  /** What the rest of the chain decides: whether the bank refuses a call for reasons of its own. */
  datatype Env = Env(mintFails: bool, sendFails: bool)

  class Bank {
    var balances: map<(Account, Denom), nat>
    var supply: map<Denom, nat>

    constructor ()
      ensures Value() == BankValue(map[], map[])
    {
      balances, supply := map[], map[];
    }

    function Value(): BankValue
      reads this
    {
      BankValue(balances, supply)
    }

    method MintCoins(moduleName: Account, d: Denom, n: nat, env: Env) returns (ok: bool)
      modifies this
      ensures ok == !env.mintFails
      ensures Value() == if ok then Minted(old(Value()), moduleName, d, n) else old(Value())
    {
      if env.mintFails {
        return false;
      }
      balances := balances[(moduleName, d) := Balance(Value(), moduleName, d) + n];
      supply := supply[d := Supply(Value(), d) + n];
      return true;
    }

    method SendCoinsFromModuleToModule(from: Account, to: Account, d: Denom, n: nat, env: Env) returns (ok: bool)
      modifies this
      ensures ok == (!env.sendFails && n <= Balance(old(Value()), from, d))
      ensures Value() == if ok then Sent(old(Value()), from, to, d, n) else old(Value())
    {
      if env.sendFails || Balance(Value(), from, d) < n {
        return false;
      }
      balances := balances[(from, d) := Balance(Value(), from, d) - n];
      balances := balances[(to, d) := Balance(Value(), to, d) + n];
      return true;
    }
  }

  // ------------------------------------------------------------ specification

  type Store = map<seq<byte>, Slice>

  /** The record the store holds; None is bytes that do not decode, on which `MustUnmarshal` panics. */
  function StoredParams(store: Store): Option<P.ParamsValue> {
    if PARAMS_KEY !in store then Some(P.EMPTY)
    else
      match P.Decoding(P.EMPTY, store[PARAMS_KEY], 0)
      case Done(p) => Some(p)
      case Failed(_, _) => None
  }

  datatype Reward = Skipped | Paid(denom: Denom, amount: nat) | BankError | Panic

  /** The outcome of a block under parameters p, and the bank it leaves. */
  function RewardStep(validDenom: Denom -> bool, p: P.ParamsValue, b: BankValue, env: Env): (BankValue, Reward) {
    if !p.enabled then (b, Skipped)
    else if p.amount == Unset then (b, Panic)
    else if p.amount.value == 0 then (b, Skipped)
    else if p.amount.value < 0 || !validDenom(p.denom) then (b, Panic)
    else if env.mintFails then (b, BankError)
    else
      var minted := Minted(b, MODULE, p.denom, p.amount.value);
      if env.sendFails then (minted, BankError)
      else (Sent(minted, MODULE, FEE_COLLECTOR, p.denom, p.amount.value), Paid(p.denom, p.amount.value))
  }

  /** A reward is due in a denomination a coin can have. */
  predicate Due(validDenom: Denom -> bool, p: P.ParamsValue) {
    p.enabled && p.amount.Set? && p.amount.value > 0 && validDenom(p.denom)
  }

  /** What a block answers under parameters p. */
  ghost predicate Answers(validDenom: Denom -> bool, p: P.ParamsValue, env: Env, r: Reward) {
    && (r == Skipped <==> !p.enabled || p.amount == Set(0))
    && (r == BankError <==> Due(validDenom, p) && (env.mintFails || env.sendFails))
    && (r.Paid? <==> Due(validDenom, p) && !env.mintFails && !env.sendFails)
    && (r.Paid? ==> r == Paid(p.denom, p.amount.value))
    && (r == Panic <==> p.enabled && p.amount != Set(0) && !Due(validDenom, p))
  }

  /** n more of d, all of it in one account; every other balance as before. */
  ghost predicate Credited(before: BankValue, after: BankValue, to: Account, d: Denom, n: nat) {
    && (forall e :: Supply(after, e) == Supply(before, e) + if e == d then n else 0)
    && (forall a, e :: Balance(after, a, e) == Balance(before, a, e) + if a == to && e == d then n else 0)
  }

  /** What a block leaves in the bank under parameters p, before any failure is undone. */
  ghost predicate Leaves(p: P.ParamsValue, env: Env, r: Reward, before: BankValue, after: BankValue) {
    if r.Paid? then Credited(before, after, FEE_COLLECTOR, r.denom, r.amount)
    else if r == BankError && !env.mintFails then
      p.amount.Set? && p.amount.value >= 0 && Credited(before, after, MODULE, p.denom, p.amount.value)
    else after == before
  }

  /** The block reward, told without the steps that lead to it. */
  lemma RewardAnswers(validDenom: Denom -> bool, p: P.ParamsValue, b: BankValue, env: Env)
    ensures Answers(validDenom, p, env, RewardStep(validDenom, p, b, env).1)
    ensures Leaves(p, env, RewardStep(validDenom, p, b, env).1, b, RewardStep(validDenom, p, b, env).0)
  {
  }

  // ------------------------------------------------------------------ keeper

  class Keeper {
    const authority: seq<byte>
    /** `sdk.NewCoin`'s check of a denomination. */
    const validDenom: Denom -> bool
    const bank: Bank
    var store: Store

    constructor (authority: seq<byte>, validDenom: Denom -> bool, bank: Bank)
      ensures this.authority == authority && this.validDenom == validDenom && this.bank == bank
      ensures store == map[]
    {
      this.authority, this.validDenom, this.bank, store := authority, validDenom, bank, map[];
    }

    method GetParams() returns (r: Option<P.ParamsValue>)
      ensures r == StoredParams(store)
    {
      hide P.Decoding;
      var params := new P.Params();
      if PARAMS_KEY !in store {
        return Some(params.Value());
      }
      var err := params.Unmarshal(store[PARAMS_KEY]);
      if err.Some? {
        return None;
      }
      return Some(params.Value());
    }

    method SetParams(params: P.ParamsValue)
      requires P.Fits(params)
      modifies this`store
      ensures store == old(store)[PARAMS_KEY := P.Encoding(params)]
    {
      hide P.Encoding;
      var m := new P.Params();
      m.MintDenom, m.MintAmount, m.MintEnabled := params.denom, params.amount, params.enabled;
      var bz := m.Marshal();
      store := store[PARAMS_KEY := bz[..]];
    }

    method MintFixedBlockReward(env: Env) returns (r: Reward)
      modifies bank
      ensures match StoredParams(store)
              case None => r == Panic && bank.Value() == old(bank.Value())
              case Some(p) => (bank.Value(), r) == RewardStep(validDenom, p, old(bank.Value()), env)
      ensures StoredParams(store).Some? ==>
        && Answers(validDenom, StoredParams(store).value, env, r)
        && Leaves(StoredParams(store).value, env, r, old(bank.Value()), bank.Value())
    {
      hide StoredParams, Answers, Leaves;
      if StoredParams(store).Some? {
        RewardAnswers(validDenom, StoredParams(store).value, bank.Value(), env);
      }
      var got := GetParams();
      if got.None? {
        return Panic;
      }
      var params := got.value;
      if !params.enabled {
        return Skipped;
      }
      if params.amount == Unset {
        return Panic;
      }
      if params.amount.value == 0 {
        return Skipped;
      }
      if params.amount.value < 0 || !validDenom(params.denom) {
        return Panic;
      }
      var amount: nat := params.amount.value;
      var ok := bank.MintCoins(MODULE, params.denom, amount, env);
      if !ok {
        return BankError;
      }
      ok := bank.SendCoinsFromModuleToModule(MODULE, FEE_COLLECTOR, params.denom, amount, env);
      if !ok {
        return BankError;
      }
      return Paid(params.denom, amount);
    }

    method UpdateParams(req: M.MsgUpdateParams) returns (ok: bool)
      requires P.Fits(req.Params.Value())
      modifies this`store
      ensures ok == (req.Authority == authority)
      ensures store == if ok then old(store)[PARAMS_KEY := P.Encoding(req.Params.Value())] else old(store)
    {
      if authority != req.Authority {
        return false;
      }
      SetParams(req.Params.Value());
      return true;
    }

    method InitGenesis(genState: M.GenesisValue)
      requires P.Fits(genState.params)
      modifies this`store
      ensures store == old(store)[PARAMS_KEY := P.Encoding(genState.params)]
    {
      SetParams(genState.params);
    }

    /** None when the stored bytes do not decode. */
    method ExportGenesis() returns (r: Option<M.GenesisState>)
      ensures r.Some? <==> StoredParams(store).Some?
      ensures r.Some? ==> fresh(r.value) && fresh(r.value.Params)
      ensures r.Some? ==> r.value.Value() == M.GenesisValue(StoredParams(store).value)
    {
      hide StoredParams;
      var genesis := new M.GenesisState();
      genesis.Params.MintDenom, genesis.Params.MintAmount, genesis.Params.MintEnabled :=
        DEFAULT_PARAMS.denom, DEFAULT_PARAMS.amount, DEFAULT_PARAMS.enabled;
      var got := GetParams();
      if got.None? {
        return None;
      }
      genesis.Params.MintDenom, genesis.Params.MintAmount, genesis.Params.MintEnabled :=
        got.value.denom, got.value.amount, got.value.enabled;
      return Some(genesis);
    }
  }
}
