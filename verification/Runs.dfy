/**
 Whole runs of the module: genesis, blocks, parameter updates, queries, exports and
 other accounts' transfers in any order.  One machine keeps the parameters as bytes in
 the store, as the keeper does; the other keeps the record itself.  A block that fails
 is not committed.
 */
module Runs {
  import opened Bits
  import opened Wire
  import opened AmountText
  import opened Keeper
  import P = ParamsCodec
  import L = ParamsLaws
  import M = Messages

  datatype Op =
    | Genesis(params: P.ParamsValue)
    | Block(env: Env)
    | Update(req: M.MsgValue)
    | Query
    | Export
    | Transfer(from: Account, to: Account, denom: Denom, amount: nat)

  datatype Output =
    | Ack
    | Refused
    | Rewarded(reward: Reward)
    | Reported(params: P.ParamsValue)
    | Halted

  datatype Config = Config(authority: seq<byte>, validDenom: Denom -> bool)

  /** The records in an operation have encodings a Go slice can hold. */
  predicate OpFits(op: Op) {
    (op.Genesis? ==> P.Fits(op.params)) && (op.Update? ==> P.Fits(op.req.params))
  }

  predicate AllFit(ops: seq<Op>) {
    forall i :: 0 <= i < |ops| ==> OpFits(ops[i])
  }

  /** The bank after a block: a failed one leaves no trace. */
  function Committed(before: BankValue, after: BankValue, r: Reward): BankValue {
    if r.Paid? then after else before
  }

  function TransferStep(b: BankValue, op: Op): (BankValue, Output)
    requires op.Transfer?
  {
    if op.amount <= Balance(b, op.from, op.denom) then (Sent(b, op.from, op.to, op.denom, op.amount), Ack)
    else (b, Refused)
  }

  // --------------------------------------------------------- the byte machine

  datatype ByteState = ByteState(store: Store, bank: BankValue)

  function StoreStep(st: ByteState, p: P.ParamsValue): ByteState
    requires P.Fits(p)
  {
    st.(store := st.store[PARAMS_KEY := P.Encoding(p)])
  }

  function ByteStep(c: Config, st: ByteState, op: Op): (ByteState, Output)
    requires OpFits(op)
  {
    match op
    case Genesis(p) => (StoreStep(st, p), Ack)
    case Update(req) =>
      if req.authority == c.authority then (StoreStep(st, req.params), Ack) else (st, Refused)
    case Transfer(_, _, _, _) =>
      var (b, out) := TransferStep(st.bank, op);
      (st.(bank := b), out)
    case Block(env) =>
      (match StoredParams(st.store)
       case None => (st, Rewarded(Panic))
       case Some(p) =>
         var (b, r) := RewardStep(c.validDenom, p, st.bank, env);
         (st.(bank := Committed(st.bank, b, r)), Rewarded(r)))
    case _ =>
      match StoredParams(st.store)
      case None => (st, Halted)
      case Some(p) => (st, Reported(p))
  }

  function ByteRun(c: Config, st: ByteState, ops: seq<Op>): (r: (ByteState, seq<Output>))
    requires AllFit(ops)
    ensures |r.1| == |ops|
    decreases |ops|
  {
    if ops == [] then (st, [])
    else
      var (st', out) := ByteStep(c, st, ops[0]);
      var (last, outs) := ByteRun(c, st', ops[1..]);
      (last, [out] + outs)
  }

  /** The keeper and its bank, driven operation by operation. */
  class Chain {
    const keeper: Keeper

    constructor (keeper: Keeper)
      ensures this.keeper == keeper
    {
      this.keeper := keeper;
    }

    function State(): ByteState
      reads keeper, keeper.bank
    {
      ByteState(keeper.store, keeper.bank.Value())
    }

    function Settings(): Config {
      Config(keeper.authority, keeper.validDenom)
    }

    /** A block, with the bank put back when it fails. */
    method DeliverBlock(env: Env) returns (out: Output)
      modifies keeper.bank
      ensures (State(), out) == ByteStep(Settings(), old(State()), Block(env))
    {
      hide StoredParams, RewardStep;
      var bank := keeper.bank;
      var balances, supply := bank.balances, bank.supply;
      var r := keeper.MintFixedBlockReward(env);
      if !r.Paid? {
        bank.balances, bank.supply := balances, supply;
      }
      return Rewarded(r);
    }

    method Deliver(op: Op) returns (out: Output)
      requires OpFits(op)
      modifies keeper`store, keeper.bank
      ensures (State(), out) == ByteStep(Settings(), old(State()), op)
    {
      hide StoredParams, RewardStep, P.Encoding;
      match op {
        case Genesis(params) =>
          keeper.InitGenesis(M.GenesisValue(params));
          out := Ack;
        case Block(env) =>
          out := DeliverBlock(env);
        case Update(value) =>
          var req := new M.MsgUpdateParams();
          req.Authority := value.authority;
          req.Params.MintDenom, req.Params.MintAmount, req.Params.MintEnabled :=
            value.params.denom, value.params.amount, value.params.enabled;
          var ok := keeper.UpdateParams(req);
          out := if ok then Ack else Refused;
        case Query =>
          var params := keeper.GetParams();
          out := if params.None? then Halted else Reported(params.value);
        case Export =>
          var genesis := keeper.ExportGenesis();
          out := if genesis.None? then Halted else Reported(genesis.value.Params.Value());
        case Transfer(from, to, denom, amount) =>
          var ok := keeper.bank.SendCoinsFromModuleToModule(from, to, denom, amount, Env(false, false));
          out := if ok then Ack else Refused;
      }
    }

    method DeliverAll(ops: seq<Op>) returns (outs: seq<Output>)
      requires AllFit(ops)
      modifies keeper`store, keeper.bank
      ensures (State(), outs) == ByteRun(Settings(), old(State()), ops)
    {
      hide ByteStep, ByteRun;
      outs := [];
      assert ops[0..] == ops;
      ghost var c, start := Settings(), State();
      for i := 0 to |ops|
        invariant Settings() == c && |outs| == i
        invariant ByteRun(c, start, ops).0 == ByteRun(c, State(), ops[i..]).0
        invariant ByteRun(c, start, ops).1 == outs + ByteRun(c, State(), ops[i..]).1
      {
        ghost var before := State();
        var out := Deliver(ops[i]);
        ByteRunStep(c, before, ops, i);
        Snoc(outs, out, ByteRun(c, State(), ops[i + 1..]).1);
        outs := outs + [out];
      }
      ByteRunEnd(c, State(), ops);
      assert outs + [] == outs;
      assert ByteRun(c, start, ops) == (State(), outs) by { PairOf(ByteRun(c, start, ops), State(), outs); }
    }
  }

  lemma ByteRunStep(c: Config, st: ByteState, ops: seq<Op>, i: nat)
    requires i < |ops| && AllFit(ops)
    ensures var (st', out) := ByteStep(c, st, ops[i]);
            && ByteRun(c, st, ops[i..]).0 == ByteRun(c, st', ops[i + 1..]).0
            && ByteRun(c, st, ops[i..]).1 == [out] + ByteRun(c, st', ops[i + 1..]).1
  {
    hide ByteStep;
    assert ops[i..][1..] == ops[i + 1..];
  }

  lemma ByteRunEnd(c: Config, st: ByteState, ops: seq<Op>)
    requires AllFit(ops)
    ensures ByteRun(c, st, ops[|ops|..]).0 == st && ByteRun(c, st, ops[|ops|..]).1 == []
  {
    assert ops[|ops|..] == [];
  }

  lemma Snoc(outs: seq<Output>, out: Output, rest: seq<Output>)
    ensures outs + ([out] + rest) == outs + [out] + rest
  {
  }

  lemma PairOf(r: (ByteState, seq<Output>), st: ByteState, outs: seq<Output>)
    requires r.0 == st && r.1 == outs
    ensures r == (st, outs)
  {
  }

  // ------------------------------------------------------- the record machine

  datatype RecordState = RecordState(params: P.ParamsValue, bank: BankValue)

  function RecordStep(c: Config, st: RecordState, op: Op): (RecordState, Output) {
    match op
    case Genesis(p) => (st.(params := P.Settled(p)), Ack)
    case Update(req) =>
      if req.authority == c.authority then (st.(params := P.Settled(req.params)), Ack) else (st, Refused)
    case Transfer(_, _, _, _) =>
      var (b, out) := TransferStep(st.bank, op);
      (st.(bank := b), out)
    case Block(env) =>
      var (b, r) := RewardStep(c.validDenom, st.params, st.bank, env);
      (st.(bank := Committed(st.bank, b, r)), Rewarded(r))
    case _ => (st, Reported(st.params))
  }

  function RecordRun(c: Config, st: RecordState, ops: seq<Op>): (r: (RecordState, seq<Output>))
    ensures |r.1| == |ops|
    decreases |ops|
  {
    if ops == [] then (st, [])
    else
      var (st', out) := RecordStep(c, st, ops[0]);
      var (last, outs) := RecordRun(c, st', ops[1..]);
      (last, [out] + outs)
  }

  // --------------------------------------------------------------- refinement

  /** Decoding the stored bytes gives the record. */
  predicate Refines(b: ByteState, r: RecordState) {
    StoredParams(b.store) == Some(r.params) && b.bank == r.bank
  }

  lemma StoreRefines(b: ByteState, r: RecordState, p: P.ParamsValue)
    requires P.Fits(p) && b.bank == r.bank
    ensures Refines(StoreStep(b, p), r.(params := P.Settled(p)))
  {
    hide P.Decoding, P.Encoding;
    L.RoundTrip(p);
  }

  lemma StepRefines(c: Config, b: ByteState, r: RecordState, op: Op)
    requires OpFits(op)
    requires Refines(b, r)
    ensures Refines(ByteStep(c, b, op).0, RecordStep(c, r, op).0)
    ensures ByteStep(c, b, op).1 == RecordStep(c, r, op).1
  {
    hide StoredParams, StoreStep, RewardStep, TransferStep;
    match op
    case Genesis(p) => StoreRefines(b, r, p);
    case Update(req) => StoreRefines(b, r, req.params);
    case _ =>
  }

  /** Over every run the two machines answer alike, pay alike and stay related. */
  lemma {:induction false} RunRefines(c: Config, b: ByteState, r: RecordState, ops: seq<Op>)
    requires AllFit(ops)
    requires Refines(b, r)
    ensures Refines(ByteRun(c, b, ops).0, RecordRun(c, r, ops).0)
    ensures ByteRun(c, b, ops).1 == RecordRun(c, r, ops).1
    decreases |ops|
  {
    hide Refines, ByteStep, RecordStep;
    if ops != [] {
      assert OpFits(ops[0]);
      StepRefines(c, b, r, ops[0]);
      RunRefines(c, ByteStep(c, b, ops[0]).0, RecordStep(c, r, ops[0]).0, ops[1..]);
    }
  }

  /** An empty store stands for the empty record. */
  lemma EmptyStoreRefines(bank: BankValue)
    ensures Refines(ByteState(map[], bank), RecordState(P.EMPTY, bank))
  {
  }

  // -------------------------------------------------------------- accounting

  /** Whether a block under p pays its reward. */
  predicate Pays(c: Config, p: P.ParamsValue, env: Env) {
    Due(c.validDenom, p) && !env.mintFails && !env.sendFails
  }

  /** The parameters in force after an operation. */
  function ParamsAfter(c: Config, p: P.ParamsValue, op: Op): P.ParamsValue {
    match op
    case Genesis(g) => P.Settled(g)
    case Update(req) => if req.authority == c.authority then P.Settled(req.params) else p
    case _ => p
  }

  /** What one operation pays in denomination d. */
  function RewardIn(c: Config, p: P.ParamsValue, op: Op, d: Denom): nat {
    if op.Block? && Pays(c, p, op.env) && p.denom == d then p.amount.value else 0
  }

  /** The sum of the rewards in denomination d under the parameters in force at each block. */
  function Rewards(c: Config, p: P.ParamsValue, ops: seq<Op>, d: Denom): nat
    decreases |ops|
  {
    if ops == [] then 0
    else
      RewardIn(c, p, ops[0], d) + Rewards(c, ParamsAfter(c, p, ops[0]), ops[1..], d)
  }

  /** What account a gained or lost in d by the transfers that were acknowledged. */
  function NetTransfers(ops: seq<Op>, outs: seq<Output>, a: Account, d: Denom): int
    requires |ops| == |outs|
  {
    if ops == [] then 0
    else TransferGain(ops[0], outs[0], a, d) + NetTransfers(ops[1..], outs[1..], a, d)
  }

  function TransferGain(op: Op, out: Output, a: Account, d: Denom): int {
    if op.Transfer? && out == Ack && op.denom == d then
      (if op.to == a then op.amount else 0) - (if op.from == a then op.amount else 0)
    else 0
  }

  lemma StepAccounting(c: Config, st: RecordState, op: Op, a: Account, d: Denom)
    ensures var (st', out) := RecordStep(c, st, op);
            var reward := RewardIn(c, st.params, op, d);
            && st'.params == ParamsAfter(c, st.params, op)
            && Supply(st'.bank, d) == Supply(st.bank, d) + reward
            && Balance(st'.bank, a, d)
               == Balance(st.bank, a, d) + (if a == FEE_COLLECTOR then reward else 0) + TransferGain(op, out, a, d)
  {
  }

  /**
   Supply grows by exactly the rewards, all of them credited to the fee collector; every
   other balance, the module's own included, moves only by transfers.
   */
  lemma {:induction false} Accounting(c: Config, st: RecordState, ops: seq<Op>, a: Account, d: Denom)
    ensures var (last, outs) := RecordRun(c, st, ops);
            && Supply(last.bank, d) == Supply(st.bank, d) + Rewards(c, st.params, ops, d)
            && Balance(last.bank, a, d)
               == Balance(st.bank, a, d) + (if a == FEE_COLLECTOR then Rewards(c, st.params, ops, d) else 0)
                  + NetTransfers(ops, outs, a, d)
    decreases |ops|
  {
    hide RecordStep, Pays, Supply, Balance;
    if ops != [] {
      StepAccounting(c, st, ops[0], a, d);
      var (st', out) := RecordStep(c, st, ops[0]);
      Accounting(c, st', ops[1..], a, d);
      var outs := RecordRun(c, st, ops).1;
      assert outs[0] == out && outs[1..] == RecordRun(c, st', ops[1..]).1;
    }
  }

  /** The same for the keeper's own machine, from an empty store. */
  lemma StoreAccounting(c: Config, bank: BankValue, ops: seq<Op>, a: Account, d: Denom)
    requires AllFit(ops)
    ensures var (last, outs) := ByteRun(c, ByteState(map[], bank), ops);
            && Supply(last.bank, d) == Supply(bank, d) + Rewards(c, P.EMPTY, ops, d)
            && Balance(last.bank, a, d)
               == Balance(bank, a, d) + (if a == FEE_COLLECTOR then Rewards(c, P.EMPTY, ops, d) else 0)
                  + NetTransfers(ops, outs, a, d)
  {
    hide ByteRun, RecordRun, Rewards, NetTransfers, Supply, Balance;
    EmptyStoreRefines(bank);
    RunRefines(c, ByteState(map[], bank), RecordState(P.EMPTY, bank), ops);
    Accounting(c, RecordState(P.EMPTY, bank), ops, a, d);
  }

  // ------------------------------------------------------------- module balance

  /** Nobody pays the module account. */
  predicate NobodyPays(ops: seq<Op>) {
    forall i :: 0 <= i < |ops| ==> !(ops[i].Transfer? && ops[i].to == MODULE && ops[i].amount > 0)
  }

  lemma {:induction false} RecordModuleStaysEmpty(c: Config, st: RecordState, ops: seq<Op>, d: Denom)
    requires Balance(st.bank, MODULE, d) == 0
    requires NobodyPays(ops)
    ensures Balance(RecordRun(c, st, ops).0.bank, MODULE, d) == 0
    decreases |ops|
  {
    hide RecordStep, Balance;
    if ops != [] {
      assert !(ops[0].Transfer? && ops[0].to == MODULE && ops[0].amount > 0);
      StepAccounting(c, st, ops[0], MODULE, d);
      RecordModuleStaysEmpty(c, RecordStep(c, st, ops[0]).0, ops[1..], d);
    }
  }

  /**
   `ModuleAccountInvariant`: on any store that decodes, an empty module account stays
   empty as long as nobody else pays it.
   */
  lemma ModuleAccountStaysEmpty(c: Config, st: ByteState, ops: seq<Op>, d: Denom)
    requires AllFit(ops)
    requires StoredParams(st.store).Some?
    requires Balance(st.bank, MODULE, d) == 0
    requires NobodyPays(ops)
    ensures Balance(ByteRun(c, st, ops).0.bank, MODULE, d) == 0
  {
    hide ByteRun, RecordRun, StoredParams, Balance, NobodyPays;
    var r := RecordState(StoredParams(st.store).value, st.bank);
    RunRefines(c, st, r, ops);
    RecordModuleStaysEmpty(c, r, ops, d);
  }

  // -------------------------------------------------------- reachable parameters

  /** An unset amount occurs only with minting disabled, so minting never looks at it. */
  lemma {:induction false} UnsetOnlyWhenDisabled(c: Config, st: RecordState, ops: seq<Op>)
    requires st.params.amount == Unset ==> !st.params.enabled
    ensures var p := RecordRun(c, st, ops).0.params; p.amount == Unset ==> !p.enabled
    decreases |ops|
  {
    hide RewardStep, TransferStep;
    if ops != [] {
      UnsetOnlyWhenDisabled(c, RecordStep(c, st, ops[0]).0, ops[1..]);
    }
  }

  /** Every genesis and every update that the authority sends passes `Validate`. */
  predicate Validated(c: Config, ops: seq<Op>) {
    forall i :: 0 <= i < |ops| ==>
      && (ops[i].Genesis? ==> Validate(ops[i].params) == Valid)
      && (ops[i].Update? && ops[i].req.authority == c.authority ==> Validate(ops[i].req.params) == Valid)
  }

  /** Then the stored parameters pass `Validate` in every state after genesis. */
  lemma {:induction false} StoredParamsStayValid(c: Config, st: RecordState, ops: seq<Op>)
    requires Validate(st.params) == Valid
    requires Validated(c, ops)
    ensures Validate(RecordRun(c, st, ops).0.params) == Valid
    decreases |ops|
  {
    hide RewardStep, TransferStep;
    if ops != [] {
      var op := ops[0];
      assert op.Genesis? ==> Validate(op.params) == Valid;
      StoredParamsStayValid(c, RecordStep(c, st, op).0, ops[1..]);
    }
  }

  /** A block under such parameters halts exactly when minting is on, the amount positive and the denomination unusable. */
  lemma ValidParamsHaltOnlyOnDenom(c: Config, p: P.ParamsValue, bank: BankValue, env: Env)
    requires Validate(p) == Valid
    ensures RewardStep(c.validDenom, p, bank, env).1 == Panic
       <==> p.enabled && p.amount.value > 0 && !c.validDenom(p.denom)
  {
  }

  /** The whole of it on the keeper's machine: from any store, through genesis and a validated run. */
  lemma ReachableParamsAreValid(c: Config, store: Store, bank: BankValue, g: P.ParamsValue, ops: seq<Op>)
    requires P.Fits(g) && AllFit(ops)
    requires Validate(g) == Valid && Validated(c, ops)
    ensures var st := ByteRun(c, ByteStep(c, ByteState(store, bank), Genesis(g)).0, ops).0;
            StoredParams(st.store).Some? && Validate(StoredParams(st.store).value) == Valid
  {
    hide ByteRun, RecordRun, StoredParams, StoreStep;
    var b, r := ByteState(store, bank), RecordState(P.EMPTY, bank);
    StoreRefines(b, r, g);
    RunRefines(c, StoreStep(b, g), r.(params := P.Settled(g)), ops);
    StoredParamsStayValid(c, r.(params := P.Settled(g)), ops);
  }

  /** So, after a genesis and any validated run, that is the only way a block can halt the chain. */
  lemma ReachableBlocksHaltOnlyOnDenom(c: Config, store: Store, bank: BankValue, g: P.ParamsValue, ops: seq<Op>, env: Env)
    requires P.Fits(g) && AllFit(ops)
    requires Validate(g) == Valid && Validated(c, ops)
    ensures var st := ByteRun(c, ByteStep(c, ByteState(store, bank), Genesis(g)).0, ops).0;
            match StoredParams(st.store)
            case None => false
            case Some(p) =>
              && p.amount.Set?
              && (ByteStep(c, st, Block(env)).1 == Rewarded(Panic)
                  <==> p.enabled && p.amount.value > 0 && !c.validDenom(p.denom))
  {
    hide ByteRun, StoredParams, RewardStep, StoreStep;
    ReachableParamsAreValid(c, store, bank, g, ops);
    var st := ByteRun(c, ByteStep(c, ByteState(store, bank), Genesis(g)).0, ops).0;
    ValidParamsHaltOnlyOnDenom(c, StoredParams(st.store).value, st.bank, env);
  }

  /**
   In every state reached from a store that decodes, a block answers as the stored
   parameters say, never touches the store, and leaves the bank as it was unless it pays
   the fee collector.
   */
  lemma BlockAnswers(c: Config, st: ByteState, ops: seq<Op>, env: Env)
    requires AllFit(ops)
    requires StoredParams(st.store).Some?
    ensures var last := ByteRun(c, st, ops).0;
            var (after, out) := ByteStep(c, last, Block(env));
            match StoredParams(last.store)
            case None => false
            case Some(p) =>
              && after.store == last.store
              && out.Rewarded?
              && Answers(c.validDenom, p, env, out.reward)
              && if out.reward.Paid? then Credited(last.bank, after.bank, FEE_COLLECTOR, p.denom, out.reward.amount)
                 else after.bank == last.bank
  {
    hide ByteRun, RecordRun, StoredParams, RewardStep, Answers, Credited;
    RunRefines(c, st, RecordState(StoredParams(st.store).value, st.bank), ops);
    var last := ByteRun(c, st, ops).0;
    RewardAnswers(c.validDenom, StoredParams(last.store).value, last.bank, env);
  }

  /** There a query and an export answer the record last set, and change nothing. */
  lemma QueriesReportLastSet(c: Config, st: ByteState, ops: seq<Op>, op: Op)
    requires AllFit(ops)
    requires StoredParams(st.store).Some?
    requires op.Query? || op.Export?
    ensures var last := ByteRun(c, st, ops).0;
            ByteStep(c, last, op) == (last, Reported(LastSet(c, StoredParams(st.store).value, ops)))
  {
    hide ByteRun, StoredParams, LastSet;
    ParamsAreLastSet(c, st, ops);
  }

  /** An update is taken exactly when the authority sends it; a genesis always is. */
  lemma UpdateExactlyWhen(c: Config, st: ByteState, op: Op)
    requires OpFits(op)
    requires op.Genesis? || op.Update?
    ensures var (after, out) := ByteStep(c, st, op);
            && after.bank == st.bank
            && after.store - {PARAMS_KEY} == st.store - {PARAMS_KEY}
            && (out == Ack <==> op.Genesis? || op.req.authority == c.authority)
            && (out == Ack ==>
                StoredParams(after.store) == Some(P.Settled(if op.Genesis? then op.params else op.req.params)))
            && (out != Ack ==> (after, out) == (st, Refused))
  {
    hide StoredParams;
    if op.Genesis? {
      StoreRefines(st, RecordState(op.params, st.bank), op.params);
    } else if op.req.authority == c.authority {
      StoreRefines(st, RecordState(op.req.params, st.bank), op.req.params);
    }
  }

  /** A transfer goes through exactly when the sender has the amount; it moves that and nothing else. */
  lemma TransferExactlyWhen(c: Config, st: ByteState, op: Op)
    requires op.Transfer?
    ensures var (after, out) := ByteStep(c, st, op);
            && after.store == st.store
            && (out == Ack <==> op.amount <= Balance(st.bank, op.from, op.denom))
            && (out != Ack ==> (after, out) == (st, Refused))
            && (forall d :: Supply(after.bank, d) == Supply(st.bank, d))
            && (out == Ack ==> forall a, d ::
                Balance(after.bank, a, d) + (if a == op.from && d == op.denom then op.amount else 0)
                == Balance(st.bank, a, d) + (if a == op.to && d == op.denom then op.amount else 0))
  {
  }

  /** A reachable store never fails to decode and never makes minting look at an unset amount. */
  lemma ReachableStoreDecodes(c: Config, bank: BankValue, ops: seq<Op>)
    requires AllFit(ops)
    ensures var st := ByteRun(c, ByteState(map[], bank), ops).0;
            && StoredParams(st.store).Some?
            && (StoredParams(st.store).value.amount == Unset ==> !StoredParams(st.store).value.enabled)
  {
    hide ByteRun, RecordRun, StoredParams;
    EmptyStoreRefines(bank);
    RunRefines(c, ByteState(map[], bank), RecordState(P.EMPTY, bank), ops);
    UnsetOnlyWhenDisabled(c, RecordState(P.EMPTY, bank), ops);
  }

  /** A genesis, or an update that the authority sends. */
  predicate SetsParams(c: Config, op: Op) {
    op.Genesis? || (op.Update? && op.req.authority == c.authority)
  }

  /** The record the last such operation carries, settled; `start` when there is none. */
  function LastSet(c: Config, start: P.ParamsValue, ops: seq<Op>): P.ParamsValue
    decreases |ops|
  {
    if ops == [] then start
    else
      var op := ops[|ops| - 1];
      if !SetsParams(c, op) then LastSet(c, start, ops[..|ops| - 1])
      else P.Settled(if op.Genesis? then op.params else op.req.params)
  }

  lemma {:induction false} LastSetCons(c: Config, start: P.ParamsValue, op: Op, ops: seq<Op>)
    ensures LastSet(c, start, [op] + ops) == LastSet(c, ParamsAfter(c, start, op), ops)
    decreases |ops|
  {
    if ops == [] {
      assert [op] + ops == [op];
      assert [op][..0] == [];
    } else {
      var front := ops[..|ops| - 1];
      assert ([op] + ops)[..|ops|] == [op] + front;
      LastSetCons(c, start, op, front);
    }
  }

  lemma {:induction false} RecordParamsAreLastSet(c: Config, st: RecordState, ops: seq<Op>)
    ensures RecordRun(c, st, ops).0.params == LastSet(c, st.params, ops)
    decreases |ops|
  {
    hide RecordStep, LastSet;
    if ops == [] {
      assert LastSet(c, st.params, []) == st.params by { NothingSet(c, st.params); }
    } else {
      StepAccounting(c, st, ops[0], MODULE, []);
      LastSetCons(c, st.params, ops[0], ops[1..]);
      assert [ops[0]] + ops[1..] == ops;
      RecordParamsAreLastSet(c, RecordStep(c, st, ops[0]).0, ops[1..]);
    }
  }

  lemma NothingSet(c: Config, start: P.ParamsValue)
    ensures LastSet(c, start, []) == start
  {
  }

  /** After any run the store holds what the last genesis or authorised update carried. */
  lemma ParamsAreLastSet(c: Config, st: ByteState, ops: seq<Op>)
    requires AllFit(ops)
    requires StoredParams(st.store).Some?
    ensures StoredParams(ByteRun(c, st, ops).0.store) == Some(LastSet(c, StoredParams(st.store).value, ops))
  {
    hide ByteRun, RecordRun, StoredParams, LastSet;
    var r := RecordState(StoredParams(st.store).value, st.bank);
    RunRefines(c, st, r, ops);
    RecordParamsAreLastSet(c, r, ops);
  }

  /** Over a run with neither, not a byte of the store changes, and every update is refused. */
  lemma {:induction false} OthersChangeNoParams(c: Config, st: ByteState, ops: seq<Op>)
    requires AllFit(ops)
    requires forall i :: 0 <= i < |ops| ==> !SetsParams(c, ops[i])
    ensures ByteRun(c, st, ops).0.store == st.store
    ensures forall i :: 0 <= i < |ops| && ops[i].Update? ==> ByteRun(c, st, ops).1[i] == Refused
    decreases |ops|
  {
    hide StoredParams, RewardStep, TransferStep;
    if ops != [] {
      assert OpFits(ops[0]) && !SetsParams(c, ops[0]);
      var (st', out) := ByteStep(c, st, ops[0]);
      OthersChangeNoParams(c, st', ops[1..]);
      var outs := ByteRun(c, st, ops).1;
      assert outs == [out] + ByteRun(c, st', ops[1..]).1;
      forall i | 0 <= i < |ops| && ops[i].Update?
        ensures outs[i] == Refused
      {
        if i > 0 { assert ops[i] == ops[1..][i - 1]; }
      }
    }
  }

  // ------------------------------------------------------- export and import

  /** The state of a fresh keeper that imported what this one exports. */
  function Reimported(st: ByteState, p: P.ParamsValue): ByteState
    requires P.Fits(p)
  {
    StoreStep(ByteState(map[], st.bank), p)
  }

  /** Both answer every later run alike. */
  ghost predicate AgreeOnRuns(c: Config, a: ByteState, b: ByteState) {
    forall ops :: AllFit(ops) ==> ByteRun(c, a, ops).1 == ByteRun(c, b, ops).1
  }

  /** Export then import preserves behaviour exactly when the exported amount was set. */
  lemma ExportImport(c: Config, st: ByteState, p: P.ParamsValue)
    requires StoredParams(st.store) == Some(p) && P.Fits(p)
    ensures AgreeOnRuns(c, st, Reimported(st, p)) <==> p.amount.Set?
  {
    hide ByteRun, RecordRun, StoredParams, P.Fits;
    var r := RecordState(p, st.bank);
    StoreRefines(ByteState(map[], st.bank), r, p);
    if p.amount.Set? {
      forall ops | AllFit(ops)
        ensures ByteRun(c, st, ops).1 == ByteRun(c, Reimported(st, p), ops).1
      {
        RunRefines(c, st, r, ops);
        RunRefines(c, Reimported(st, p), r, ops);
      }
    } else {
      QueryTells(c, st, p);
      QueryTells(c, Reimported(st, p), P.Settled(p));
      assert AllFit([Query]);
      assert ByteRun(c, st, [Query]).1 != ByteRun(c, Reimported(st, p), [Query]).1;
    }
  }

  lemma QueryTells(c: Config, st: ByteState, p: P.ParamsValue)
    requires StoredParams(st.store) == Some(p)
    ensures AllFit([Query]) && ByteRun(c, st, [Query]).1 == [Reported(p)]
  {
    hide StoredParams;
    assert [Query][1..] == [];
    assert ByteRun(c, st, []).1 == [];
  }

  /** After a genesis the amount is set, so there every run is preserved. */
  lemma {:induction false} AmountStaysSet(c: Config, st: RecordState, ops: seq<Op>)
    requires st.params.amount.Set?
    ensures RecordRun(c, st, ops).0.params.amount.Set?
    decreases |ops|
  {
    hide RewardStep, TransferStep;
    if ops != [] {
      AmountStaysSet(c, RecordStep(c, st, ops[0]).0, ops[1..]);
    }
  }

  lemma {:induction false} ParamsStayFit(c: Config, st: RecordState, ops: seq<Op>)
    requires P.Fits(st.params) && AllFit(ops)
    ensures P.Fits(RecordRun(c, st, ops).0.params)
    decreases |ops|
  {
    hide P.Encoding, RewardStep, TransferStep;
    if ops != [] {
      assert OpFits(ops[0]);
      if ops[0].Genesis? {
        L.SettledWritesAlike(ops[0].params);
      } else if ops[0].Update? {
        L.SettledWritesAlike(ops[0].req.params);
      }
      ParamsStayFit(c, RecordStep(c, st, ops[0]).0, ops[1..]);
    }
  }

  lemma ExportImportAfterGenesis(c: Config, store: Store, bank: BankValue, g: P.ParamsValue, ops: seq<Op>)
    requires P.Fits(g) && AllFit(ops)
    ensures var st := ByteRun(c, StoreStep(ByteState(store, bank), g), ops).0;
            && StoredParams(st.store).Some? && P.Fits(StoredParams(st.store).value)
            && AgreeOnRuns(c, st, Reimported(st, StoredParams(st.store).value))
  {
    hide ByteRun, RecordRun, StoredParams, P.Fits, StoreStep;
    var b, r := StoreStep(ByteState(store, bank), g), RecordState(P.Settled(g), bank);
    StoreRefines(ByteState(store, bank), RecordState(P.EMPTY, bank), g);
    assert P.Fits(P.Settled(g)) by { SettledFits(g); }
    RunRefines(c, b, r, ops);
    AmountStaysSet(c, r, ops);
    ParamsStayFit(c, r, ops);
    ExportImport(c, ByteRun(c, b, ops).0, RecordRun(c, r, ops).0.params);
  }

  lemma SettledFits(p: P.ParamsValue)
    requires P.Fits(p)
    ensures P.Fits(P.Settled(p))
  {
    hide P.Encoding;
    L.SettledWritesAlike(p);
  }
}
