/**
 Preparing an export at height zero (app/export.go, up to the validator set update):
 unclaimed rewards are donated to the community pool, and the staking records lose
 every trace of the old heights.  The keepers' stores are maps; a store iterator is the
 sequence of keys it visits.
 */
module ZeroHeight {
  type Denom = string
  type Addr = string

  // ------------------------------------------------------------ decimal coins

  /** `DecCoins`, in units of the smallest decimal. */
  type DecCoins = map<Denom, nat>

  function Amount(c: DecCoins, d: Denom): (r: nat)
    ensures d in c ==> r == c[d]
    ensures d !in c ==> r == 0
  {
    if d in c then c[d] else 0
  }

  function Add(a: DecCoins, b: DecCoins): (r: DecCoins)
    ensures r.Keys == a.Keys + b.Keys
    ensures forall d :: d in r ==> r[d] == (if d in a then a[d] else 0) + (if d in b then b[d] else 0)
  {
    map d | d in a.Keys + b.Keys :: Amount(a, d) + Amount(b, d)
  }

  lemma AmountAdds(a: DecCoins, b: DecCoins, d: Denom)
    ensures Amount(Add(a, b), d) == Amount(a, d) + Amount(b, d)
  {
  }

  // ------------------------------------------------------------ distribution

  type Outstanding = map<Addr, DecCoins>

  function RewardsOf(out: Outstanding, v: Addr): (r: DecCoins)
    ensures v in out ==> r == out[v]
    ensures v !in out ==> r == map[]
  {
    if v in out then out[v] else map[]
  }

  /** What the given validators have outstanding, all together. */
  ghost function Total(vs: set<Addr>, out: Outstanding, d: Denom): nat {
    if vs == {} then 0
    else
      var v :| v in vs;
      Amount(RewardsOf(out, v), d) + Total(vs - {v}, out, d)
  }

  lemma {:induction false} TotalSplit(vs: set<Addr>, v: Addr, out: Outstanding, d: Denom)
    requires v in vs
    ensures Total(vs, out, d) == Amount(RewardsOf(out, v), d) + Total(vs - {v}, out, d)
    decreases vs
  {
    var w :| w in vs && Total(vs, out, d) == Amount(RewardsOf(out, w), d) + Total(vs - {w}, out, d);
    if w != v {
      TotalSplit(vs - {w}, v, out, d);
      TotalSplit(vs - {v}, w, out, d);
      assert vs - {w} - {v} == vs - {v} - {w};
    }
  }

  lemma {:induction false} TotalFrame(vs: set<Addr>, a: Outstanding, b: Outstanding, d: Denom)
    requires forall v :: v in vs ==> RewardsOf(a, v) == RewardsOf(b, v)
    ensures Total(vs, a, d) == Total(vs, b, d)
    decreases vs
  {
    if vs != {} {
      var v :| v in vs;
      TotalSplit(vs, v, a, d);
      TotalSplit(vs, v, b, d);
      TotalFrame(vs - {v}, a, b, d);
    }
  }

  lemma {:induction false} TotalOfEmpty(vs: set<Addr>, out: Outstanding, d: Denom)
    requires forall v :: v in vs ==> RewardsOf(out, v) == map[]
    ensures Total(vs, out, d) == 0
    decreases vs
  {
    if vs != {} {
      var v :| v in vs;
      TotalSplit(vs, v, out, d);
      TotalOfEmpty(vs - {v}, out, d);
    }
  }

  /** Community pool and outstanding rewards. */
  datatype Funds = Funds(pool: DecCoins, outstanding: Outstanding)

  /** One validator: its rewards to the pool, its record created anew. */
  function Donate(f: Funds, v: Addr): Funds {
    Funds(Add(f.pool, RewardsOf(f.outstanding, v)), f.outstanding[v := map[]])
  }

  function DonateAll(f: Funds, visited: seq<Addr>): Funds
    decreases |visited|
  {
    if visited == [] then f else DonateAll(Donate(f, visited[0]), visited[1..])
  }

  /** All there is of a denomination, over a set of validators that covers every record. */
  ghost function Holdings(f: Funds, vs: set<Addr>, d: Denom): nat {
    Amount(f.pool, d) + Total(vs, f.outstanding, d)
  }

  lemma DonateConserves(f: Funds, v: Addr, vs: set<Addr>, d: Denom)
    requires v in vs
    ensures Holdings(Donate(f, v), vs, d) == Holdings(f, vs, d)
  {
    var f' := Donate(f, v);
    TotalSplit(vs, v, f.outstanding, d);
    TotalSplit(vs, v, f'.outstanding, d);
    TotalFrame(vs - {v}, f.outstanding, f'.outstanding, d);
    AmountAdds(f.pool, RewardsOf(f.outstanding, v), d);
  }

  /** Nothing is lost or made, in any order and even if a validator is visited twice. */
  lemma {:induction false} DonationConserves(f: Funds, visited: seq<Addr>, vs: set<Addr>, d: Denom)
    requires forall v :: v in visited ==> v in vs
    ensures Holdings(DonateAll(f, visited), vs, d) == Holdings(f, vs, d)
    decreases |visited|
  {
    if visited != [] {
      assert visited[0] in vs;
      DonateConserves(f, visited[0], vs, d);
      DonationConserves(Donate(f, visited[0]), visited[1..], vs, d);
    }
  }

  /** Exactly the visited validators end with nothing outstanding. */
  lemma {:induction false} DonationEmpties(f: Funds, visited: seq<Addr>, v: Addr)
    ensures RewardsOf(DonateAll(f, visited).outstanding, v)
         == if v in visited then map[] else RewardsOf(f.outstanding, v)
    decreases |visited|
  {
    if visited != [] {
      DonationEmpties(Donate(f, visited[0]), visited[1..], v);
      assert v in visited <==> v == visited[0] || v in visited[1..];
    }
  }

  /** So the pool receives the whole of what the visited validators had. */
  lemma DonationReachesPool(f: Funds, visited: seq<Addr>, vs: set<Addr>, d: Denom)
    requires forall v :: v in visited <==> v in vs
    ensures Amount(DonateAll(f, visited).pool, d) == Amount(f.pool, d) + Total(vs, f.outstanding, d)
  {
    var f' := DonateAll(f, visited);
    DonationConserves(f, visited, vs, d);
    forall v | v in vs
      ensures RewardsOf(f'.outstanding, v) == map[]
    {
      DonationEmpties(f, visited, v);
    }
    TotalOfEmpty(vs, f'.outstanding, d);
  }

  /** All of it at once, for a loop that visits every validator. */
  lemma DonationPromises(f: Funds, visited: seq<Addr>, vs: set<Addr>)
    requires forall v :: v in visited <==> v in vs
    ensures forall d :: Holdings(DonateAll(f, visited), vs, d) == Holdings(f, vs, d)
    ensures forall d :: Amount(DonateAll(f, visited).pool, d) == Amount(f.pool, d) + Total(vs, f.outstanding, d)
    ensures forall v :: v in vs ==> RewardsOf(DonateAll(f, visited).outstanding, v) == map[]
  {
    forall d
      ensures Holdings(DonateAll(f, visited), vs, d) == Holdings(f, vs, d)
      ensures Amount(DonateAll(f, visited).pool, d) == Amount(f.pool, d) + Total(vs, f.outstanding, d)
    {
      DonationConserves(f, visited, vs, d);
      DonationReachesPool(f, visited, vs, d);
    }
    forall v | v in vs
      ensures RewardsOf(DonateAll(f, visited).outstanding, v) == map[]
    {
      DonationEmpties(f, visited, v);
    }
  }

  /** No validator is visited twice. */
  predicate Distinct(visited: seq<Addr>) {
    forall i, j :: 0 <= i < j < |visited| ==> visited[i] != visited[j]
  }

  /** The sum of `out[v][d]` over the visited validators that have such an entry. */
  function SumHeld(visited: seq<Addr>, out: Outstanding, d: Denom): nat
    decreases |visited|
  {
    if visited == [] then 0
    else
      var v := visited[0];
      (if v in out && d in out[v] then out[v][d] else 0) + SumHeld(visited[1..], out, d)
  }

  lemma {:induction false} SumHeldFrame(visited: seq<Addr>, a: Outstanding, v: Addr, d: Denom)
    requires v !in visited
    ensures SumHeld(visited, a[v := map[]], d) == SumHeld(visited, a, d)
    decreases |visited|
  {
    if visited != [] { SumHeldFrame(visited[1..], a, v, d); }
  }

  /** The donation on the maps themselves: what each entry of the pool gains. */
  lemma {:induction false} DonationGains(f: Funds, visited: seq<Addr>, d: Denom)
    requires Distinct(visited)
    ensures var after := DonateAll(f, visited).pool;
            (if d in after then after[d] else 0) == (if d in f.pool then f.pool[d] else 0) + SumHeld(visited, f.outstanding, d)
    decreases |visited|
  {
    if visited != [] {
      var v, rest := visited[0], visited[1..];
      assert v !in rest by {
        assert forall i :: 0 <= i < |rest| ==> rest[i] == visited[i + 1];
      }
      SumHeldFrame(rest, f.outstanding, v, d);
      DonationGains(Donate(f, v), rest, d);
    }
  }

  /** And what becomes of each outstanding record. */
  lemma {:induction false} DonationRecords(f: Funds, visited: seq<Addr>, v: Addr)
    ensures var after := DonateAll(f, visited).outstanding;
            && (v in visited ==> v in after && after[v] == map[])
            && (v !in visited ==> (v in after <==> v in f.outstanding) && (v in after ==> after[v] == f.outstanding[v]))
    decreases |visited|
  {
    if visited != [] {
      DonationRecords(Donate(f, visited[0]), visited[1..], v);
      assert v in visited <==> v == visited[0] || v in visited[1..];
    }
  }

  /** The donation of the visited validators' records, entry by entry. */
  ghost predicate Donated(before: Funds, after: Funds, visited: seq<Addr>) {
    && (Distinct(visited) ==> forall d: Denom ::
        (if d in after.pool then after.pool[d] else 0)
        == (if d in before.pool then before.pool[d] else 0) + SumHeld(visited, before.outstanding, d))
    && (forall v :: v in visited ==> v in after.outstanding && after.outstanding[v] == map[])
    && (forall v :: v !in visited ==> (v in after.outstanding <==> v in before.outstanding))
    && (forall v :: v !in visited && v in after.outstanding ==> after.outstanding[v] == before.outstanding[v])
  }

  lemma DonateAllDonates(f: Funds, visited: seq<Addr>)
    ensures Donated(f, DonateAll(f, visited), visited)
  {
    var after := DonateAll(f, visited);
    if Distinct(visited) {
      forall d: Denom
        ensures (if d in after.pool then after.pool[d] else 0)
             == (if d in f.pool then f.pool[d] else 0) + SumHeld(visited, f.outstanding, d)
      {
        DonationGains(f, visited, d);
      }
    }
    forall v
      ensures v in visited ==> v in after.outstanding && after.outstanding[v] == map[]
      ensures v !in visited ==> (v in after.outstanding <==> v in f.outstanding)
      ensures v !in visited && v in after.outstanding ==> after.outstanding[v] == f.outstanding[v]
    {
      DonationRecords(f, visited, v);
    }
  }

  // ----------------------------------------------------------------- staking

  datatype Entry = Entry(creationHeight: int, completionTime: int, initialBalance: int, balance: int, unbondingId: nat,
                         onHoldRefCount: int)

  /** A redelegation, or an unbonding delegation, which has no destination. */
  datatype Unbonding = Unbonding(delegator: Addr, source: Addr, destination: Addr, entries: seq<Entry>)
  datatype Key = Key(delegator: Addr, source: Addr, destination: Addr)
  type Unbondings = map<Key, Unbonding>

  datatype Validator = Validator(operator: Addr, jailed: bool, unbondingHeight: int, tokens: int, status: int)
  type Validators = map<Addr, Validator>

  function KeyOf(u: Unbonding): Key {
    Key(u.delegator, u.source, u.destination)
  }

  /** Every record stands under its own three addresses. */
  predicate WellKeyed(us: Unbondings) {
    forall k :: k in us ==>
      && us[k].delegator == k.delegator
      && us[k].source == k.source
      && us[k].destination == k.destination
  }

  predicate ValidatorsWellKeyed(vs: Validators) {
    forall a :: a in vs ==> vs[a].operator == a
  }

  /** The iterator visits every key of the store, and no other. */
  ghost predicate Visits<K(!new)>(visited: seq<K>, keys: set<K>) {
    forall k :: k in visited <==> k in keys
  }

  function ZeroEntries(es: seq<Entry>): (r: seq<Entry>)
    ensures |r| == |es|
    ensures forall i :: 0 <= i < |es| ==> r[i] == es[i].(creationHeight := 0)
  {
    if es == [] then [] else [es[0].(creationHeight := 0)] + ZeroEntries(es[1..])
  }

  function ZeroUnbondings(us: Unbondings): Unbondings {
    map k | k in us :: us[k].(entries := ZeroEntries(us[k].entries))
  }

  /** Who may stay unjailed: everyone when no list is given. */
  datatype Allow = Allow(addrs: set<string>, applies: bool)

  function ZeroValidator(v: Validator, allow: Allow, show: Addr -> string): Validator {
    v.(unbondingHeight := 0, jailed := v.jailed || (allow.applies && show(v.operator) !in allow.addrs))
  }

  function ZeroValidators(vs: Validators, allow: Allow, show: Addr -> string): Validators {
    map a | a in vs :: ZeroValidator(vs[a], allow, show)
  }

  function AllowOf(list: seq<string>): Allow {
    Allow(set a | a in list, |list| > 0)
  }

  datatype Staking = Staking(redelegations: Unbondings, unbondings: Unbondings, validators: Validators)

  function ZeroStaking(s: Staking, allow: Allow, show: Addr -> string): Staking {
    Staking(ZeroUnbondings(s.redelegations), ZeroUnbondings(s.unbondings), ZeroValidators(s.validators, allow, show))
  }

  /** Every entry's height is zero; records, entry order and all else are as before. */
  predicate HeightsCleared(before: Unbondings, after: Unbondings) {
    && after.Keys == before.Keys
    && forall k :: k in before ==>
        && |after[k].entries| == |before[k].entries|
        && after[k] == before[k].(entries := after[k].entries)
        && forall i :: 0 <= i < |before[k].entries| ==>
            after[k].entries[i] == before[k].entries[i].(creationHeight := 0)
  }

  /** Who is jailed: those who were, and those a non-empty list leaves out; all else but the unbonding height is kept. */
  predicate JailedByList(before: Validators, after: Validators, list: seq<string>, show: Addr -> string) {
    && after.Keys == before.Keys
    && forall a :: a in before ==>
        && (after[a].jailed <==> before[a].jailed || (list != [] && show(a) !in list))
        && after[a].unbondingHeight == 0
        && after[a] == before[a].(jailed := after[a].jailed, unbondingHeight := 0)
  }

  /** Keys, entry counts, entry order and every field but the height are kept. */
  lemma ZeroKeepsRecords(us: Unbondings)
    ensures HeightsCleared(us, ZeroUnbondings(us))
  {
  }

  /** A validator is jailed exactly when it was, or when a non-empty list leaves it out. */
  lemma JailedExactlyWhen(vs: Validators, list: seq<string>, show: Addr -> string)
    requires ValidatorsWellKeyed(vs)
    ensures JailedByList(vs, ZeroValidators(vs, AllowOf(list), show), list, show)
  {
  }

  lemma {:induction false} ZeroEntriesTwice(es: seq<Entry>)
    ensures ZeroEntries(ZeroEntries(es)) == ZeroEntries(es)
  {
    if es != [] {
      var e := es[0].(creationHeight := 0);
      var rest := ZeroEntries(es[1..]);
      assert ([e] + rest)[1..] == rest;
      ZeroEntriesTwice(es[1..]);
    }
  }

  lemma ZeroUnbondingsTwice(us: Unbondings)
    ensures ZeroUnbondings(ZeroUnbondings(us)) == ZeroUnbondings(us)
  {
    forall k | k in us
      ensures ZeroUnbondings(ZeroUnbondings(us))[k] == ZeroUnbondings(us)[k]
    {
      ZeroEntriesTwice(us[k].entries);
    }
  }

  /** Running the staking loops twice is running them once. */
  lemma ZeroStakingTwice(s: Staking, allow: Allow, show: Addr -> string)
    ensures ZeroStaking(ZeroStaking(s, allow, show), allow, show) == ZeroStaking(s, allow, show)
  {
    ZeroUnbondingsTwice(s.redelegations);
    ZeroUnbondingsTwice(s.unbondings);
    var once := ZeroValidators(s.validators, allow, show);
    assert ZeroValidators(once, allow, show) == once;
  }

  // ---------------------------------------------------------------- the loops

  class App {
    var communityPool: DecCoins
    var outstanding: Outstanding
    var redelegations: Unbondings
    var unbondings: Unbondings
    var validators: Validators

    constructor (f: Funds, s: Staking)
      ensures Money() == f && State() == s
    {
      communityPool, outstanding := f.pool, f.outstanding;
      redelegations, unbondings, validators := s.redelegations, s.unbondings, s.validators;
    }

    function Money(): Funds
      reads this`communityPool, this`outstanding
    {
      Funds(communityPool, outstanding)
    }

    function State(): Staking
      reads this`redelegations, this`unbondings, this`validators
    {
      Staking(redelegations, unbondings, validators)
    }

    /** "reinitialize all validators" */
    method DonateOutstanding(visited: seq<Addr>)
      modifies this`communityPool, this`outstanding
      ensures Money() == DonateAll(old(Money()), visited)
      ensures Donated(old(Money()), Money(), visited)
    {
      DonateAllDonates(Money(), visited);
      var i := 0;
      while i < |visited|
        invariant 0 <= i <= |visited|
        invariant DonateAll(Money(), visited[i..]) == DonateAll(old(Money()), visited)
      {
        var valBz := visited[i];
        var scraps := RewardsOf(outstanding, valBz);
        communityPool := Add(communityPool, scraps);
        outstanding := outstanding[valBz := map[]];
        assert visited[i..][1..] == visited[i + 1..];
        i := i + 1;
      }
    }

    /** The inner loop: `Entries[i].CreationHeight = 0` for every i. */
    static method ResetEntries(es: seq<Entry>) returns (r: seq<Entry>)
      ensures r == ZeroEntries(es)
    {
      r := es;
      for i := 0 to |es|
        invariant |r| == |es|
        invariant forall j :: 0 <= j < i ==> r[j] == es[j].(creationHeight := 0)
        invariant forall j :: i <= j < |es| ==> r[j] == es[j]
      {
        r := r[i := r[i].(creationHeight := 0)];
      }
    }

    /** One store's worth: every record visited is rewritten under its own key. */
    static method ResetHeights(us: Unbondings, visited: seq<Key>) returns (r: Unbondings)
      requires WellKeyed(us) && Visits(visited, us.Keys)
      ensures r == ZeroUnbondings(us)
    {
      r := us;
      for i := 0 to |visited|
        invariant r.Keys == us.Keys
        invariant forall k :: k in us ==>
          r[k] == if k in visited[..i] then us[k].(entries := ZeroEntries(us[k].entries)) else us[k]
      {
        var k := visited[i];
        assert k in us;
        var red := r[k];
        var entries := ResetEntries(red.entries);
        ZeroEntriesTwice(us[k].entries);
        r := r[KeyOf(red) := red.(entries := entries)];
        assert visited[..i + 1] == visited[..i] + [k];
      }
      assert visited[..|visited|] == visited;
    }

    /** "Iterate through validators by power descending" */
    method ResetValidators(visited: seq<Addr>, allowedAddrsMap: map<string, bool>,
                           applyAllowedAddrs: bool, show: Addr -> string)
      requires ValidatorsWellKeyed(validators) && Visits(visited, validators.Keys)
      requires forall a :: a in allowedAddrsMap ==> allowedAddrsMap[a]
      modifies this`validators
      ensures validators == ZeroValidators(old(validators), Allow(allowedAddrsMap.Keys, applyAllowedAddrs), show)
    {
      ghost var before, allow := validators, Allow(allowedAddrsMap.Keys, applyAllowedAddrs);
      for i := 0 to |visited|
        invariant validators.Keys == before.Keys
        invariant forall a :: a in before ==>
          validators[a] == if a in visited[..i] then ZeroValidator(before[a], allow, show) else before[a]
      {
        var addr := visited[i];
        assert addr in before;
        var validator := validators[addr];
        validator := validator.(unbondingHeight := 0);
        if applyAllowedAddrs && show(addr) !in allowedAddrsMap {
          validator := validator.(jailed := true);
        }
        validators := validators[validator.operator := validator];
        assert visited[..i + 1] == visited[..i] + [addr];
      }
      assert visited[..|visited|] == visited;
    }

    /** The donation loop and the staking loops of `prepForZeroHeightGenesis`. */
    method PrepForZeroHeightGenesis(jailAllowedAddrs: seq<string>, show: Addr -> string,
                                    vals: seq<Addr>, reds: seq<Key>, ubds: seq<Key>, byPower: seq<Addr>)
      requires Visits(vals, validators.Keys) && Visits(byPower, validators.Keys)
      requires Visits(reds, redelegations.Keys) && Visits(ubds, unbondings.Keys)
      requires WellKeyed(redelegations) && WellKeyed(unbondings) && ValidatorsWellKeyed(validators)
      modifies this
      ensures Money() == DonateAll(old(Money()), vals)
      ensures State() == ZeroStaking(old(State()), AllowOf(jailAllowedAddrs), show)
      ensures Donated(old(Money()), Money(), vals)
      ensures forall d :: Holdings(Money(), validators.Keys, d) == old(Holdings(Money(), validators.Keys, d))
      ensures forall d :: Amount(communityPool, d)
                       == old(Amount(communityPool, d)) + old(Total(validators.Keys, outstanding, d))
      ensures forall v :: v in validators ==> RewardsOf(outstanding, v) == map[]
      ensures HeightsCleared(old(redelegations), redelegations) && HeightsCleared(old(unbondings), unbondings)
      ensures JailedByList(old(validators), validators, jailAllowedAddrs, show)
    {
      ghost var money, staking := Money(), State();
      var applyAllowedAddrs := false;
      if |jailAllowedAddrs| > 0 {
        applyAllowedAddrs := true;
      }
      var allowedAddrsMap: map<string, bool> := map[];
      for i := 0 to |jailAllowedAddrs|
        invariant allowedAddrsMap.Keys == set a | a in jailAllowedAddrs[..i]
        invariant forall a :: a in allowedAddrsMap ==> allowedAddrsMap[a]
      {
        allowedAddrsMap := allowedAddrsMap[jailAllowedAddrs[i] := true];
        assert jailAllowedAddrs[..i + 1] == jailAllowedAddrs[..i] + [jailAllowedAddrs[i]];
      }
      assert jailAllowedAddrs[..|jailAllowedAddrs|] == jailAllowedAddrs;
      assert Allow(allowedAddrsMap.Keys, applyAllowedAddrs) == AllowOf(jailAllowedAddrs);

      DonateOutstanding(vals);
      redelegations := ResetHeights(redelegations, reds);
      unbondings := ResetHeights(unbondings, ubds);
      ResetValidators(byPower, allowedAddrsMap, applyAllowedAddrs, show);

      DonationPromises(money, vals, staking.validators.Keys);
      ZeroKeepsRecords(staking.redelegations);
      ZeroKeepsRecords(staking.unbondings);
      JailedExactlyWhen(staking.validators, jailAllowedAddrs, show);
    }
  }
}
