/** Properties of sequences of calls on the registry, stated over
    `Accounts.Run`.  Since every mutator of `StatsRegistry.Stats` is
    specified as one `Accounts.Step`, these apply to sequences of calls on the
    object once the calls are chained into a `Run`, as
    `StatsRegistry.RegisterThenReport` does with `RunSingle` and `RunAppend`. */
module Properties {
  import opened Accounts

  /** Continues a run that ended in `o` with the calls `ops`. */
  function Then(o: Outcome, ops: seq<Op>): Outcome {
    match o
    case Ok(m) => Run(m, ops)
    case KeyError(a) => KeyError(a)
  }

  /** Running `xs + ys` is running `xs`, then `ys` on what it left. */
  lemma {:induction false} RunAppend(m: Registry, xs: seq<Op>, ys: seq<Op>)
    ensures Run(m, xs + ys) == Then(Run(m, xs), ys)
    decreases |xs|
  {
    if xs == [] {
      assert xs + ys == ys;
    } else {
      assert (xs + ys)[0] == xs[0];
      assert (xs + ys)[1..] == xs[1..] + ys;
      match Step(m, xs[0])
      case Ok(m1) => RunAppend(m1, xs[1..], ys);
      case KeyError(_) =>
    }
  }

  /** The accounts that `ops` registers. */
  function Initialised(ops: seq<Op>): set<string>
    decreases |ops|
  {
    if ops == [] then {}
    else (if ops[0].InitNewAccount? then {ops[0].account} else {}) + Initialised(ops[1..])
  }

  lemma InitialisedPrefix(ops: seq<Op>, j: nat)
    requires 0 < |ops| && j < |ops|
    ensures Initialised(ops[..j + 1])
            == (if ops[0].InitNewAccount? then {ops[0].account} else {}) + Initialised(ops[1..][..j])
  {
    assert ops[..j + 1][0] == ops[0];
    assert ops[..j + 1][1..] == ops[1..][..j];
  }

  /** No call is made on an account that is neither in `m` nor registered by
      an earlier call of `ops`. */
  ghost predicate Registered(m: Registry, ops: seq<Op>) {
    forall i :: 0 <= i < |ops| && !ops[i].InitNewAccount? ==>
      ops[i].account in m || ops[i].account in Initialised(ops[..i])
  }

  /** A sequence of calls raises no `KeyError` exactly when every call other
      than `InitNewAccount` names an account registered before it. */
  lemma {:induction false} RunSucceedsIffRegistered(m: Registry, ops: seq<Op>)
    ensures Run(m, ops).Ok? <==> Registered(m, ops)
    decreases |ops|
  {
    if ops == [] {
      return;
    }
    var o, rest := ops[0], ops[1..];
    assert ops[..0] == [];
    match Step(m, o)
    case KeyError(_) =>
      assert !Registered(m, ops);
    case Ok(m1) =>
      RunSucceedsIffRegistered(m1, rest);
      assert m1.Keys == m.Keys + {o.account};
      assert !o.InitNewAccount? ==> o.account in m;
      var first := if o.InitNewAccount? then {o.account} else {};
      forall j | 0 <= j < |rest|
        ensures Initialised(ops[..j + 1]) == first + Initialised(rest[..j])
      {
        InitialisedPrefix(ops, j);
      }
      if Registered(m1, rest) {
        forall i | 0 <= i < |ops| && !ops[i].InitNewAccount?
          ensures ops[i].account in m || ops[i].account in Initialised(ops[..i])
        {
          if i > 0 {
            assert ops[i] == rest[i - 1];
          }
        }
      }
      if Registered(m, ops) {
        forall j | 0 <= j < |rest| && !rest[j].InitNewAccount?
          ensures rest[j].account in m1 || rest[j].account in Initialised(rest[..j])
        {
          assert rest[j] == ops[j + 1];
        }
      }
  }

  /** Registering is the only way keys appear, and nothing removes a key. */
  lemma {:induction false} RunKeys(m: Registry, ops: seq<Op>)
    requires Run(m, ops).Ok?
    ensures Run(m, ops).registry.Keys == m.Keys + Initialised(ops)
    decreases |ops|
  {
    if ops != [] {
      var m1 := Step(m, ops[0]).registry;
      RunKeys(m1, ops[1..]);
    }
  }

  /** The counters stay non-negative across any sequence of calls. */
  lemma {:induction false} RunKeepsCountersNonNegative(m: Registry, ops: seq<Op>)
    requires AllCountersNonNegative(m)
    requires Run(m, ops).Ok?
    ensures AllCountersNonNegative(Run(m, ops).registry)
    decreases |ops|
  {
    if ops != [] {
      RunKeepsCountersNonNegative(Step(m, ops[0]).registry, ops[1..]);
    }
  }

  /** Calls on other accounts leave the record of `a` as it was. */
  lemma {:induction false} RunIsolatesAccounts(m: Registry, ops: seq<Op>, a: string)
    requires a in m
    requires forall i :: 0 <= i < |ops| ==> ops[i].account != a
    requires Run(m, ops).Ok?
    ensures a in Run(m, ops).registry && Run(m, ops).registry[a] == m[a]
    decreases |ops|
  {
    if ops != [] {
      var m1 := Step(m, ops[0]).registry;
      forall i | 0 <= i < |ops[1..]| ensures ops[1..][i].account != a {
        assert ops[1..][i] == ops[i + 1];
      }
      RunIsolatesAccounts(m1, ops[1..], a);
    }
  }

  /** The drops that the `update` calls of `ops` report for `a`: the sum of
      their positive `newDrops`. */
  function DropsFor(a: string, ops: seq<Op>): (n: int)
    ensures n >= 0
    decreases |ops|
  {
    if ops == [] then 0
    else
      (if ops[0].Update? && ops[0].account == a && ops[0].newDrops > 0 then ops[0].newDrops else 0)
      + DropsFor(a, ops[1..])
  }

  /** Unless the account is registered anew, its `sessionDrops` grows by
      exactly the positive drops reported for it. */
  lemma {:induction false} SessionDropsSum(m: Registry, ops: seq<Op>, a: string)
    requires a in m
    requires forall i :: 0 <= i < |ops| && ops[i].InitNewAccount? ==> ops[i].account != a
    requires Run(m, ops).Ok?
    ensures a in Run(m, ops).registry
    ensures Run(m, ops).registry[a].sessionDrops == m[a].sessionDrops + DropsFor(a, ops)
    decreases |ops|
  {
    if ops != [] {
      var m1 := Step(m, ops[0]).registry;
      forall i | 0 <= i < |ops[1..]| && ops[1..][i].InitNewAccount? ensures ops[1..][i].account != a {
        assert ops[1..][i] == ops[i + 1];
      }
      SessionDropsSum(m1, ops[1..], a);
    }
  }

  /** Within a run that does not register `a` again, `sessionDrops` never
      decreases. */
  lemma SessionDropsNeverDecrease(m: Registry, ops: seq<Op>, a: string)
    requires a in m
    requires forall i :: 0 <= i < |ops| && ops[i].InitNewAccount? ==> ops[i].account != a
    requires Run(m, ops).Ok?
    ensures a in Run(m, ops).registry
    ensures Run(m, ops).registry[a].sessionDrops >= m[a].sessionDrops
  {
    SessionDropsSum(m, ops, a);
  }

  /** Registering an account again, after any run, replaces its record by the
      defaults and leaves the others alone. */
  lemma ReinitialiseResets(m: Registry, ops: seq<Op>, a: string, nowMs: int)
    requires Run(m, ops).Ok?
    ensures Run(m, ops + [InitNewAccount(a, nowMs)]) == Ok(Run(m, ops).registry[a := Default(nowMs)])
  {
    RunSnoc(m, ops, InitNewAccount(a, nowMs));
  }

  /** A one-call run is that call. */
  lemma RunSingle(m: Registry, op: Op)
    ensures Run(m, [op]) == Step(m, op)
  {
    assert [op][1..] == [];
  }

  /** `k` copies of one call. */
  function Repeat(op: Op, k: nat): seq<Op>
  {
    seq(k, _ => op)
  }

  /** A run of `k > 0` copies of a call is one call, then `k - 1` copies. */
  lemma RunRepeat(m: Registry, op: Op, k: nat)
    requires k > 0
    ensures Run(m, Repeat(op, k)) == Then(Step(m, op), Repeat(op, k - 1))
  {
    assert Repeat(op, k)[1..] == Repeat(op, k - 1);
  }

  /** `k` failed logins raise the counter by exactly `k`; nothing else changes. */
  lemma {:induction false} FailedLoginsAccumulate(m: Registry, a: string, k: nat)
    requires a in m
    ensures Run(m, Repeat(AddLoginFailed(a), k))
            == Ok(m[a := m[a].(failedLoginCounter := m[a].failedLoginCounter + k)])
  {
    if k == 0 {
      assert m[a := m[a]] == m;
    } else {
      var m1 := m[a := m[a].(failedLoginCounter := m[a].failedLoginCounter + 1)];
      assert Step(m, AddLoginFailed(a)) == Ok(m1);
      RunRepeat(m, AddLoginFailed(a), k);
      FailedLoginsAccumulate(m1, a, k - 1);
      assert m1[a := m1[a].(failedLoginCounter := m1[a].failedLoginCounter + (k - 1))]
             == m[a := m[a].(failedLoginCounter := m[a].failedLoginCounter + k)];
    }
  }

  /** A reset brings the counter back to 0 however many failures preceded it. */
  lemma FailedLoginsReset(m: Registry, a: string, k: nat)
    requires a in m
    ensures Run(m, Repeat(AddLoginFailed(a), k) + [ResetLoginFailed(a)])
            == Ok(m[a := m[a].(failedLoginCounter := 0)])
  {
    FailedLoginsAccumulate(m, a, k);
    ResetAfterRun(m, Repeat(AddLoginFailed(a), k), a, m[a].failedLoginCounter + k);
  }

  lemma ResetAfterRun(m: Registry, ops: seq<Op>, a: string, c: int)
    requires a in m
    requires Run(m, ops) == Ok(m[a := m[a].(failedLoginCounter := c)])
    ensures Run(m, ops + [ResetLoginFailed(a)]) == Ok(m[a := m[a].(failedLoginCounter := 0)])
  {
    var m1 := m[a := m[a].(failedLoginCounter := c)];
    RunSnoc(m, ops, ResetLoginFailed(a));
    StepReset(m1, a);
    assert m1[a].(failedLoginCounter := 0) == m[a].(failedLoginCounter := 0);
    UpdateTwice(m, a, m[a].(failedLoginCounter := c), m[a].(failedLoginCounter := 0));
  }

  /** A second write to one key hides the first. */
  lemma UpdateTwice(m: Registry, a: string, r1: Record, r2: Record)
    ensures m[a := r1][a := r2] == m[a := r2]
  {
  }

  lemma StepReset(m: Registry, a: string)
    requires a in m
    ensures Step(m, ResetLoginFailed(a)) == Ok(m[a := m[a].(failedLoginCounter := 0)])
  {
  }

  /** Running one more call after a successful run. */
  lemma RunSnoc(m: Registry, ops: seq<Op>, op: Op)
    requires Run(m, ops).Ok?
    ensures Run(m, ops + [op]) == Step(Run(m, ops).registry, op)
  {
    RunAppend(m, ops, [op]);
    RunSingle(Run(m, ops).registry, op);
  }

  /** `k` toggles of `valid` leave it flipped exactly when `k` is odd. */
  lemma {:induction false} ToggleParity(m: Registry, a: string, k: nat)
    requires a in m
    ensures Run(m, Repeat(UpdateThreadStatus(a), k))
            == Ok(m[a := m[a].(valid := if k % 2 == 0 then m[a].valid else !m[a].valid)])
  {
    var v := m[a].valid;
    if k == 0 {
      assert m[a := m[a].(valid := v)] == m;
    } else {
      var m1 := m[a := m[a].(valid := !v)];
      assert Step(m, UpdateThreadStatus(a)) == Ok(m1);
      RunRepeat(m, UpdateThreadStatus(a), k);
      ToggleParity(m1, a, k - 1);
      var got := if (k - 1) % 2 == 0 then !v else v;
      assert got == if k % 2 == 0 then v else !v;
      assert m1[a := m1[a].(valid := got)] == m[a := m[a].(valid := got)];
    }
  }

  /** Toggling twice restores the registry. */
  lemma ToggleTwiceRestores(m: Registry, a: string)
    requires a in m
    ensures Run(m, [UpdateThreadStatus(a), UpdateThreadStatus(a)]) == Ok(m)
  {
    ToggleParity(m, a, 2);
    assert Repeat(UpdateThreadStatus(a), 2) == [UpdateThreadStatus(a)] + Repeat(UpdateThreadStatus(a), 1);
    assert Repeat(UpdateThreadStatus(a), 1) == [UpdateThreadStatus(a)] + Repeat(UpdateThreadStatus(a), 0);
    assert m[a := m[a].(valid := m[a].valid)] == m;
  }
}
