/** The `Stats` registry object: one dictionary field `accountData` from
    account name to status record, updated in place by every method.

    Every method but the constructor and `InitNewAccount` requires the
    account to be registered already (the dictionary lookup raises `KeyError`
    otherwise; `Accounts.Step` gives that error as a value).  Each mutator
    states the whole new dictionary, which says at once which field of which
    account changes and, for every mutator but `InitNewAccount`, that no key
    is added or removed.  Each mutator also ties the call to `Accounts.Step`,
    so that the lemmas about `Accounts.Run` apply to sequences of calls on the
    object; `RegisterThenReport` derives one such `Run` from method calls. */
module StatsRegistry {
  import opened Accounts
  import Properties

  class Stats {
    var accountData: Registry

    /** The invariant every method keeps: no record has a negative drop count
        or failed-login count. */
    ghost predicate Valid()
      reads this
    {
      AllCountersNonNegative(accountData)
    }

    constructor ()
      ensures Valid()
      ensures accountData == map[]
    {
      accountData := map[];
    }

    /** Registers `accountName` with the default record, overwriting any
        record it already had; `nowMs` is the clock in epoch milliseconds. */
    method InitNewAccount(accountName: string, nowMs: int)
      requires Valid()
      modifies this
      ensures Valid()
      ensures accountData == old(accountData)[accountName := Default(nowMs)]
      ensures Step(old(accountData), Op.InitNewAccount(accountName, nowMs)) == Ok(accountData)
    {
      accountData := accountData[accountName := Default(nowMs)];
    }

    /** Records a report from the account's worker at time stamp `now`. */
    method Update(accountName: string, now: string, newDrops: int, liveMatches: string,
                  lastDropleague: Option<string>, reward: Option<string>)
      requires Valid()
      requires accountName in accountData
      modifies this
      ensures Valid()
      ensures accountData == old(accountData)[accountName :=
                AfterUpdate(old(accountData)[accountName], now, newDrops, liveMatches, lastDropleague, reward)]
      ensures accountData[accountName].sessionDrops >= old(accountData)[accountName].sessionDrops
      ensures Step(old(accountData), Op.Update(accountName, now, newDrops, liveMatches, lastDropleague, reward))
              == Ok(accountData)
    {
      var r := accountData[accountName];
      r := r.(lastCheck := now);
      r := r.(liveMatches := liveMatches);
      if newDrops > 0 {
        r := r.(sessionDrops := r.sessionDrops + newDrops);
        if Present(reward) && Present(lastDropleague) {
          r := r.(lastDrop := now + Paren(lastDropleague.value) + Paren(reward.value));
        } else if Present(lastDropleague) {
          r := r.(lastDrop := now + Paren(lastDropleague.value));
        } else {
          r := r.(lastDrop := now);
        }
      }
      accountData := accountData[accountName := r];
    }

    /** Flips the account's `valid` flag. */
    method UpdateThreadStatus(accountName: string)
      requires Valid()
      requires accountName in accountData
      modifies this
      ensures Valid()
      ensures accountName in accountData
      ensures accountData[accountName].valid == !old(accountData)[accountName].valid
      ensures accountData == old(accountData)[accountName :=
                old(accountData)[accountName].(valid := !old(accountData)[accountName].valid)]
      ensures Step(old(accountData), Op.UpdateThreadStatus(accountName)) == Ok(accountData)
    {
      var r := accountData[accountName];
      accountData := accountData[accountName := r.(valid := !r.valid)];
    }

    method GetThreadStatus(accountName: string) returns (valid: bool)
      requires accountName in accountData
      ensures valid == accountData[accountName].valid
    {
      valid := accountData[accountName].valid;
    }

    method SetTotalDrops(accountName: string, amount: int)
      requires Valid()
      requires accountName in accountData
      modifies this
      ensures Valid()
      ensures accountName in accountData && accountData[accountName].totalDrops == amount
      ensures accountData == old(accountData)[accountName :=
                old(accountData)[accountName].(totalDrops := amount)]
      ensures Step(old(accountData), Op.SetTotalDrops(accountName, amount)) == Ok(accountData)
    {
      var r := accountData[accountName];
      accountData := accountData[accountName := r.(totalDrops := amount)];
    }

    method UpdateStatus(accountName: string, msg: string)
      requires Valid()
      requires accountName in accountData
      modifies this
      ensures Valid()
      ensures accountName in accountData && accountData[accountName].status == msg
      ensures accountData == old(accountData)[accountName :=
                old(accountData)[accountName].(status := msg)]
      ensures Step(old(accountData), Op.UpdateStatus(accountName, msg)) == Ok(accountData)
    {
      var r := accountData[accountName];
      accountData := accountData[accountName := r.(status := msg)];
    }

    method UpdateLastDropCheck(accountName: string, lastDropCheck: int)
      requires Valid()
      requires accountName in accountData
      modifies this
      ensures Valid()
      ensures accountName in accountData && accountData[accountName].lastDropCheck == lastDropCheck
      ensures accountData == old(accountData)[accountName :=
                old(accountData)[accountName].(lastDropCheck := lastDropCheck)]
      ensures Step(old(accountData), Op.UpdateLastDropCheck(accountName, lastDropCheck)) == Ok(accountData)
    {
      var r := accountData[accountName];
      accountData := accountData[accountName := r.(lastDropCheck := lastDropCheck)];
    }

    method GetLastDropCheck(accountName: string) returns (lastDropCheck: int)
      requires accountName in accountData
      ensures lastDropCheck == accountData[accountName].lastDropCheck
    {
      lastDropCheck := accountData[accountName].lastDropCheck;
    }

    method AddLoginFailed(accountName: string)
      requires Valid()
      requires accountName in accountData
      modifies this
      ensures Valid()
      ensures accountName in accountData
      ensures accountData[accountName].failedLoginCounter == old(accountData)[accountName].failedLoginCounter + 1
      ensures accountData == old(accountData)[accountName :=
                old(accountData)[accountName].(failedLoginCounter := old(accountData)[accountName].failedLoginCounter + 1)]
      ensures Step(old(accountData), Op.AddLoginFailed(accountName)) == Ok(accountData)
    {
      var r := accountData[accountName];
      accountData := accountData[accountName := r.(failedLoginCounter := r.failedLoginCounter + 1)];
    }

    method ResetLoginFailed(accountName: string)
      requires Valid()
      requires accountName in accountData
      modifies this
      ensures Valid()
      ensures accountName in accountData && accountData[accountName].failedLoginCounter == 0
      ensures accountData == old(accountData)[accountName :=
                old(accountData)[accountName].(failedLoginCounter := 0)]
      ensures Step(old(accountData), Op.ResetLoginFailed(accountName)) == Ok(accountData)
    {
      var r := accountData[accountName];
      accountData := accountData[accountName := r.(failedLoginCounter := 0)];
    }

    /** The consecutive failed-login count, never negative while `Valid()`. */
    method GetFailedLogins(accountName: string) returns (count: int)
      requires accountName in accountData
      ensures count == accountData[accountName].failedLoginCounter
      ensures Valid() ==> count >= 0
    {
      count := accountData[accountName].failedLoginCounter;
    }
  }

  /** Registers `a`, then records a report for it and a failed login: the
      start of an account's life as its worker sees it.  The object ends in
      the registry that `Accounts.Run` gives for the same three calls. */
  method RegisterThenReport(s: Stats, a: string, nowMs: int, now: string, newDrops: int, liveMatches: string)
    requires s.Valid()
    modifies s
    ensures s.Valid()
    ensures Run(old(s.accountData),
                [Op.InitNewAccount(a, nowMs),
                 Op.Update(a, now, newDrops, liveMatches, None, None),
                 Op.AddLoginFailed(a)]) == Ok(s.accountData)
    ensures a in s.accountData && s.accountData[a].liveMatches == liveMatches
    ensures s.accountData[a].sessionDrops == (if newDrops > 0 then newDrops else 0)
    ensures s.accountData[a].failedLoginCounter == 1
  {
    ghost var m0 := s.accountData;
    s.InitNewAccount(a, nowMs);
    ghost var m1 := s.accountData;
    s.Update(a, now, newDrops, liveMatches, None, None);
    ghost var m2 := s.accountData;
    s.AddLoginFailed(a);
    Properties.RunSingle(m2, Op.AddLoginFailed(a));
    Properties.RunAppend(m1, [Op.Update(a, now, newDrops, liveMatches, None, None)], [Op.AddLoginFailed(a)]);
    Properties.RunSingle(m1, Op.Update(a, now, newDrops, liveMatches, None, None));
    Properties.RunAppend(m0, [Op.InitNewAccount(a, nowMs)],
                         [Op.Update(a, now, newDrops, liveMatches, None, None), Op.AddLoginFailed(a)]);
    Properties.RunSingle(m0, Op.InitNewAccount(a, nowMs));
  }
}
