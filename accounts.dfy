/** The per-account status record of the farmer's `Stats` registry and the
    value-level meaning of every operation on the registry.

    The registry is a dictionary from account name to record; each operation
    reads or overwrites fields of ONE account's record.  Operations other than
    `InitNewAccount` look the account up first, and a missing account raises
    Python's `KeyError` before anything changes.  `Step` and `Run` give that
    behaviour as values, so that properties of whole sequences of calls can be
    proved; the class in stats.dfy is specified by the same functions. */
module Accounts {

  datatype Option<T> = None | Some(value: T)

  /** Python truthiness of an optional string argument: neither `None` nor `""`. */
  predicate Present(o: Option<string>) {
    o.Some? && o.value != ""
  }

  /** Placeholder shown for `lastDrop` before the first drop of this run
      (colour markup kept as part of the opaque text). */
  const NoDropsYet: string := "[cyan]本次启动还没有掉落哦"

  /** Placeholder shown for `status` before the account's worker reports. */
  const Waiting: string := "[yellow]等待"

  datatype Record = Record(
    lastCheck: string,
    totalDrops: int,
    sessionDrops: int,
    lastDrop: string,
    liveMatches: string,
    status: string,
    failedLoginCounter: int,
    lastDropCheck: int,
    valid: bool
  )

  /** The counters a record keeps non-negative: drops of this run and
      consecutive failed logins. */
  predicate NonNegativeCounters(r: Record) {
    r.sessionDrops >= 0 && r.failedLoginCounter >= 0
  }

  /** The record `initNewAccount` stores; `nowMs` is the epoch-milliseconds
      reading of the clock at that call. */
  function Default(nowMs: int): (r: Record)
    ensures NonNegativeCounters(r)
    ensures r.sessionDrops == 0 && r.totalDrops == 0 && r.failedLoginCounter == 0
    ensures r.valid && r.lastCheck == "" && r.liveMatches == ""
    ensures r.status == Waiting && r.lastDrop == NoDropsYet
    ensures r.lastDropCheck == nowMs
  {
    Record("", 0, 0, NoDropsYet, "", Waiting, 0, nowMs, true)
  }

  /** The annotation `" (x)"` appended to a time stamp. */
  function Paren(x: string): string {
    " (" + x + ")"
  }

  /** The `lastDrop` text written for a drop: the time stamp, then the league
      in parentheses when one is given, then the reward in parentheses only
      when BOTH a league and a reward are given.  A reward without a league
      is dropped. */
  function DropText(now: string, league: Option<string>, reward: Option<string>): (s: string)
    ensures |s| >= |now| && s[..|now|] == now
    ensures |s| == |now|
                   + (if Present(league) then |league.value| + 3 else 0)
                   + (if Present(league) && Present(reward) then |reward.value| + 3 else 0)
    ensures Present(league) <==> |s| > |now|
    ensures Present(league) ==> s[|now|..|now| + |league.value| + 3] == Paren(league.value)
    ensures Present(league) && Present(reward) ==> s[|s| - |reward.value| - 3..] == Paren(reward.value)
  {
    if Present(reward) && Present(league) then
      now + Paren(league.value) + Paren(reward.value)
    else if Present(league) then
      now + Paren(league.value)
    else
      now
  }

  /** The record after `update(…, newDrops, liveMatches, lastDropleague, reward)`
      at time stamp `now`. */
  function AfterUpdate(r: Record, now: string, newDrops: int, liveMatches: string,
                       league: Option<string>, reward: Option<string>): (r': Record)
    ensures r'.lastCheck == now && r'.liveMatches == liveMatches
    ensures newDrops > 0 ==> r'.sessionDrops == r.sessionDrops + newDrops
                             && r'.lastDrop == DropText(now, league, reward)
    ensures newDrops <= 0 ==> r'.sessionDrops == r.sessionDrops && r'.lastDrop == r.lastDrop
    ensures r'.sessionDrops >= r.sessionDrops
    ensures r'.totalDrops == r.totalDrops && r'.status == r.status
    ensures r'.failedLoginCounter == r.failedLoginCounter
    ensures r'.lastDropCheck == r.lastDropCheck && r'.valid == r.valid
    ensures NonNegativeCounters(r) ==> NonNegativeCounters(r')
  {
    var checked := r.(lastCheck := now, liveMatches := liveMatches);
    if newDrops > 0 then
      checked.(sessionDrops := checked.sessionDrops + newDrops,
               lastDrop := DropText(now, league, reward))
    else
      checked
  }

  /** One call on the registry, with the clock readings it uses as arguments. */
  datatype Op =
    | InitNewAccount(account: string, nowMs: int)
    | Update(account: string, now: string, newDrops: int, liveMatches: string,
             league: Option<string>, reward: Option<string>)
    | UpdateThreadStatus(account: string)
    | SetTotalDrops(account: string, amount: int)
    | UpdateStatus(account: string, msg: string)
    | UpdateLastDropCheck(account: string, lastDropCheck: int)
    | AddLoginFailed(account: string)
    | ResetLoginFailed(account: string)

  /** The record after a call other than `InitNewAccount` on an account whose
      record was `r`. */
  function Apply(r: Record, op: Op): (r': Record)
    requires !op.InitNewAccount?
    ensures NonNegativeCounters(r) ==> NonNegativeCounters(r')
    ensures op.AddLoginFailed? ==> r'.failedLoginCounter == r.failedLoginCounter + 1
    ensures op.ResetLoginFailed? ==> r'.failedLoginCounter == 0
    ensures op.UpdateThreadStatus? ==> r'.valid != r.valid
    ensures !op.Update? ==> r'.sessionDrops == r.sessionDrops
  {
    match op
    case Update(_, now, n, live, league, reward) => AfterUpdate(r, now, n, live, league, reward)
    case UpdateThreadStatus(_) => r.(valid := !r.valid)
    case SetTotalDrops(_, amount) => r.(totalDrops := amount)
    case UpdateStatus(_, msg) => r.(status := msg)
    case UpdateLastDropCheck(_, t) => r.(lastDropCheck := t)
    case AddLoginFailed(_) => r.(failedLoginCounter := r.failedLoginCounter + 1)
    case ResetLoginFailed(_) => r.(failedLoginCounter := 0)
  }

  type Registry = map<string, Record>

  predicate AllCountersNonNegative(m: Registry) {
    forall a :: a in m ==> NonNegativeCounters(m[a])
  }

  /** What a call yields: the new registry, or the `KeyError` raised by
      looking up an account that is not registered. */
  datatype Outcome = Ok(registry: Registry) | KeyError(account: string)

  /** One call on the registry `m`. */
  function Step(m: Registry, op: Op): (o: Outcome)
    ensures o.KeyError? <==> !op.InitNewAccount? && op.account !in m
    ensures o.KeyError? ==> o.account == op.account
    ensures o.Ok? ==> op.account in o.registry
    ensures o.Ok? ==> forall b :: b in o.registry ==> b in m || b == op.account
    ensures o.Ok? ==> forall b :: b in m && b != op.account ==> b in o.registry && o.registry[b] == m[b]
    ensures o.Ok? && op.InitNewAccount? ==> o.registry[op.account] == Default(op.nowMs)
    ensures o.Ok? && AllCountersNonNegative(m) ==> AllCountersNonNegative(o.registry)
  {
    if op.InitNewAccount? then
      Ok(m[op.account := Default(op.nowMs)])
    else if op.account !in m then
      KeyError(op.account)
    else
      Ok(m[op.account := Apply(m[op.account], op)])
  }

  /** A sequence of calls, stopping at the first `KeyError`. */
  function Run(m: Registry, ops: seq<Op>): Outcome
    decreases |ops|
  {
    if ops == [] then Ok(m)
    else
      match Step(m, ops[0])
      case Ok(m1) => Run(m1, ops[1..])
      case KeyError(a) => KeyError(a)
  }
}
