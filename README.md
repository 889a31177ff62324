# Stats registry of Capsule Farmer Evolved, modelled in Dafny

The farmer runs one worker per League of Legends esports account. Every
account has a status record in one shared registry, the `Stats` object.
Workers and the supervisor loop read and write those records, and the
console front end displays them. A record holds these fields:

- the time of the last check;
- total and session drop counts;
- the text describing the last drop;
- the live matches being watched;
- a status line;
- the consecutive failed-login counter;
- the time of the last drop poll;
- a `valid` flag that `updateThreadStatus` negates.

This project models that registry:

- `accounts.dfy` (module `Accounts`) holds the record datatype, the default
  record and the `lastDrop` text rule. It also gives the value-level meaning of
  every registry call (`Step`) and of a sequence of calls (`Run`). A call on an
  account that is not registered gives the `KeyError` that the Python
  dictionary lookup raises.
- `stats.dfy` (module `StatsRegistry`) holds the class `Stats`. Its one field
  `accountData: map<string, Record>` is reassigned in place, with one method
  per Python method. Each mutator states the whole new map, so it says which
  field of which account changes and that no other account changes.
  `InitNewAccount` adds its key when the account is new; every other mutator
  adds and removes no key. Each mutator is also tied to `Accounts.Step`.
  Every mutator keeps the invariant `Valid()`: no record has a negative
  session-drop count or failed-login count.
- `properties.dfy` (module `Properties`) holds lemmas about sequences of calls.
  Because every mutator is one `Step`, these lemmas apply to sequences of
  method calls on a `Stats` object. `StatsRegistry.RegisterThenReport` shows
  the link: it makes three method calls and proves that the object ends in
  the registry `Run` gives for those three calls.

The clock is a parameter:

- `now: string` stands for the formatted `datetime.now()` stamp.
- `nowMs: int` stands for the epoch-milliseconds reading taken by
  `initNewAccount`.

The optional `lastDropleague` and `reward` arguments are `Option<string>`. They
count as present when they are `Some(s)` with `s != ""`, which matches Python
truthiness.

Two behaviours worth stating plainly:

- Registering an account twice overwrites its record with defaults
  (src/Stats.py:9); nothing guards against a second call.
- `update` leaves `sessionDrops` and `lastDrop` alone for any `newDrops <= 0`
  (src/Stats.py:25).

## Model

| member | source | states |
|---|---|---|
| `Accounts.Default` | src/Stats.py:9-19 | the registered record has zero session, total and failed-login counts, `valid` true, empty `lastCheck` and `liveMatches`, the waiting status and no-drops placeholders, and `lastDropCheck` equal to the supplied clock |
| `Accounts.DropText` | src/Stats.py:27-34 | the `lastDrop` text starts with the stamp; it continues exactly when a league is present, with ` (league)` right after the stamp; it ends with ` (reward)` only when both reward and league are present; a reward without a league is ignored; its length is fixed accordingly |
| `Accounts.AfterUpdate` | src/Stats.py:23-34 | `lastCheck` becomes the stamp and `liveMatches` the argument; a positive `newDrops` raises `sessionDrops` by exactly that amount and sets `lastDrop` to the drop text; otherwise both stay unchanged; `sessionDrops` never decreases; every other field is unchanged; non-negative counters stay non-negative |
| `Accounts.Apply` | src/Stats.py:36-61 | each non-registering call on one record keeps the counters non-negative; `addLoginFailed` adds exactly 1, `resetLoginFailed` gives 0, `updateThreadStatus` flips `valid`, and only `update` touches `sessionDrops` |
| `Accounts.Step` | src/Stats.py:8-61 | a call raises `KeyError` exactly when it is not `initNewAccount` and its account is unregistered; a successful call leaves its account registered, adds no other key and leaves every other account's record unchanged; registering stores the default record; non-negative counters stay non-negative |
| `StatsRegistry.Stats.constructor` | src/Stats.py:5-6 | the registry starts empty |
| `StatsRegistry.Stats.InitNewAccount` | src/Stats.py:8-19 | the account's record becomes the default record, even if it already had one; other accounts are unchanged |
| `StatsRegistry.Stats.Update` | src/Stats.py:21-34 | only the named account's record changes, as `AfterUpdate` says; its `sessionDrops` does not decrease |
| `StatsRegistry.Stats.UpdateThreadStatus` | src/Stats.py:36-37 | negates the account's `valid` and changes nothing else |
| `StatsRegistry.Stats.GetThreadStatus` | src/Stats.py:39-40 | returns the account's current `valid` |
| `StatsRegistry.Stats.SetTotalDrops` | src/Stats.py:42-43 | sets the account's `totalDrops` to the amount and changes nothing else |
| `StatsRegistry.Stats.UpdateStatus` | src/Stats.py:45-46 | sets the account's `status` to the message and changes nothing else |
| `StatsRegistry.Stats.UpdateLastDropCheck` | src/Stats.py:48-49 | sets the account's `lastDropCheck` and changes nothing else, so a following `GetLastDropCheck` returns the value set |
| `StatsRegistry.Stats.GetLastDropCheck` | src/Stats.py:51-52 | returns the account's `lastDropCheck` |
| `StatsRegistry.Stats.AddLoginFailed` | src/Stats.py:54-55 | raises the account's failed-login counter by exactly 1 and changes nothing else |
| `StatsRegistry.Stats.ResetLoginFailed` | src/Stats.py:57-58 | sets the account's failed-login counter to 0 and changes nothing else |
| `StatsRegistry.RegisterThenReport` | src/Stats.py:8-55 | registering an account, reporting drops for it and counting a failed login leaves the object in exactly the registry that `Run` gives for those three calls; a positive report leaves `sessionDrops` equal to it and `liveMatches` equal to the reported text, and the failed-login counter at 1 |
| `StatsRegistry.Stats.GetFailedLogins` | src/Stats.py:60-61 | returns the account's failed-login counter, which is never negative while the invariant holds |
| `Properties.RunSucceedsIffRegistered` | src/Stats.py:23-61 | a sequence of calls raises no `KeyError` if and only if every call other than `initNewAccount` names an account that was present at the start or registered by an earlier call |
| `Properties.RunKeys` | src/Stats.py:8-61 | after a successful sequence of calls, the registered accounts are exactly the initial ones plus the ones registered along the way: no call removes a key, and only `initNewAccount` adds one |
| `Properties.RunKeepsCountersNonNegative` | src/Stats.py:8-61 | session drops and failed logins stay non-negative across any sequence of calls |
| `Properties.RunIsolatesAccounts` | src/Stats.py:21-61 | calls that name other accounts leave an account's record exactly as it was |
| `Properties.SessionDropsSum` | src/Stats.py:25-26 | unless the account is registered again, its `sessionDrops` grows by exactly the sum of the positive `newDrops` reported for it |
| `Properties.SessionDropsNeverDecrease` | src/Stats.py:25-26 | unless the account is registered again, its `sessionDrops` never decreases over any sequence of calls |
| `Properties.ReinitialiseResets` | src/Stats.py:8-19 | registering an account again after any run replaces its record with the defaults and leaves the rest of the registry alone |
| `Properties.FailedLoginsAccumulate` | src/Stats.py:54-55 | `k` failed logins raise the counter by exactly `k` and change nothing else |
| `Properties.FailedLoginsReset` | src/Stats.py:54-58 | after any number of failed logins, a reset brings the counter back to 0 and changes nothing else |
| `Properties.ToggleParity` | src/Stats.py:36-37 | `k` toggles leave `valid` flipped exactly when `k` is odd, and change nothing else |
| `Properties.ToggleTwiceRestores` | src/Stats.py:36-37 | toggling `valid` twice restores the registry |

## Left out

- src/main.py is not part of this model. It covers the supervisor loop, the
  daemon farm, GUI and data-provider threads, `is_alive`/`join` polling, the
  refresh lock, argument parsing, banner printing, directory creation, config
  and logger set-up, and the version check. All of that is thread management
  or I/O.
- The restart back-off policy (`Restarter.canRestart`, `setRestartDelay`,
  `getNextStart`) is left out. Its source is not part of this model, so no
  back-off law can be stated from the code.
- The call `Stats(farmThreads)` at src/main.py:58 passes an argument that
  `Stats.__init__` does not accept. The constructor is modelled as written in
  src/Stats.py, with no argument and an empty registry.
- Concurrency is not modelled. Nothing in `Stats` takes a lock, and each
  method is modelled as one atomic step.
- Clock reads and `strftime` formatting are not modelled. The formatted stamp
  and the epoch-milliseconds value are opaque parameters.
- `StatsRegistry.Stats.Update`: the Python reads the clock twice, once for
  `lastCheck` and once for `lastDrop`. The model uses one stamp `now` for both,
  so it does not capture the two stamps differing across a second boundary.
- Python default arguments (`newDrops=0`, `liveMatches=""`, `None`) are not
  modelled. Every argument is passed explicitly.
- Python's dynamic typing is not modelled. Arguments have the types the
  annotations state, and `newDrops` is an unbounded integer.
- The rich colour markup inside the placeholder strings is kept as opaque text.
