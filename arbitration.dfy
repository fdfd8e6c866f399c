/**
 * Reference semantics of the arbitration engine, as functions on a value copy
 * of its state: the table from service name to status, and the name of the
 * active service ("" for none).  Every operation of the engine is one function
 * here; the class in module Arbiter is proved to follow them.
 *
 * Go visits the services map in an unspecified order.  Every operation that
 * loops over the map takes that order as a parameter `visit`, which lists every
 * registered name exactly once (`Enumerates`); the properties hold for every order.
 */
module Arbitration {

  import opened Wrappers
  import opened Protocol
  import Config

  /** A value copy of one service's status (the Go `ServiceStatus` struct). */
  datatype Snapshot = Snapshot(
    name: string, displayName: string, baseUrl: string,
    online: bool, locked: bool, active: bool,
    priority: int, lastCheck: string, error: string)

  /** The engine's state: the status table and the active service ("" for none). */
  datatype ArbiterState = ArbiterState(services: map<string, Snapshot>, activeService: string)

  /** The errors the engine's operations return. */
  datatype ArbiterError =
    | NotFound(name: string)
    | Offline(name: string)
    | UnlockFailed(cause: ErrText)
    | CallFailed(cause: ErrText)
  {
    /** The text of the Go error value; it is never empty. */
    function Message(): (m: string)
      ensures |m| > 0
    {
      match this
      case NotFound(name) => "service not found: " + name
      case Offline(name) => "service is offline: " + name
      case UnlockFailed(cause) => "failed to unlock service: " + cause
      case CallFailed(cause) => cause
    }
  }

  /** The state after an operation and the error it returned, if any. */
  datatype Step = Step(next: ArbiterState, err: Option<ArbiterError>)

  /** The devices' answers to lock calls, by service name and request sent. */
  type LockNet = (string, Request) -> LockReply

  /** The devices' answers to status calls, by service name and URL fetched. */
  type StatusNet = (string, string) -> StatusReply

  predicate Distinct(s: seq<string>)
  {
    forall i, j | 0 <= i < j < |s| :: s[i] != s[j]
  }

  /** `visit` is an iteration order of the table: every registered name exactly once. */
  ghost predicate Enumerates(st: ArbiterState, visit: seq<string>)
  {
    (forall n :: n in visit <==> n in st.services) && Distinct(visit)
  }

  predicate Within(st: ArbiterState, names: seq<string>)
  {
    forall n | n in names :: n in st.services
  }

  /** Online and not locked: the condition the engine allows for at most one service. */
  predicate Unlocked(s: Snapshot)
  {
    s.online && !s.locked
  }

  /** The rule the engine upholds: at most one online service is unlocked. */
  predicate AtMostOneUnlocked(st: ArbiterState)
  {
    forall m, n | m in st.services && n in st.services && Unlocked(st.services[m]) && Unlocked(st.services[n]) :: m == n
  }

  /** The configured identity of a service, which no operation changes. */
  predicate SameService(s: Snapshot, t: Snapshot)
  {
    s.name == t.name && s.displayName == t.displayName && s.baseUrl == t.baseUrl && s.priority == t.priority
  }

  // ---------------------------------------------------------------------------
  // Construction

  /** The entry `New` creates for one configured service. */
  function Registered(d: Config.Service): (s: Snapshot)
    ensures s.name == d.name && s.displayName == d.displayName && s.baseUrl == d.baseUrl && s.priority == d.priority
    ensures !s.online && !s.locked && !s.active && s.error == ""
  {
    Snapshot(d.name, d.displayName, d.baseUrl, false, false, false, d.priority, "", "")
  }

  /** `cfg[i]` is the last descriptor with its name. */
  predicate LastWithName(cfg: seq<Config.Service>, i: nat)
    requires i < |cfg|
  {
    forall j | i < j < |cfg| :: cfg[j].name != cfg[i].name
  }

  /** The table `New` builds, one descriptor after another. */
  function InitialTable(cfg: seq<Config.Service>): map<string, Snapshot>
    decreases |cfg|
  {
    if cfg == [] then map[]
    else InitialTable(cfg[..|cfg| - 1])[cfg[|cfg| - 1].name := Registered(cfg[|cfg| - 1])]
  }

  /** Some descriptor of `cfg` has the name `n`. */
  predicate Configured(cfg: seq<Config.Service>, n: string)
  {
    exists i | 0 <= i < |cfg| :: cfg[i].name == n
  }

  /** `New` registers exactly the configured names. */
  lemma {:induction false} InitialTableKeys(cfg: seq<Config.Service>)
    ensures forall n :: n in InitialTable(cfg) <==> Configured(cfg, n)
    decreases |cfg|
  {
    if cfg != [] {
      var pre := cfg[..|cfg| - 1];
      var d := cfg[|cfg| - 1];
      InitialTableKeys(pre);
      forall n
        ensures n in InitialTable(cfg) <==> Configured(cfg, n)
      {
        if n != d.name {
          if Configured(pre, n) {
            var i :| 0 <= i < |pre| && pre[i].name == n;
            assert cfg[i].name == n;
          }
          if Configured(cfg, n) {
            var i :| 0 <= i < |cfg| && cfg[i].name == n;
            assert i < |pre| && pre[i].name == n;
          }
        } else {
          assert cfg[|cfg| - 1].name == n;
        }
      }
    }
  }

  /** Each entry `New` creates comes from the last descriptor with its name (a duplicate
      overwrites the earlier one) and starts offline, unlocked and inactive. */
  lemma {:induction false} InitialTableEntries(cfg: seq<Config.Service>)
    ensures forall i | 0 <= i < |cfg| :: cfg[i].name in InitialTable(cfg)
    ensures forall i | 0 <= i < |cfg| && LastWithName(cfg, i) :: InitialTable(cfg)[cfg[i].name] == Registered(cfg[i])
    ensures forall n | n in InitialTable(cfg) ::
      var s := InitialTable(cfg)[n]; s.name == n && !s.online && !s.locked && !s.active && s.error == ""
    decreases |cfg|
  {
    if cfg != [] {
      var pre := cfg[..|cfg| - 1];
      var d := cfg[|cfg| - 1];
      InitialTableEntries(pre);
      var m := InitialTable(cfg);
      assert m == InitialTable(pre)[d.name := Registered(d)];
      forall i | 0 <= i < |cfg|
        ensures cfg[i].name in m
      {
        if i < |pre| {
          assert cfg[i] == pre[i];
        }
      }
      forall i | 0 <= i < |cfg| && LastWithName(cfg, i)
        ensures m[cfg[i].name] == Registered(cfg[i])
      {
        if i < |pre| {
          assert cfg[i] == pre[i];
          assert LastWithName(pre, i);
          assert cfg[i].name != d.name;
        }
      }
    }
  }

  // ---------------------------------------------------------------------------
  // One lock call (lockServiceInternal)

  /** The result of the lock call the engine sends to `name`, through its adapter. */
  function LockOutcome(st: ArbiterState, name: string, lock: bool, net: LockNet): LockResult
    requires name in st.services
  {
    LockResultOf(net(name, LockRequest(name, st.services[name].baseUrl, lock)))
  }

  /** The entry after a lock call: on success it records the new lock state and
      clears the error; on failure it records the error and keeps the lock state. */
  function LockApplied(s: Snapshot, lock: bool, res: LockResult): (t: Snapshot)
    ensures SameService(s, t) && t.online == s.online && t.active == s.active && t.lastCheck == s.lastCheck
    ensures res.LockOk? ==> t.locked == lock && t.error == ""
    ensures res.LockFailed? ==> t.locked == s.locked && t.error == res.text && t.error != ""
  {
    match res
    case LockOk => s.(locked := lock, error := "")
    case LockFailed(text) => s.(error := text)
  }

  /** The state after one lock call; a successful lock of the active service clears it. */
  function AfterLock(st: ArbiterState, name: string, lock: bool, res: LockResult): ArbiterState
    requires name in st.services
  {
    var active := if res.LockOk? && lock && st.activeService == name then "" else st.activeService;
    ArbiterState(st.services[name := LockApplied(st.services[name], lock, res)], active)
  }

  /** One lock call changes only its own entry, and clears the active service exactly
      when it successfully locks it. */
  lemma LockCallEffect(st: ArbiterState, name: string, lock: bool, net: LockNet)
    requires name in st.services
    ensures var res := LockOutcome(st, name, lock, net);
      var r := AfterLock(st, name, lock, res);
      && r.services.Keys == st.services.Keys
      && r.services[name] == LockApplied(st.services[name], lock, res)
      && (forall n | n in st.services && n != name :: r.services[n] == st.services[n])
      && (res.LockOk? && lock && st.activeService == name ==> r.activeService == "")
      && (r.activeService != st.activeService ==> r.activeService == "" && res.LockOk? && lock && st.activeService == name)
  {
  }

  /** Repeating a lock call, which sends the same request and so gets the same reply,
      leaves the state as the first call left it. */
  lemma LockCallRepeat(st: ArbiterState, name: string, lock: bool, net: LockNet)
    requires name in st.services
    ensures var r := AfterLock(st, name, lock, LockOutcome(st, name, lock, net));
      AfterLock(r, name, lock, LockOutcome(r, name, lock, net)) == r
  {
    var res := LockOutcome(st, name, lock, net);
    var r := AfterLock(st, name, lock, res);
    assert LockOutcome(r, name, lock, net) == res;
  }

  // ---------------------------------------------------------------------------
  // Which services a loop over the table acts on

  /** The filters the engine's loops apply to each visited service, on the state the
      loop has reached when it gets there. */
  datatype Rule =
    | AllOnline                      // DeactivateAll
    | OtherOnline(except: string)    // ActivateService's peers
    | OtherUnlocked(except: string)  // LockService's peers when unlocking
    | AllUnlocked                    // enforceSingleUnlocked's candidates
    | AllBut(keep: string)           // enforceSingleUnlocked's lock calls

  predicate Wants(st: ArbiterState, n: string, rule: Rule)
    requires n in st.services
  {
    var s := st.services[n];
    match rule
    case AllOnline => s.online
    case OtherOnline(except) => n != except && s.online
    case OtherUnlocked(except) => n != except && Unlocked(s)
    case AllUnlocked => Unlocked(s)
    case AllBut(keep) => n != keep
  }

  /** The visited names that satisfy the rule, in visiting order. */
  function Select(st: ArbiterState, visit: seq<string>, rule: Rule): (r: seq<string>)
    requires Within(st, visit)
    ensures forall n :: n in r <==> n in visit && Wants(st, n, rule)
    decreases |visit|
  {
    if visit == [] then []
    else
      var pre := visit[..|visit| - 1];
      var n := visit[|visit| - 1];
      assert forall m | m in pre :: m in visit;
      if Wants(st, n, rule) then Select(st, pre, rule) + [n] else Select(st, pre, rule)
  }

  /** Select repeats no name the visiting order does not repeat. */
  lemma {:induction false} SelectDistinct(st: ArbiterState, visit: seq<string>, rule: Rule)
    requires Within(st, visit) && Distinct(visit)
    ensures Distinct(Select(st, visit, rule))
    decreases |visit|
  {
    if visit != [] {
      var pre := visit[..|visit| - 1];
      var n := visit[|visit| - 1];
      DropLast(st, visit);
      SelectDistinct(st, pre, rule);
      if Wants(st, n, rule) {
        assert Select(st, visit, rule) == Select(st, pre, rule) + [n];
        assert n !in Select(st, pre, rule);
      }
    }
  }

  /** The first name Select keeps is the first wanted one visited. */
  lemma {:induction false} SelectFirst(st: ArbiterState, visit: seq<string>, rule: Rule)
    requires Within(st, visit)
    ensures var r := Select(st, visit, rule);
      r != [] ==> exists k | 0 <= k < |visit| :: visit[k] == r[0] && forall j | 0 <= j < k :: !Wants(st, visit[j], rule)
    decreases |visit|
  {
    if visit != [] {
      var pre := visit[..|visit| - 1];
      var n := visit[|visit| - 1];
      assert forall m | m in pre :: m in visit;
      SelectFirst(st, pre, rule);
      var r' := Select(st, pre, rule);
      var r := Select(st, visit, rule);
      if r' == [] {
        if Wants(st, n, rule) {
          assert r == [n];
          forall j | 0 <= j < |visit| - 1
            ensures !Wants(st, visit[j], rule)
          {
            assert visit[j] == pre[j];
            assert visit[j] in pre;
          }
        }
      } else {
        assert r[0] == r'[0];
        var k :| 0 <= k < |pre| && pre[k] == r'[0] && forall j | 0 <= j < k :: !Wants(st, pre[j], rule);
        assert visit[k] == r[0];
        assert forall j | 0 <= j < k :: visit[j] == pre[j];
      }
    }
  }

  /** `x` occurs in `s` at an earlier position than `y`. */
  predicate Before(s: seq<string>, x: string, y: string)
  {
    exists i, j | 0 <= i < j < |s| :: s[i] == x && s[j] == y
  }

  /** Select keeps the visiting order: of two selected names, the earlier one was
      visited earlier. */
  lemma {:induction false} SelectKeepsOrder(st: ArbiterState, visit: seq<string>, rule: Rule)
    requires Within(st, visit)
    ensures forall a, b | 0 <= a < b < |Select(st, visit, rule)| ::
      Before(visit, Select(st, visit, rule)[a], Select(st, visit, rule)[b])
    decreases |visit|
  {
    if visit != [] {
      var pre := visit[..|visit| - 1];
      var n := visit[|visit| - 1];
      assert forall m | m in pre :: m in visit;
      SelectKeepsOrder(st, pre, rule);
      var r' := Select(st, pre, rule);
      var r := Select(st, visit, rule);
      forall a, b | 0 <= a < b < |r|
        ensures Before(visit, r[a], r[b])
      {
        if b < |r'| {
          assert r[a] == r'[a] && r[b] == r'[b];
          assert Before(pre, r'[a], r'[b]);
          var i, j :| 0 <= i < j < |pre| && pre[i] == r'[a] && pre[j] == r'[b];
          assert visit[i] == r[a] && visit[j] == r[b];
        } else {
          assert r == r' + [n] && r[b] == n;
          assert r[a] == r'[a] && r'[a] in r';
          var i :| 0 <= i < |pre| && pre[i] == r'[a];
          assert visit[i] == r[a] && visit[|visit| - 1] == r[b];
        }
      }
    }
  }

  // ---------------------------------------------------------------------------
  // A loop of best-effort lock calls

  /** What a loop of lock calls leaves behind: the state and the last error it saw. */
  datatype Swept = Swept(state: ArbiterState, lastErr: Option<ErrText>)

  /** Visit each name in turn and send it a lock call when the rule wants it in the state
      reached so far; a failure is recorded on the entry, remembered as the last error,
      and otherwise ignored. */
  function Sweep(st: ArbiterState, visit: seq<string>, rule: Rule, net: LockNet): (r: Swept)
    requires Within(st, visit)
    ensures r.state.services.Keys == st.services.Keys
    decreases |visit|
  {
    if visit == [] then Swept(st, None)
    else
      var pre := visit[..|visit| - 1];
      var n := visit[|visit| - 1];
      assert forall m | m in pre :: m in visit;
      var mid := Sweep(st, pre, rule, net);
      if Wants(mid.state, n, rule) then
        var res := LockOutcome(mid.state, n, true, net);
        Swept(AfterLock(mid.state, n, true, res), if res.LockFailed? then Some(res.text) else mid.lastErr)
      else mid
  }

  /** One more visited name: the loop makes that name's lock call, if the rule wants it
      in the state reached so far. */
  lemma SweepStep(st: ArbiterState, visit: seq<string>, i: nat, rule: Rule, net: LockNet)
    requires Within(st, visit) && i < |visit|
    ensures Within(st, visit[..i]) && Within(st, visit[..i + 1])
    ensures var mid := Sweep(st, visit[..i], rule, net);
      && visit[i] in mid.state.services
      && Sweep(st, visit[..i + 1], rule, net) ==
           if Wants(mid.state, visit[i], rule) then
             var res := LockOutcome(mid.state, visit[i], true, net);
             Swept(AfterLock(mid.state, visit[i], true, res), if res.LockFailed? then Some(res.text) else mid.lastErr)
           else mid
  {
    assert visit[..i + 1][..i] == visit[..i];
  }

  /** Dropping the last name keeps a sequence distinct and inside the table, and the
      dropped name is not among the rest. */
  lemma DropLast(st: ArbiterState, visit: seq<string>)
    requires visit != [] && Within(st, visit) && Distinct(visit)
    ensures var pre := visit[..|visit| - 1];
      Within(st, pre) && Distinct(pre) && visit[|visit| - 1] !in pre
  {
    var pre := visit[..|visit| - 1];
    assert forall i | 0 <= i < |pre| :: pre[i] == visit[i];
  }

  /** Over distinct names, an entry the rule wants in the state before the loop gets one
      lock call, made on its untouched entry; any other entry is untouched. */
  lemma {:induction false} SweepEntry(st: ArbiterState, visit: seq<string>, rule: Rule, net: LockNet, n: string)
    requires Within(st, visit) && Distinct(visit) && n in st.services
    ensures Sweep(st, visit, rule, net).state.services[n] ==
      if n in visit && Wants(st, n, rule) then LockApplied(st.services[n], true, LockOutcome(st, n, true, net))
      else st.services[n]
    decreases |visit|
  {
    if visit != [] {
      var pre := visit[..|visit| - 1];
      var last := visit[|visit| - 1];
      DropLast(st, visit);
      assert n in visit <==> n in pre || n == last;
      SweepEntry(st, pre, rule, net, n);
      if n == last {
        var mid := Sweep(st, pre, rule, net).state;
        assert LockOutcome(mid, n, true, net) == LockOutcome(st, n, true, net);
      }
    }
  }

  /** Over distinct names, the active service is cleared exactly when it is visited,
      wanted in the state before the loop, and its lock call succeeds. */
  lemma {:induction false} SweepActive(st: ArbiterState, visit: seq<string>, rule: Rule, net: LockNet)
    requires Within(st, visit) && Distinct(visit)
    ensures Sweep(st, visit, rule, net).state.activeService ==
      if st.activeService in visit && Wants(st, st.activeService, rule)
         && LockOutcome(st, st.activeService, true, net).LockOk?
      then "" else st.activeService
    decreases |visit|
  {
    if visit != [] {
      var pre := visit[..|visit| - 1];
      var last := visit[|visit| - 1];
      DropLast(st, visit);
      assert st.activeService in visit <==> st.activeService in pre || st.activeService == last;
      SweepActive(st, pre, rule, net);
      SweepEntry(st, pre, rule, net, last);
      var mid := Sweep(st, pre, rule, net).state;
      assert LockOutcome(mid, last, true, net) == LockOutcome(st, last, true, net);
    }
  }

  /** Over distinct names, each one the rule wants in the state before the loop gets one
      lock call, made on its untouched entry, and no other entry changes; the active
      service is cleared exactly when it is visited, wanted, and its lock call succeeds. */
  lemma SweepEffect(st: ArbiterState, visit: seq<string>, rule: Rule, net: LockNet)
    requires Within(st, visit) && Distinct(visit)
    ensures forall n | n in st.services ::
      Sweep(st, visit, rule, net).state.services[n] ==
        if n in visit && Wants(st, n, rule) then LockApplied(st.services[n], true, LockOutcome(st, n, true, net))
        else st.services[n]
    ensures Sweep(st, visit, rule, net).state.activeService ==
      if st.activeService in visit && Wants(st, st.activeService, rule)
         && LockOutcome(st, st.activeService, true, net).LockOk?
      then "" else st.activeService
  {
    forall n | n in st.services
      ensures Sweep(st, visit, rule, net).state.services[n] ==
        if n in visit && Wants(st, n, rule) then LockApplied(st.services[n], true, LockOutcome(st, n, true, net))
        else st.services[n]
    {
      SweepEntry(st, visit, rule, net, n);
    }
    SweepActive(st, visit, rule, net);
  }

  /** No lock call is owed to `n`, or the one made to it succeeds. */
  predicate Fine(st: ArbiterState, n: string, rule: Rule, net: LockNet)
    requires n in st.services
  {
    !Wants(st, n, rule) || LockOutcome(st, n, true, net).LockOk?
  }

  /** `visit[i]` is owed a lock call, that call fails with `text`, and every later one is fine. */
  predicate FailsLastAt(st: ArbiterState, visit: seq<string>, i: nat, rule: Rule, net: LockNet, text: ErrText)
    requires Within(st, visit) && i < |visit|
  {
    && Wants(st, visit[i], rule)
    && LockOutcome(st, visit[i], true, net) == LockFailed(text)
    && forall j | i < j < |visit| :: Fine(st, visit[j], rule, net)
  }

  /** Over distinct names, the loop reports no error exactly when every lock call it owes
      succeeds, and otherwise the error of the last failing one in visiting order. */
  lemma {:induction false} SweepLastError(st: ArbiterState, visit: seq<string>, rule: Rule, net: LockNet)
    requires Within(st, visit) && Distinct(visit)
    ensures Sweep(st, visit, rule, net).lastErr.None? <==>
      forall i | 0 <= i < |visit| :: Fine(st, visit[i], rule, net)
    ensures Sweep(st, visit, rule, net).lastErr.Some? ==>
      exists i | 0 <= i < |visit| :: FailsLastAt(st, visit, i, rule, net, Sweep(st, visit, rule, net).lastErr.value)
    decreases |visit|
  {
    if visit != [] {
      var pre := visit[..|visit| - 1];
      var k := |visit| - 1;
      var last := visit[k];
      DropLast(st, visit);
      SweepLastError(st, pre, rule, net);
      SweepEntry(st, pre, rule, net, last);
      var mid := Sweep(st, pre, rule, net);
      assert Fine(mid.state, last, rule, net) == Fine(st, last, rule, net);
      var r := Sweep(st, visit, rule, net).lastErr;
      if !Fine(st, last, rule, net) {
        assert r == Some(LockOutcome(st, last, true, net).text);
        assert FailsLastAt(st, visit, k, rule, net, r.value);
      } else {
        assert r == mid.lastErr;
        FineExtends(st, visit, rule, net, r);
      }
    }
  }

  /** When the last visited name is fine, the facts about the loop over the others carry
      over to the whole visit. */
  lemma FineExtends(st: ArbiterState, visit: seq<string>, rule: Rule, net: LockNet, r: Option<ErrText>)
    requires visit != [] && Within(st, visit)
    requires Fine(st, visit[|visit| - 1], rule, net)
    requires var pre := visit[..|visit| - 1];
      && Within(st, pre)
      && (r.None? <==> forall i | 0 <= i < |pre| :: Fine(st, pre[i], rule, net))
      && (r.Some? ==> exists i | 0 <= i < |pre| :: FailsLastAt(st, pre, i, rule, net, r.value))
    ensures r.None? <==> forall i | 0 <= i < |visit| :: Fine(st, visit[i], rule, net)
    ensures r.Some? ==> exists i | 0 <= i < |visit| :: FailsLastAt(st, visit, i, rule, net, r.value)
  {
    var pre := visit[..|visit| - 1];
    var k := |visit| - 1;
    assert forall i | 0 <= i < |pre| :: pre[i] == visit[i];
    if r.Some? {
      var i :| 0 <= i < |pre| && FailsLastAt(st, pre, i, rule, net, r.value);
      assert FailsLastAt(st, visit, i, rule, net, r.value);
      var j :| 0 <= j < |pre| && !Fine(st, pre[j], rule, net);
      assert !Fine(st, visit[j], rule, net);
    }
  }

  // ---------------------------------------------------------------------------
  // ActivateService, LockService, DeactivateAll

  /** ActivateService(name): refuse an unknown or offline target; otherwise lock every
      other online service (best effort), then unlock the target, which becomes the
      active service if that call succeeds. */
  function Activation(st: ArbiterState, name: string, visit: seq<string>, net: LockNet): Step
    requires Enumerates(st, visit)
  {
    if name !in st.services then Step(st, Some(NotFound(name)))
    else if !st.services[name].online then Step(st, Some(Offline(name)))
    else
      var swept := Sweep(st, visit, OtherOnline(name), net).state;
      var res := LockOutcome(swept, name, false, net);
      var after := AfterLock(swept, name, false, res);
      if res.LockOk? then Step(after.(activeService := name), None)
      else Step(after, Some(UnlockFailed(res.text)))
  }

  /** Activation refuses an unknown or offline target and changes nothing; otherwise every
      other online service gets one lock call, the target one unlock call, the error is
      exactly the target's failure, a success makes the target active and unlocked, and
      a failure leaves the active service as the peers' lock calls left it. */
  lemma ActivationEffect(st: ArbiterState, name: string, visit: seq<string>, net: LockNet)
    requires Enumerates(st, visit)
    ensures name !in st.services ==> Activation(st, name, visit, net) == Step(st, Some(NotFound(name)))
    ensures name in st.services && !st.services[name].online ==>
      Activation(st, name, visit, net) == Step(st, Some(Offline(name)))
    ensures name in st.services && st.services[name].online ==>
      var r := Activation(st, name, visit, net);
      && r.next.services.Keys == st.services.Keys
      && (forall n | n in st.services && n != name ::
            r.next.services[n] == if st.services[n].online then LockApplied(st.services[n], true, LockOutcome(st, n, true, net))
                                  else st.services[n])
      && r.next.services[name] == LockApplied(st.services[name], false, LockOutcome(st, name, false, net))
      && (r.err.None? <==> LockOutcome(st, name, false, net).LockOk?)
      && (r.err.None? ==> r.next.activeService == name && !r.next.services[name].locked)
      && (r.err.Some? ==> r.err == Some(UnlockFailed(LockOutcome(st, name, false, net).text)))
      && (r.err.Some? ==>
            r.next.activeService ==
              (if st.activeService != name && st.activeService in st.services && st.services[st.activeService].online
                  && LockOutcome(st, st.activeService, true, net).LockOk?
               then "" else st.activeService))
  {
    if name in st.services && st.services[name].online {
      var swept := Sweep(st, visit, OtherOnline(name), net).state;
      forall n | n in st.services && n != name
        ensures swept.services[n] == if st.services[n].online then LockApplied(st.services[n], true, LockOutcome(st, n, true, net))
                                     else st.services[n]
      {
        SweepEntry(st, visit, OtherOnline(name), net, n);
      }
      SweepEntry(st, visit, OtherOnline(name), net, name);
      SweepActive(st, visit, OtherOnline(name), net);
      var res := LockOutcome(st, name, false, net);
      assert LockOutcome(swept, name, false, net) == res;
      var after := AfterLock(swept, name, false, res);
      assert after.services.Keys == swept.services.Keys;
      assert after.activeService == swept.activeService;
    }
  }

  /** LockService(name, lock): refuse an unknown name; when unlocking, first lock every
      other online unlocked service (best effort); then apply the target's call and
      return its error. */
  function LockChange(st: ArbiterState, name: string, lock: bool, visit: seq<string>, net: LockNet): Step
    requires Enumerates(st, visit)
  {
    if name !in st.services then Step(st, Some(NotFound(name)))
    else
      var prepared := if lock then st else Sweep(st, visit, OtherUnlocked(name), net).state;
      var res := LockOutcome(prepared, name, lock, net);
      Step(AfterLock(prepared, name, lock, res), if res.LockOk? then None else Some(CallFailed(res.text)))
  }

  /** LockChange refuses an unknown name and changes nothing; otherwise an unlock first
      locks every other online unlocked service, the target gets one call, the error is
      exactly that call's failure, and the active service is cleared exactly when a
      successful lock call reached it. */
  lemma LockChangeEffect(st: ArbiterState, name: string, lock: bool, visit: seq<string>, net: LockNet)
    requires Enumerates(st, visit)
    ensures name !in st.services ==> LockChange(st, name, lock, visit, net) == Step(st, Some(NotFound(name)))
    ensures name in st.services ==>
      var r := LockChange(st, name, lock, visit, net);
      && r.next.services.Keys == st.services.Keys
      && (forall n | n in st.services && n != name ::
            r.next.services[n] == if !lock && Unlocked(st.services[n]) then LockApplied(st.services[n], true, LockOutcome(st, n, true, net))
                                  else st.services[n])
      && r.next.services[name] == LockApplied(st.services[name], lock, LockOutcome(st, name, lock, net))
      && (r.err.None? <==> LockOutcome(st, name, lock, net).LockOk?)
      && (r.err.Some? ==> r.err == Some(CallFailed(LockOutcome(st, name, lock, net).text)))
      && r.next.activeService ==
           if (lock && st.activeService == name && LockOutcome(st, name, true, net).LockOk?)
              || (!lock && st.activeService != name && st.activeService in st.services
                  && Unlocked(st.services[st.activeService]) && LockOutcome(st, st.activeService, true, net).LockOk?)
           then "" else st.activeService
  {
    if name in st.services && !lock {
      var swept := Sweep(st, visit, OtherUnlocked(name), net).state;
      forall n | n in st.services && n != name
        ensures swept.services[n] == if !lock && Unlocked(st.services[n]) then LockApplied(st.services[n], true, LockOutcome(st, n, true, net))
                                     else st.services[n]
      {
        SweepEntry(st, visit, OtherUnlocked(name), net, n);
      }
      SweepEntry(st, visit, OtherUnlocked(name), net, name);
      SweepActive(st, visit, OtherUnlocked(name), net);
      var res := LockOutcome(st, name, false, net);
      assert LockOutcome(swept, name, false, net) == res;
      var after := AfterLock(swept, name, false, res);
      assert after.services.Keys == swept.services.Keys;
      assert after.activeService == swept.activeService;
    }
  }

  /** DeactivateAll: lock every online service, clear the active service whatever happens,
      and return the last failure in visiting order. */
  function Deactivation(st: ArbiterState, visit: seq<string>, net: LockNet): Step
    requires Enumerates(st, visit)
  {
    var swept := Sweep(st, visit, AllOnline, net);
    Step(swept.state.(activeService := ""), if swept.lastErr.Some? then Some(CallFailed(swept.lastErr.value)) else None)
  }

  /** Deactivation clears the active service, gives every online service one lock call,
      returns no error exactly when all of them succeed, and otherwise the error of the
      last one to fail in visiting order. */
  lemma DeactivationEffect(st: ArbiterState, visit: seq<string>, net: LockNet)
    requires Enumerates(st, visit)
    ensures Deactivation(st, visit, net).next.activeService == ""
    ensures Deactivation(st, visit, net).next.services.Keys == st.services.Keys
    ensures forall n | n in st.services ::
      Deactivation(st, visit, net).next.services[n] ==
        if st.services[n].online then LockApplied(st.services[n], true, LockOutcome(st, n, true, net))
        else st.services[n]
    ensures Deactivation(st, visit, net).err.None? <==> forall n | n in st.services :: Fine(st, n, AllOnline, net)
    ensures Deactivation(st, visit, net).err.Some? ==> exists i, text | 0 <= i < |visit| ::
      FailsLastAt(st, visit, i, AllOnline, net, text) && Deactivation(st, visit, net).err == Some(CallFailed(text))
  {
    SweepEffect(st, visit, AllOnline, net);
    SweepLastError(st, visit, AllOnline, net);
    var last := Sweep(st, visit, AllOnline, net).lastErr;
    if last.None? {
      forall n | n in st.services
        ensures Fine(st, n, AllOnline, net)
      {
        var i :| 0 <= i < |visit| && visit[i] == n;
      }
    } else {
      var i :| 0 <= i < |visit| && FailsLastAt(st, visit, i, AllOnline, net, last.value);
      assert !Fine(st, visit[i], AllOnline, net);
    }
  }

  // ---------------------------------------------------------------------------
  // Polling one service (pollServiceInternal)

  /** The reply to the status call the engine sends to `name`. */
  function StatusOf(st: ArbiterState, name: string, net: StatusNet): StatusReply
    requires name in st.services
  {
    net(name, st.services[name].baseUrl + StatusPath(name))
  }

  /** The entry after a status call.  A transport error or a non-200 status takes the
      service offline and inactive; an unreadable or undecodable body takes it offline
      but keeps `active`; none of them touch `locked`.  A decoded body brings it online
      and clears the error; its `locked` field, then `state`, then `active` field
      overwrite what they name, and absent fields leave the entry as it was. */
  function Polled(s: Snapshot, reply: StatusReply, stamp: string): Snapshot
  {
    var s := s.(lastCheck := stamp);
    match reply
    case GetFailed(text) => s.(online := false, active := false, error := text)
    case StatusAnswered(code, body) =>
      if code != 200 then s.(online := false, active := false, error := "status code: " + Decimal(code))
      else
        match body
        case ReadFailed(text) => s.(online := false, error := text)
        case Undecodable(text) => s.(online := false, error := text)
        case Decoded(doc) => Decode(s.(online := true, error := ""), Payload(doc))
  }

  /** A status call keeps the configured fields and stamps the check time.  A transport
      error or a non-200 status takes the service offline and inactive; an unreadable or
      undecodable body takes it offline but keeps `active`; none of them touch `locked`,
      and each records a non-empty error.  A decoded body brings it online and clears the
      error; `locked` follows its field if present, and `active` follows the `active`
      field, else the `state` field, else stays as it was. */
  lemma PolledEffect(s: Snapshot, reply: StatusReply, stamp: string)
    ensures var t := Polled(s, reply, stamp);
      && SameService(s, t) && t.lastCheck == stamp
      && (t.online <==> reply.StatusAnswered? && reply.code == 200 && reply.body.Decoded?)
      && (!t.online ==> t.error != "" && t.locked == s.locked)
      && (reply.GetFailed? ==> !t.active && t.error == reply.text)
      && (reply.StatusAnswered? && reply.code != 200 ==> !t.active && t.error == "status code: " + Decimal(reply.code))
      && (reply.StatusAnswered? && reply.code == 200 && !reply.body.Decoded? ==> t.active == s.active && t.error == reply.body.text)
      && (t.online ==>
            var p := Payload(reply.body.doc);
            && t.error == ""
            && t.locked == (if BoolField(p, "locked").Some? then BoolField(p, "locked").value else s.locked)
            && (BoolField(p, "active").Some? ==> t.active == BoolField(p, "active").value)
            && (BoolField(p, "active").None? && StringField(p, "state").Some? ==> t.active == (StringField(p, "state").value == "playing"))
            && (BoolField(p, "active").None? && StringField(p, "state").None? ==> t.active == s.active))
  {
  }

  /** The field rules of a successful status call, applied in the engine's order. */
  function Decode(s: Snapshot, p: Doc): Snapshot
  {
    var s := if BoolField(p, "locked").Some? then s.(locked := BoolField(p, "locked").value) else s;
    var s := if StringField(p, "state").Some? then s.(active := StringField(p, "state").value == "playing") else s;
    if BoolField(p, "active").Some? then s.(active := BoolField(p, "active").value) else s
  }

  /** The state after polling `name`: its entry as the status call leaves it, then the
      active-service tracking, which only a decoded reply reaches. */
  function AfterPoll(st: ArbiterState, name: string, net: StatusNet, stamp: string): ArbiterState
    requires name in st.services
  {
    var t := Polled(st.services[name], StatusOf(st, name, net), stamp);
    var active :=
      if !t.online then st.activeService
      else if t.active && !t.locked then name
      else if st.activeService == name && !t.active then ""
      else st.activeService;
    ArbiterState(st.services[name := t], active)
  }

  /** Polling `name` replaces only its entry.  Error paths never change the active
      service; a service that answers active and unlocked becomes it; the active service
      stops being it when it answers inactive; nothing else changes it. */
  lemma AfterPollEffect(st: ArbiterState, name: string, net: StatusNet, stamp: string)
    requires name in st.services
    ensures var r := AfterPoll(st, name, net, stamp);
      var t := Polled(st.services[name], StatusOf(st, name, net), stamp);
      && r.services == st.services[name := t]
      && (!t.online ==> r.activeService == st.activeService)
      && (t.online && t.active && !t.locked ==> r.activeService == name)
      && (t.online && !t.active && st.activeService == name ==> r.activeService == "")
      && (r.activeService != st.activeService ==> t.online && (r.activeService == name || r.activeService == ""))
      && (t.online && !(t.active && !t.locked) && !(st.activeService == name && !t.active) ==>
            r.activeService == st.activeService)
  {
  }

  /** Poll each visited service in turn; `stamps` gives each one's check time. */
  function PollSweep(st: ArbiterState, visit: seq<string>, net: StatusNet, stamps: string -> string): (r: ArbiterState)
    requires Within(st, visit)
    ensures r.services.Keys == st.services.Keys
    decreases |visit|
  {
    if visit == [] then st
    else
      var pre := visit[..|visit| - 1];
      var last := visit[|visit| - 1];
      assert forall m | m in pre :: m in visit;
      AfterPoll(PollSweep(st, pre, net, stamps), last, net, stamps(last))
  }

  /** One more visited name: the sweep grows by that name's status call. */
  lemma PollSweepStep(st: ArbiterState, visit: seq<string>, i: nat, net: StatusNet, stamps: string -> string)
    requires Within(st, visit) && i < |visit|
    ensures Within(st, visit[..i]) && Within(st, visit[..i + 1])
    ensures visit[i] in PollSweep(st, visit[..i], net, stamps).services
    ensures PollSweep(st, visit[..i + 1], net, stamps) ==
      AfterPoll(PollSweep(st, visit[..i], net, stamps), visit[i], net, stamps(visit[i]))
  {
    assert visit[..i + 1][..i] == visit[..i];
  }

  /** Over distinct names, every visited entry ends as one status call leaves it, and
      the others are untouched. */
  lemma {:induction false} PollSweepEffect(st: ArbiterState, visit: seq<string>, net: StatusNet, stamps: string -> string)
    requires Within(st, visit) && Distinct(visit)
    ensures forall n | n in st.services ::
      PollSweep(st, visit, net, stamps).services[n] ==
        if n in visit then Polled(st.services[n], StatusOf(st, n, net), stamps(n)) else st.services[n]
    decreases |visit|
  {
    if visit != [] {
      var pre := visit[..|visit| - 1];
      var last := visit[|visit| - 1];
      assert visit == pre + [last];
      DropLast(st, visit);
      PollSweepEffect(st, pre, net, stamps);
      var mid := PollSweep(st, pre, net, stamps);
      assert mid.services[last] == st.services[last];
      assert StatusOf(mid, last, net) == StatusOf(st, last, net);
    }
  }

  // ---------------------------------------------------------------------------
  // Enforcing the single-unlocked rule (enforceSingleUnlocked)

  /** The first position of a lowest priority number in `s`. */
  function LowestIndex(st: ArbiterState, s: seq<string>): (i: nat)
    requires |s| > 0 && Within(st, s)
    ensures i < |s|
    ensures forall j | 0 <= j < |s| :: st.services[s[i]].priority <= st.services[s[j]].priority
    ensures forall j | 0 <= j < i :: st.services[s[j]].priority > st.services[s[i]].priority
    decreases |s|
  {
    if |s| == 1 then 0
    else
      var pre := s[..|s| - 1];
      assert forall m | m in pre :: m in s;
      var k := LowestIndex(st, pre);
      assert pre[k] == s[k];
      if st.services[s[|s| - 1]].priority < st.services[s[k]].priority then |s| - 1 else k
  }

  /** Which of the unlocked services stays unlocked: the active service when it is one of
      them; the first of them when the active service is set but is not one of them;
      otherwise the first with the lowest priority number. */
  function KeepUnlocked(st: ArbiterState, unlocked: seq<string>): (k: string)
    requires |unlocked| > 0 && Within(st, unlocked)
    ensures k in unlocked
    ensures st.activeService != "" && st.activeService in unlocked ==> k == st.activeService
    ensures st.activeService != "" && st.activeService !in unlocked ==> k == unlocked[0]
    ensures st.activeService == "" ==>
      exists i | 0 <= i < |unlocked| ::
        && unlocked[i] == k
        && (forall j | 0 <= j < |unlocked| :: st.services[k].priority <= st.services[unlocked[j]].priority)
        && (forall j | 0 <= j < i :: st.services[unlocked[j]].priority > st.services[k].priority)
  {
    if st.activeService != "" then
      if st.activeService in unlocked then st.activeService else unlocked[0]
    else
      unlocked[LowestIndex(st, unlocked)]
  }

  /** enforceSingleUnlocked: when two or more visited services are online and unlocked,
      lock all of them but the kept one (best effort). */
  function Reconciled(st: ArbiterState, visit: seq<string>, net: LockNet): ArbiterState
    requires Within(st, visit)
  {
    var unlocked := Select(st, visit, AllUnlocked);
    if |unlocked| > 1 then
      Sweep(st, unlocked, AllBut(KeepUnlocked(st, unlocked)), net).state
    else st
  }

  /** Over distinct visited names, enforcement never changes the active service and
      touches only visited services that are online and unlocked; with at most one of
      them it changes nothing; otherwise the kept one is untouched and each of the others
      gets one lock call. */
  lemma ReconciledEffect(st: ArbiterState, visit: seq<string>, net: LockNet)
    requires Within(st, visit) && Distinct(visit)
    ensures var r := Reconciled(st, visit, net);
      && r.activeService == st.activeService
      && r.services.Keys == st.services.Keys
      && (forall n | n in st.services && !(n in visit && Unlocked(st.services[n])) :: r.services[n] == st.services[n])
      && (|Select(st, visit, AllUnlocked)| <= 1 ==> r == st)
    ensures var r := Reconciled(st, visit, net);
      var u := Select(st, visit, AllUnlocked);
      |u| > 1 ==>
        && r.services[KeepUnlocked(st, u)] == st.services[KeepUnlocked(st, u)]
        && forall n | n in u && n != KeepUnlocked(st, u) ::
             r.services[n] == LockApplied(st.services[n], true, LockOutcome(st, n, true, net))
  {
    var u := Select(st, visit, AllUnlocked);
    if |u| > 1 {
      var keep := KeepUnlocked(st, u);
      SelectDistinct(st, visit, AllUnlocked);
      SweepEffect(st, u, AllBut(keep), net);
      if st.activeService != "" && st.activeService in u {
        assert keep == st.activeService;
      }
    }
  }

  /** `visit[k]` is online and unlocked, no online unlocked service has a lower priority
      number, and every online unlocked service visited before it has a higher one. */
  predicate FirstLowestAt(st: ArbiterState, visit: seq<string>, k: nat)
    requires Within(st, visit) && k < |visit|
  {
    && Unlocked(st.services[visit[k]])
    && (forall i | 0 <= i < |visit| && Unlocked(st.services[visit[i]]) ::
          st.services[visit[k]].priority <= st.services[visit[i]].priority)
    && (forall i | 0 <= i < k && Unlocked(st.services[visit[i]]) ::
          st.services[visit[i]].priority > st.services[visit[k]].priority)
  }

  /** An online unlocked service visited before the first of least priority number
      among the selected ones has a strictly higher priority number. */
  lemma EarlierUnlockedIsHigher(st: ArbiterState, visit: seq<string>, p: nat, k: nat, i: nat)
    requires Within(st, visit) && Distinct(visit)
    requires p < |Select(st, visit, AllUnlocked)|
    requires forall j | 0 <= j < p ::
      st.services[Select(st, visit, AllUnlocked)[j]].priority > st.services[Select(st, visit, AllUnlocked)[p]].priority
    requires i < k < |visit| && visit[k] == Select(st, visit, AllUnlocked)[p]
    requires Unlocked(st.services[visit[i]])
    ensures st.services[visit[i]].priority > st.services[visit[k]].priority
  {
    var u := Select(st, visit, AllUnlocked);
    assert visit[i] in u;
    var a :| 0 <= a < |u| && u[a] == visit[i];
    if a > p {
      SelectKeepsOrder(st, visit, AllUnlocked);
      assert false;
    }
    assert a != p;
  }

  /** With no active service, the service kept unlocked is the first online unlocked
      service of least priority number in visiting order. */
  lemma KeepIsFirstLowest(st: ArbiterState, visit: seq<string>)
    requires Within(st, visit) && Distinct(visit)
    requires st.activeService == "" && |Select(st, visit, AllUnlocked)| > 0
    ensures exists k | 0 <= k < |visit| ::
      visit[k] == KeepUnlocked(st, Select(st, visit, AllUnlocked)) && FirstLowestAt(st, visit, k)
  {
    var u := Select(st, visit, AllUnlocked);
    var keep := KeepUnlocked(st, u);
    var p :| 0 <= p < |u| && u[p] == keep
      && (forall j | 0 <= j < |u| :: st.services[keep].priority <= st.services[u[j]].priority)
      && (forall j | 0 <= j < p :: st.services[u[j]].priority > st.services[keep].priority);
    assert keep in visit;
    var k :| 0 <= k < |visit| && visit[k] == keep;
    forall i | 0 <= i < |visit| && Unlocked(st.services[visit[i]])
      ensures st.services[keep].priority <= st.services[visit[i]].priority
    {
      assert visit[i] in u;
    }
    forall i | 0 <= i < k && Unlocked(st.services[visit[i]])
      ensures st.services[visit[i]].priority > st.services[keep].priority
    {
      EarlierUnlockedIsHigher(st, visit, p, k, i);
    }
    assert FirstLowestAt(st, visit, k);
  }

  /** With no active service and two or more online unlocked services, enforcement
      leaves unlocked the first of least priority number in visiting order, untouched. */
  lemma KeptIsFirstLowest(st: ArbiterState, visit: seq<string>, net: LockNet)
    requires Within(st, visit) && Distinct(visit)
    requires st.activeService == "" && |Select(st, visit, AllUnlocked)| > 1
    ensures exists k | 0 <= k < |visit| ::
      && visit[k] == KeepUnlocked(st, Select(st, visit, AllUnlocked))
      && FirstLowestAt(st, visit, k)
      && Reconciled(st, visit, net).services[visit[k]] == st.services[visit[k]]
  {
    KeepIsFirstLowest(st, visit);
    ReconciledEffect(st, visit, net);
  }

  /** If every lock call it makes succeeds, enforcement leaves at most one online service
      unlocked, and it leaves one unlocked if there was one. */
  lemma {:induction false} ReconciledLeavesOneUnlocked(st: ArbiterState, visit: seq<string>, net: LockNet)
    requires Enumerates(st, visit)
    requires forall n | n in st.services && Unlocked(st.services[n]) :: LockOutcome(st, n, true, net).LockOk?
    ensures AtMostOneUnlocked(Reconciled(st, visit, net))
    ensures (exists n | n in st.services :: Unlocked(st.services[n])) ==>
      exists n | n in st.services :: Unlocked(Reconciled(st, visit, net).services[n])
  {
    ReconciledEffect(st, visit, net);
    var r := Reconciled(st, visit, net);
    var u := Select(st, visit, AllUnlocked);
    forall m, n | m in r.services && n in r.services && Unlocked(r.services[m]) && Unlocked(r.services[n])
      ensures m == n
    {
      assert m in u && n in u;
      if |u| > 1 {
        var keep := KeepUnlocked(st, u);
        assert m == keep && n == keep;
      } else {
        assert u == [u[0]];
      }
    }
    if exists n | n in st.services :: Unlocked(st.services[n]) {
      var n :| n in st.services && Unlocked(st.services[n]);
      assert n in u;
      if |u| > 1 {
        var keep := KeepUnlocked(st, u);
        assert Unlocked(r.services[keep]);
      } else {
        assert Unlocked(r.services[n]);
      }
    }
  }

  // ---------------------------------------------------------------------------
  // The poll cycle (pollAllServices)

  /** One poll cycle: poll every service, then enforce the single-unlocked rule.  The two
      loops each visit the table in an order of their own. */
  function PollCycle(st: ArbiterState, visit: seq<string>, statusNet: StatusNet, stamps: string -> string,
                     order: seq<string>, lockNet: LockNet): ArbiterState
    requires Enumerates(st, visit) && Enumerates(st, order)
  {
    Reconciled(PollSweep(st, visit, statusNet, stamps), order, lockNet)
  }

  /** After a poll cycle whose lock calls all succeed, at most one online service is
      unlocked, whatever the two visiting orders and the status replies. */
  lemma PollCycleLeavesOneUnlocked(st: ArbiterState, visit: seq<string>, statusNet: StatusNet, stamps: string -> string,
                                   order: seq<string>, lockNet: LockNet)
    requires Enumerates(st, visit) && Enumerates(st, order)
    requires forall n | n in st.services :: LockOutcome(st, n, true, lockNet).LockOk?
    ensures AtMostOneUnlocked(PollCycle(st, visit, statusNet, stamps, order, lockNet))
  {
    var polled := PollSweep(st, visit, statusNet, stamps);
    PollSweepEffect(st, visit, statusNet, stamps);
    forall n | n in st.services {
      PolledEffect(st.services[n], StatusOf(st, n, statusNet), stamps(n));
    }
    assert forall n | n in st.services :: LockOutcome(polled, n, true, lockNet) == LockOutcome(st, n, true, lockNet);
    ReconciledLeavesOneUnlocked(polled, order, lockNet);
  }
}