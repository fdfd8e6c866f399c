/**
 * The arbitration engine as the Go code has it: an object holding the status
 * table and the active service, updated step by step by the lock operations and
 * the poll cycle.  Each public method is one atomic step (the Go mutex serialises
 * them).  Every method is proved to leave `State()` as the matching function of
 * module Arbitration says; the properties are proved about those functions.
 */
module Arbiter {

  import opened Wrappers
  import opened Protocol
  import opened Arbitration
  import Config

  class Arbiter {
    /** The status table.  Go keeps a pointer per entry and writes its fields in place;
        here each entry is a value and every field write stores the updated entry back. */
    var services: map<string, Snapshot>
    /** The active service, "" for none. */
    var activeService: string

    /** The active service is "" or a registered name. */
    ghost predicate Valid()
      reads this
    {
      activeService == "" || activeService in services
    }

    /** The state the functions of module Arbitration describe. */
    function State(): ArbiterState
      reads this
    {
      ArbiterState(services, activeService)
    }

    /** New: one entry per configured name, all offline, unlocked and inactive. */
    constructor (cfg: seq<Config.Service>)
      ensures Valid()
      ensures State() == ArbiterState(InitialTable(cfg), "")
    {
      var m: map<string, Snapshot> := map[];
      var i := 0;
      while i < |cfg|
        invariant 0 <= i <= |cfg|
        invariant m == InitialTable(cfg[..i])
      {
        assert cfg[..i + 1][..i] == cfg[..i];
        m := m[cfg[i].name := Registered(cfg[i])];
        i := i + 1;
      }
      assert cfg[..|cfg|] == cfg;
      services := m;
      activeService := "";
    }

    /** GetAllStatus: a copy of every entry, in visiting order. */
    method GetAllStatus(visit: seq<string>) returns (statuses: seq<Snapshot>)
      requires Enumerates(State(), visit)
      ensures |statuses| == |visit|
      ensures forall i | 0 <= i < |visit| :: statuses[i] == services[visit[i]]
    {
      statuses := [];
      var i := 0;
      while i < |visit|
        invariant 0 <= i <= |visit|
        invariant |statuses| == i
        invariant forall j | 0 <= j < i :: statuses[j] == services[visit[j]]
      {
        statuses := statuses + [services[visit[i]]];
        i := i + 1;
      }
    }

    /** GetServiceStatus: the entry, or NotFound. */
    function GetServiceStatus(name: string): (r: Result<Snapshot, ArbiterError>)
      reads this
      ensures r.Ok? <==> name in services
      ensures r.Ok? ==> r.value == services[name]
      ensures r.Err? ==> r.error == NotFound(name) && r.error.Message() == "service not found: " + name
    {
      if name in services then Ok(services[name]) else Err(NotFound(name))
    }

    /** GetActiveService: the active service's name, or "" for none. */
    function GetActiveService(): (r: string)
      reads this
      requires Valid()
      ensures r == activeService
      ensures r == "" || r in services
    {
      activeService
    }

    /** lockServiceInternal: send the lock or unlock request through the service's
        adapter and record the result on its entry; a successful lock of the active
        service clears it. */
    method LockServiceInternal(name: string, lock: bool, net: LockNet) returns (err: Option<ErrText>)
      requires Valid() && name in services
      modifies this
      ensures Valid() && services.Keys == old(services.Keys)
      ensures State() == AfterLock(old(State()), name, lock, LockOutcome(old(State()), name, lock, net))
      ensures err.None? <==> LockOutcome(old(State()), name, lock, net).LockOk?
      ensures err.Some? ==> LockOutcome(old(State()), name, lock, net) == LockFailed(err.value)
    {
      var svc := services[name];
      var reply := net(name, LockRequest(name, svc.baseUrl, lock));
      match LockResultOf(reply)
      case LockFailed(text) =>
        services := services[name := svc.(error := text)];
        err := Some(text);
      case LockOk =>
        services := services[name := svc.(locked := lock, error := "")];
        if lock && activeService == name {
          activeService := "";
        }
        err := None;
    }

    /** ActivateService: refuse an unknown or offline target, lock every other online
        service (best effort), unlock the target and make it the active service. */
    method ActivateService(name: string, visit: seq<string>, net: LockNet) returns (err: Option<ArbiterError>)
      requires Valid() && Enumerates(State(), visit)
      modifies this
      ensures Valid()
      ensures Step(State(), err) == Activation(old(State()), name, visit, net)
    {
      if name !in services {
        return Some(NotFound(name));
      }
      var target := services[name];
      if !target.online {
        return Some(Offline(name));
      }
      var _ := LockEach(visit, OtherOnline(name), net);
      var e := LockServiceInternal(name, false, net);
      if e.Some? {
        return Some(UnlockFailed(e.value));
      }
      activeService := name;
      return None;
    }

    /** LockService: refuse an unknown name; when unlocking, first lock every other
        online unlocked service (best effort); then lock or unlock the target. */
    method LockService(name: string, lock: bool, visit: seq<string>, net: LockNet) returns (err: Option<ArbiterError>)
      requires Valid() && Enumerates(State(), visit)
      modifies this
      ensures Valid()
      ensures Step(State(), err) == LockChange(old(State()), name, lock, visit, net)
    {
      if name !in services {
        return Some(NotFound(name));
      }
      if !lock {
        var _ := LockEach(visit, OtherUnlocked(name), net);
      }
      var e := LockServiceInternal(name, lock, net);
      err := if e.Some? then Some(CallFailed(e.value)) else None;
    }

    /** DeactivateAll: lock every online service (best effort), clear the active service
        and return the last failure. */
    method DeactivateAll(visit: seq<string>, net: LockNet) returns (err: Option<ArbiterError>)
      requires Valid() && Enumerates(State(), visit)
      modifies this
      ensures Valid()
      ensures Step(State(), err) == Deactivation(old(State()), visit, net)
    {
      var lastErr := LockEach(visit, AllOnline, net);
      activeService := "";
      err := if lastErr.Some? then Some(CallFailed(lastErr.value)) else None;
    }

    /** The lock loops of ActivateService, LockService, DeactivateAll and
        enforceSingleUnlocked: visit each name in turn, send it a lock call when the rule
        wants it in the current table, and keep the last error. */
    method LockEach(visit: seq<string>, rule: Rule, net: LockNet) returns (lastErr: Option<ErrText>)
      requires Valid() && Within(State(), visit)
      modifies this
      ensures Valid()
      ensures Swept(State(), lastErr) == Sweep(old(State()), visit, rule, net)
    {
      ghost var st0 := State();
      lastErr := None;
      var i := 0;
      while i < |visit|
        invariant 0 <= i <= |visit|
        invariant Valid() && services.Keys == st0.services.Keys
        invariant Swept(State(), lastErr) == Sweep(st0, visit[..i], rule, net)
      {
        var n := visit[i];
        SweepStep(st0, visit, i, rule, net);
        if Wants(State(), n, rule) {
          var e := LockServiceInternal(n, true, net);
          if e.Some? {
            lastErr := e;
          }
        }
        assert Swept(State(), lastErr) == Sweep(st0, visit[..i + 1], rule, net);
        i := i + 1;
      }
      assert visit[..|visit|] == visit;
    }

    /** pollAllServices: poll every service in the order `visit`, then enforce the
        single-unlocked rule over the order `order`; `stamps` gives each service's
        check time. */
    method PollAllServices(visit: seq<string>, statusNet: StatusNet, stamps: string -> string,
                           order: seq<string>, lockNet: LockNet)
      requires Valid() && Enumerates(State(), visit) && Enumerates(State(), order)
      modifies this
      ensures Valid()
      ensures State() == PollCycle(old(State()), visit, statusNet, stamps, order, lockNet)
    {
      ghost var st0 := State();
      var i := 0;
      while i < |visit|
        invariant 0 <= i <= |visit|
        invariant Valid()
        invariant State() == PollSweep(st0, visit[..i], statusNet, stamps)
      {
        var stamp := stamps(visit[i]);
        PollSweepStep(st0, visit, i, statusNet, stamps);
        PollServiceInternal(visit[i], statusNet, stamp);
        i := i + 1;
      }
      assert visit[..|visit|] == visit;
      EnforceSingleUnlocked(order, lockNet);
    }

    /** enforceSingleUnlocked: when two or more services are online and unlocked, keep
        one unlocked and lock the others (best effort).  Its three loops are the three
        methods below. */
    method EnforceSingleUnlocked(visit: seq<string>, net: LockNet)
      requires Valid() && Enumerates(State(), visit)
      modifies this
      ensures Valid()
      ensures State() == Reconciled(old(State()), visit, net)
    {
      var unlocked := UnlockedServices(visit);
      if |unlocked| > 1 {
        var keep := KeepUnlockedService(unlocked);
        var _ := LockEach(unlocked, AllBut(keep), net);
      }
    }

    /** The first loop of enforceSingleUnlocked: the online unlocked services, in
        visiting order. */
    method UnlockedServices(visit: seq<string>) returns (unlocked: seq<string>)
      requires Within(State(), visit)
      ensures unlocked == Select(State(), visit, AllUnlocked)
    {
      unlocked := [];
      var i := 0;
      while i < |visit|
        invariant 0 <= i <= |visit|
        invariant unlocked == Select(State(), visit[..i], AllUnlocked)
      {
        assert visit[..i + 1][..i] == visit[..i];
        var svc := services[visit[i]];
        if svc.online && !svc.locked {
          unlocked := unlocked + [visit[i]];
        }
        i := i + 1;
      }
      assert visit[..|visit|] == visit;
    }

    /** The second part of enforceSingleUnlocked: which service stays unlocked.  The
        active service if it is among them, else the first of them; with no active
        service, the first with the lowest priority number. */
    method KeepUnlockedService(unlocked: seq<string>) returns (keep: string)
      requires |unlocked| > 0 && Within(State(), unlocked)
      ensures keep == KeepUnlocked(State(), unlocked)
    {
      keep := unlocked[0];
      if activeService != "" {
        var j := 0;
        while j < |unlocked|
          invariant 0 <= j <= |unlocked|
          invariant keep == if activeService in unlocked[..j] then activeService else unlocked[0]
        {
          assert unlocked[..j + 1] == unlocked[..j] + [unlocked[j]];
          if unlocked[j] == activeService {
            keep := unlocked[j];
            break;
          }
          j := j + 1;
        }
        assert j == |unlocked| ==> unlocked[..j] == unlocked;
      } else {
        var lowest := services[keep].priority;
        var j := 0;
        while j < |unlocked|
          invariant 0 <= j <= |unlocked|
          invariant j == 0 ==> keep == unlocked[0]
          invariant j > 0 ==> keep == unlocked[LowestIndex(State(), unlocked[..j])]
          invariant lowest == services[keep].priority
        {
          assert unlocked[..j + 1][..j] == unlocked[..j];
          var n := unlocked[j];
          if services[n].priority < lowest {
            lowest := services[n].priority;
            keep := n;
          }
          j := j + 1;
        }
        assert unlocked[..|unlocked|] == unlocked;
      }
    }

    /** pollServiceInternal: one status call and the field updates it drives (PollEntry),
        then, only when the body was decoded, the active-service tracking. */
    method PollServiceInternal(name: string, net: StatusNet, stamp: string)
      requires Valid() && name in services
      modifies this
      ensures Valid()
      ensures State() == AfterPoll(old(State()), name, net, stamp)
    {
      ghost var st0 := State();
      var decoded := PollEntry(name, net, stamp);
      PolledEffect(st0.services[name], StatusOf(st0, name, net), stamp);
      if decoded {
        var svc := services[name];
        if svc.active && !svc.locked {
          activeService := name;
        } else if activeService == name && !svc.active {
          activeService := "";
        }
      }
    }

    /** The part of pollServiceInternal before the active-service tracking: stamp the
        check time, fetch the status and record what the reply says on the entry.  The
        error paths return early; `decoded` tells whether the body was decoded. */
    method PollEntry(name: string, net: StatusNet, stamp: string) returns (decoded: bool)
      requires name in services
      modifies this
      ensures services == old(services)[name := Polled(old(services)[name], StatusOf(old(State()), name, net), stamp)]
      ensures activeService == old(activeService)
      ensures var reply := StatusOf(old(State()), name, net);
        decoded <==> reply.StatusAnswered? && reply.code == 200 && reply.body.Decoded?
    {
      ghost var s0 := services[name];
      ghost var reply := StatusOf(State(), name, net);
      var svc := services[name];
      svc := svc.(lastCheck := stamp);
      var statusUrl := svc.baseUrl + StatusPath(name);
      assert net(name, statusUrl) == reply;
      decoded := false;
      match net(name, statusUrl)
      case GetFailed(text) =>
        services := services[name := svc.(online := false, active := false, error := text)];
      case StatusAnswered(code, body) =>
        if code != 200 {
          services := services[name := svc.(online := false, active := false, error := "status code: " + Decimal(code))];
          return;
        }
        match body
        case ReadFailed(text) =>
          services := services[name := svc.(online := false, error := text)];
        case Undecodable(text) =>
          services := services[name := svc.(online := false, error := text)];
        case Decoded(doc) =>
          svc := svc.(online := true, error := "");
          ghost var base := svc;
          var status := doc;
          if "data" in status && status["data"].JObject? {
            status := status["data"].fields;
          }
          assert status == Payload(doc);
          var locked := BoolField(status, "locked");
          if locked.Some? {
            svc := svc.(locked := locked.value);
          }
          var state := StringField(status, "state");
          if state.Some? {
            svc := svc.(active := state.value == "playing");
          }
          var active := BoolField(status, "active");
          if active.Some? {
            svc := svc.(active := active.value);
          }
          assert svc == Decode(base, status);
          assert svc == Polled(s0, reply, stamp);
          services := services[name := svc];
          decoded := true;
    }
  }
}
