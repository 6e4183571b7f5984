/**
 * Crash recovery (src/plugins/sc_plugins.c) as a step system: the VPP process, the object database, the
 * connection and the recorded pid, with crashes, restarts and commits between any two steps of a health
 * check. A restarted VPP has a pid never seen before and an empty configuration.
 */
module Recovery {
  import opened Wrappers
  import opened ObjectModel
  import Registry
  import RegistryCalls

  datatype Process = Down | Up(pid: nat, config: Database)

  /** How far the running health check has got, with the pid it read. */
  datatype Phase = Idle | Observed(now: int) | Disconnected(now: int) | Connected(now: int) | Replayed(now: int)

  datatype World = World(vpp: Process, nextPid: nat, conn: Option<nat>, om: Database, recorded: int, phase: Phase)

  datatype Action =
    | Commit(ops: seq<Op>)
    | Crash
    | Restart
    | ReadPid(seen: int)
    | Disconnect
    | Connect
    | Replay
    | Record

  /** get_vpp_pid answers the live pid or a negative error, also when VPP is up. */
  predicate CanSee(w: World, seen: int) {
    seen < 0 || (w.vpp.Up? && seen == w.vpp.pid)
  }

  predicate Enabled(w: World, a: Action) {
    match a
    case Commit(_) => true
    case Crash => w.vpp.Up?
    case Restart => w.vpp.Down?
    case ReadPid(seen) => w.phase.Idle? && CanSee(w, seen)
    case Disconnect => w.phase.Observed?
    case Connect => w.phase.Disconnected? && w.vpp.Up?
    case Replay => w.phase.Connected?
    case Record => w.phase.Replayed?
  }

  predicate Attached(w: World) {
    w.vpp.Up? && w.conn == Some(w.vpp.pid)
  }

  /** VPP only hears commands over a connection to the process that is running. */
  function Next(w: World, a: Action): World
    requires Enabled(w, a)
  {
    match a
    case Commit(ops) =>
      var heard := if Attached(w) then w.(vpp := Up(w.vpp.pid, ApplyAll(w.vpp.config, ops))) else w;
      heard.(om := ApplyAll(w.om, ops))
    case Crash => w.(vpp := Down)
    case Restart => w.(vpp := Up(w.nextPid, map[]), nextPid := w.nextPid + 1)
    case ReadPid(seen) => if seen == w.recorded then w else w.(phase := Observed(seen))
    case Disconnect => w.(conn := None, phase := Disconnected(w.phase.now))
    case Connect => w.(conn := Some(w.vpp.pid), phase := Connected(w.phase.now))
    case Replay =>
      var heard := if Attached(w) then w.(vpp := Up(w.vpp.pid, w.om)) else w;
      heard.(phase := Replayed(w.phase.now))
    case Record => w.(recorded := w.phase.now, phase := Idle)
  }

  ghost predicate IsRun(w: World, run: seq<Action>)
    decreases |run|
  {
    run == [] || (Enabled(w, run[0]) && IsRun(Next(w, run[0]), run[1..]))
  }

  ghost function After(w: World, run: seq<Action>): World
    requires IsRun(w, run)
    decreases |run|
  {
    if run == [] then w else After(Next(w, run[0]), run[1..])
  }

  // ---------- Safety ----------

  ghost predicate InSync(w: World) {
    Attached(w) && w.vpp.config == w.om
  }

  ghost predicate Live(w: World, pid: int) {
    w.vpp.Up? && w.vpp.pid == pid
  }

  /** Pids are never reused: everything anyone remembers is older than the next pid. */
  ghost predicate PidsOld(w: World) {
    && (w.vpp.Up? ==> w.vpp.pid < w.nextPid)
    && (w.conn.Some? ==> w.conn.value < w.nextPid)
    && w.recorded < w.nextPid
    && (!w.phase.Idle? ==> w.phase.now < w.nextPid)
  }

  ghost predicate Inv(w: World) {
    && PidsOld(w)
    && ((w.phase.Idle? || w.phase.Observed?) && Live(w, w.recorded) ==> InSync(w))
    && (w.phase.Connected? && (Live(w, w.phase.now) || Live(w, w.recorded)) ==> Attached(w))
    && (w.phase.Replayed? && (Live(w, w.phase.now) || Live(w, w.recorded)) ==> InSync(w))
    && (w.phase.Replayed? && Attached(w) ==> InSync(w))
  }

  /** The state an undisturbed start-up leaves: connected, populated from VPP, its pid recorded. */
  ghost predicate Booted(w: World) {
    PidsOld(w) && w.phase.Idle? && InSync(w) && w.recorded == w.vpp.pid
  }

  /** Every step of the system keeps the invariant. */
  lemma StepKeepsInv(w: World, a: Action)
    requires Inv(w) && Enabled(w, a)
    ensures Inv(Next(w, a))
  {
  }

  lemma {:induction false} RunKeepsInv(w: World, run: seq<Action>)
    requires Inv(w) && IsRun(w, run)
    ensures Inv(After(w, run))
    decreases |run|
  {
    if run != [] {
      StepKeepsInv(w, run[0]);
      RunKeepsInv(Next(w, run[0]), run[1..]);
    }
  }

  /** The health check has cut the connection and not replayed yet. */
  predicate Reconnecting(w: World) {
    w.phase.Disconnected? || w.phase.Connected?
  }

  /**
   * Recovery invariant: in every run after an undisturbed start-up, however commits, crashes, restarts and
   * health-check steps interleave, a recorded pid that is the live VPP's means that VPP holds exactly the
   * configuration of the database, except while a check is reconnecting.
   */
  lemma RecordedPidMeansInSync(w: World, run: seq<Action>)
    requires Booted(w) && IsRun(w, run)
    ensures var e := After(w, run);
            Live(e, e.recorded) && !Reconnecting(e) ==> e.vpp.config == e.om
  {
    RunKeepsInv(w, run);
  }

  /** Observations are exact: an error only when no VPP runs. */
  ghost predicate ExactRun(w: World, run: seq<Action>)
    requires IsRun(w, run)
    decreases |run|
  {
    run == [] ||
    ((run[0].ReadPid? && run[0].seen < 0 ==> w.vpp.Down?) && ExactRun(Next(w, run[0]), run[1..]))
  }

  lemma {:induction false} ExactKeeps(w: World, run: seq<Action>)
    requires Inv(w) && IsRun(w, run) && ExactRun(w, run)
    requires !w.phase.Idle? ==> !Live(w, w.recorded)
    ensures var e := After(w, run); Inv(e) && (!e.phase.Idle? ==> !Live(e, e.recorded))
    decreases |run|
  {
    if run != [] {
      StepKeepsInv(w, run[0]);
      ExactKeeps(Next(w, run[0]), run[1..]);
    }
  }

  /** With exact observations the exception disappears: the recorded pid can be trusted at every moment. */
  lemma ExactObservationsAlwaysInSync(w: World, run: seq<Action>)
    requires Booted(w) && IsRun(w, run) && ExactRun(w, run)
    ensures var e := After(w, run); Live(e, e.recorded) ==> InSync(e)
  {
    ExactKeeps(w, run);
  }

  /** Every continuation with exact observations keeps the recorded pid trustworthy. */
  ghost predicate StaysTrustworthy(w: World) {
    forall run :: IsRun(w, run) && ExactRun(w, run) ==> Trustworthy(After(w, run))
  }

  ghost predicate Trustworthy(w: World) {
    Live(w, w.recorded) ==> InSync(w)
  }

  /** A commit that reaches the database but not VPP sets them apart. */
  lemma UnheardCommit(w: World) returns (ops: seq<Op>)
    requires w.vpp.Up? && !Attached(w) && w.vpp.config == w.om
    ensures Next(w, Commit(ops)).vpp.config != Next(w, Commit(ops)).om
  {
    if w.om == map[] {
      ops := [Write(MappingKey(0), NatStatic("", ""))];
    } else {
      var key :| key in w.om;
      ops := [Remove(key)];
    }
    assert ops[1..] == [];
    assert ApplyAll(w.om, ops) == Apply(w.om, ops[0]);
    assert ops[0].key in w.om <==> ops[0].key !in ApplyAll(w.om, ops);
  }

  /**
   * The boundary: with the recorded pid live and no check running, one observation leaves the recorded pid
   * trustworthy in every continuation with exact observations if and only if it is not an error. Any error
   * value lets a commit slip in while the check has cut the connection.
   */
  lemma TrustworthyIffNoError(w: World, seen: int)
    requires Inv(w) && w.phase.Idle? && Live(w, w.recorded) && CanSee(w, seen)
    ensures StaysTrustworthy(Next(w, ReadPid(seen))) <==> seen >= 0
  {
    var w1 := Next(w, ReadPid(seen));
    if seen >= 0 {
      forall run | IsRun(w1, run) && ExactRun(w1, run) ensures Trustworthy(After(w1, run)) {
        ExactKeeps(w1, run);
      }
    } else {
      var w2 := Next(w1, Disconnect);
      var ops := UnheardCommit(w2);
      var w3 := Next(w2, Commit(ops));
      var last: seq<Action> := [Commit(ops)];
      var run := [Disconnect] + last;
      assert last[1..] == [] && IsRun(w3, []) && ExactRun(w3, []) && After(w3, []) == w3;
      assert IsRun(w2, last) && ExactRun(w2, last) && After(w2, last) == w3;
      assert run[1..] == last && IsRun(w1, run) && ExactRun(w1, run) && After(w1, run) == w3;
      assert !Trustworthy(After(w1, run));
    }
  }

  // ---------- Convergence ----------

  /** The steps a check still has to take, while VPP stays up. */
  function FinishCheck(w: World): (f: World)
    requires w.vpp.Up?
    ensures f.vpp.Up? && f.vpp.pid == w.vpp.pid
  {
    match w.phase
    case Idle => w
    case Observed(_) => Next(Next(Next(Next(w, Disconnect), Connect), Replay), Record)
    case Disconnected(_) => Next(Next(Next(w, Connect), Replay), Record)
    case Connected(_) => Next(Next(w, Replay), Record)
    case Replayed(_) => Next(w, Record)
  }

  /** sr_plugin_health_check_cb from start to finish while one VPP process stays up. */
  function Check(w: World, seen: int): World
    requires w.vpp.Up? && w.phase.Idle? && CanSee(w, seen)
  {
    FinishCheck(Next(w, ReadPid(seen)))
  }

  lemma FinishEffect(w: World)
    requires w.vpp.Up? && Inv(w) && !w.phase.Idle?
    ensures var f := FinishCheck(w);
            f.phase.Idle? && Inv(f) && f.recorded == w.phase.now && f.om == w.om && f.vpp.pid == w.vpp.pid
    ensures w.phase.Observed? || w.phase.Disconnected? ==> InSync(FinishCheck(w))
  {
  }

  /**
   * Convergence: from any reachable state one undisturbed check ends with the live pid recorded and VPP equal
   * to the database, without touching the database; checking again changes nothing.
   */
  lemma CheckConverges(w: World)
    requires Inv(w) && w.phase.Idle? && w.vpp.Up?
    ensures var c := Check(w, w.vpp.pid);
            && c.phase.Idle? && c.recorded == w.vpp.pid && InSync(c) && c.om == w.om && c.vpp.pid == w.vpp.pid
            && Check(c, c.vpp.pid) == c
  {
    if w.recorded != w.vpp.pid {
      StepKeepsInv(w, ReadPid(w.vpp.pid));
      FinishEffect(Next(w, ReadPid(w.vpp.pid)));
    }
  }

  /**
   * A check that straddled a restart records the pid it read; it has recovered exactly when that is the live
   * one, and otherwise one more undisturbed check does it.
   */
  lemma StraddledCheckNeedsOneMore(w: World)
    requires Inv(w) && !w.phase.Idle? && w.vpp.Up?
    ensures var f := FinishCheck(w);
            && f.phase.Idle? && f.recorded == w.phase.now
            && (Live(f, f.recorded) <==> w.phase.now == w.vpp.pid)
            && (w.phase.now == w.vpp.pid ==> InSync(f))
            && InSync(Check(f, f.vpp.pid)) && Check(f, f.vpp.pid).recorded == w.vpp.pid
  {
    FinishEffect(w);
    CheckConverges(FinishCheck(w));
  }

  /** One VPP process stays up and the checks see it; commits and check steps in any order. */
  ghost predicate SteadyRun(w: World, run: seq<Action>) {
    && w.vpp.Up? && IsRun(w, run)
    && forall i :: 0 <= i < |run| ==> SteadyAction(run[i], w.vpp.pid)
  }

  ghost predicate SteadyAction(a: Action, pid: nat) {
    !a.Crash? && !a.Restart? && (a.ReadPid? ==> a.seen == pid)
  }

  /** The live pid is recorded, or about to be. */
  ghost predicate Tracking(w: World) {
    w.vpp.Up? && if w.phase.Idle? then w.recorded == w.vpp.pid else w.phase.now == w.vpp.pid
  }

  lemma SteadyStep(w: World, run: seq<Action>)
    requires SteadyRun(w, run) && run != []
    ensures SteadyRun(Next(w, run[0]), run[1..]) && Next(w, run[0]).vpp.pid == w.vpp.pid
    ensures Tracking(w) || run[0].ReadPid? ==> Tracking(Next(w, run[0]))
  {
    assert SteadyAction(run[0], w.vpp.pid);
    forall i | 0 <= i < |run[1..]| ensures SteadyAction(run[1..][i], w.vpp.pid) {
      assert run[1..][i] == run[i + 1];
    }
  }

  lemma {:induction false} TrackingStays(w: World, run: seq<Action>)
    requires SteadyRun(w, run)
    requires Tracking(w) || exists i :: 0 <= i < |run| && run[i].ReadPid?
    ensures Tracking(After(w, run)) && After(w, run).vpp.pid == w.vpp.pid
    decreases |run|
  {
    if run != [] {
      SteadyStep(w, run);
      if !Tracking(w) && !run[0].ReadPid? {
        var i :| 0 <= i < |run| && run[i].ReadPid?;
        assert run[1..][i - 1] == run[i];
      }
      TrackingStays(Next(w, run[0]), run[1..]);
    }
  }

  /**
   * Convergence under load: from any reachable state, an interrupted check included, once VPP stays up and one
   * more check has begun, every later moment between checks has the live pid recorded and VPP in step with the
   * database, however commits interleave with the steps of the checks.
   */
  lemma SteadyChecksConverge(w: World, run: seq<Action>)
    requires Inv(w) && SteadyRun(w, run) && exists i :: 0 <= i < |run| && run[i].ReadPid?
    ensures var e := After(w, run); e.phase.Idle? ==> e.recorded == w.vpp.pid && InSync(e)
  {
    TrackingStays(w, run);
    RunKeepsInv(w, run);
  }

  // ---------- Start-up ----------

  /** After connecting to the running VPP process and populating the database from it. */
  function Populated(w: World): World
    requires w.vpp.Up?
  {
    w.(conn := Some(w.vpp.pid), om := w.vpp.config)
  }

  /** Things that can happen before start-up reads the pid. */
  ghost predicate StartupRun(w: World, run: seq<Action>) {
    IsRun(w, run) && forall i :: 0 <= i < |run| ==> run[i].Commit? || run[i].Crash? || run[i].Restart?
  }

  /** Start-up's last step: record the pid that is live now. */
  function RecordStart(w: World): World
    requires w.vpp.Up?
  {
    w.(recorded := w.vpp.pid)
  }

  /** The connection is to `pid`; another process, if one runs by now, has heard nothing. */
  ghost predicate StartingUp(w: World, pid: nat) {
    && w.phase.Idle? && w.conn == Some(pid) && pid < w.nextPid && (w.vpp.Up? ==> w.vpp.pid < w.nextPid)
    && (w.vpp.Up? ==> if w.vpp.pid == pid then w.vpp.config == w.om else w.vpp.config == map[])
  }

  lemma {:induction false} StartupKeeps(w: World, run: seq<Action>, pid: nat)
    requires StartupRun(w, run) && StartingUp(w, pid)
    ensures StartingUp(After(w, run), pid)
    decreases |run|
  {
    if run != [] {
      forall i | 0 <= i < |run[1..]| ensures run[1..][i] == run[i + 1] { }
      StartupKeeps(Next(w, run[0]), run[1..], pid);
    }
  }

  /**
   * Start-up leaves the state the recovery invariant needs exactly when VPP was not replaced between
   * connecting to it and reading its pid.
   */
  lemma StartupSafeIffUndisturbed(w: World, run: seq<Action>)
    requires w.vpp.Up? && w.vpp.pid < w.nextPid && w.phase.Idle?
    requires StartupRun(Populated(w), run) && After(Populated(w), run).vpp.Up?
    ensures var e := After(Populated(w), run);
            && (Booted(RecordStart(e)) <==> e.vpp.pid == w.vpp.pid)
            && (e.vpp.config == e.om <==> e.vpp.pid == w.vpp.pid || e.om == map[])
  {
    StartupKeeps(Populated(w), run, w.vpp.pid);
  }

  /** Commits and health checks that see the live pid: everything short of another crash. */
  ghost predicate QuietRun(w: World, run: seq<Action>) {
    IsRun(w, run) && forall i :: 0 <= i < |run| ==> run[i].Commit? || (run[i].ReadPid? && run[i].seen >= 0)
  }

  /**
   * A disturbed start-up is never repaired: every later check finds the recorded pid alive and does nothing,
   * so no commit ever reaches VPP until it crashes again.
   */
  lemma {:induction false} DisturbedStartupNeverRepaired(w: World, run: seq<Action>)
    requires QuietRun(w, run) && w.vpp.Up? && w.phase.Idle? && w.recorded == w.vpp.pid && !Attached(w)
    ensures var e := After(w, run); e.vpp == w.vpp && e.phase.Idle? && e.recorded == w.recorded && !Attached(e)
    decreases |run|
  {
    if run != [] {
      forall i | 0 <= i < |run[1..]| ensures run[1..][i] == run[i + 1] { }
      DisturbedStartupNeverRepaired(Next(w, run[0]), run[1..]);
    }
  }

  // ---------- The imperative callbacks ----------

  /** Waiting until VPP is up: it restarts where it was down. */
  function OnceUp(w: World): (u: World)
    ensures u.vpp.Up?
  {
    if w.vpp.Up? then w else Next(w, Restart)
  }

  class Plugin {
    var vpp: Process
    var nextPid: nat
    var conn: Option<nat>
    var om: Database
    var vppPidStart: int

    function View(): World
      reads this
    {
      World(vpp, nextPid, conn, om, vppPidStart, Idle)
    }

    constructor (w: World)
      requires w.phase.Idle?
      ensures View() == w
    {
      vpp, nextPid, conn, om, vppPidStart := w.vpp, w.nextPid, w.conn, w.om, w.recorded;
    }

    /** OM::replay: VPP's state is made to match the database. */
    method ReplayObjects()
      modifies this`vpp
      ensures vpp == if old(vpp).Up? && conn == Some(old(vpp).pid) then Up(old(vpp).pid, om) else old(vpp)
    {
      if vpp.Up? && conn == Some(vpp.pid) {
        vpp := Up(vpp.pid, om);
      }
    }

    /**
     * sr_plugin_health_check_cb; `seen` is what get_vpp_pid answers, `restarts` whether VPP comes up before each
     * further attempt to connect.
     */
    method HealthCheck(seen: int, restarts: seq<bool>) returns (rc: Code)
      requires CanSee(View(), seen)
      requires seen != vppPidStart ==> vpp.Up? || true in restarts
      modifies this
      ensures rc == Ok
      ensures seen == old(vppPidStart) ==> View() == old(View())
      ensures seen != old(vppPidStart) ==>
                View() == FinishCheck(OnceUp(Next(Next(old(View()), ReadPid(seen)), Disconnect)))
    {
      rc := Ok;
      if seen == vppPidStart {
        return;
      }
      conn := None;
      var i := 0;
      while vpp.Down?
        invariant 0 <= i <= |restarts| && conn == None && om == old(om) && vppPidStart == old(vppPidStart)
        invariant vpp.Down? ==> vpp == old(vpp) && nextPid == old(nextPid) && true in restarts[i..]
        invariant vpp.Up? ==> View() == OnceUp(old(View()).(conn := None))
        decreases vpp.Down?, |restarts| - i
      {
        if restarts[i] {
          vpp, nextPid := Up(nextPid, map[]), nextPid + 1;
        }
        i := i + 1;
      }
      conn := Some(vpp.pid);
      ReplayObjects();
      vppPidStart := seen;
    }

    /** What happens around the plugin while start-up is at work. */
    method Happen(run: seq<Action>)
      requires StartupRun(View(), run)
      modifies this
      ensures View() == After(old(View()), run)
    {
      var todo := run;
      while todo != []
        invariant StartupRun(View(), todo) && After(View(), todo) == After(old(View()), run)
        decreases |todo|
      {
        ghost var w := View();
        if todo[0].Commit? {
          if vpp.Up? && conn == Some(vpp.pid) {
            vpp := Up(vpp.pid, ApplyAll(vpp.config, todo[0].ops));
          }
          om := ApplyAll(om, todo[0].ops);
        } else if todo[0].Crash? {
          vpp := Down;
        } else {
          vpp, nextPid := Up(nextPid, map[]), nextPid + 1;
        }
        assert View() == Next(w, todo[0]);
        assert forall i :: 0 <= i < |todo[1..]| ==> todo[1..][i] == todo[i + 1];
        todo := todo[1..];
      }
    }

    /** The pid get_vpp_pid answers is recorded, an error included. */
    method RecordPid(found: bool) returns (ok: bool)
      modifies this`vppPidStart
      ensures ok <==> found && vpp.Up?
      ensures ok ==> vppPidStart == vpp.pid
      ensures !ok ==> vppPidStart < 0
    {
      ok := found && vpp.Up?;
      vppPidStart := if ok then vpp.pid else -3;
    }

    /**
     * sr_plugin_init_cb once VPP accepts the connection: populate the database, call the init functions while
     * `during` happens around them, and record the pid if it is `found`.
     */
    method InitCallback(pm: Registry.PluginMain, prog: RegistryCalls.Program, during: seq<Action>, found: bool)
      returns (start: Start)
      requires vpp.Up? && vpp.pid < nextPid && pm.Valid()
      requires StartupRun(Populated(View()), during)
      modifies this, pm`log, pm.elts`isCalled
      ensures var calls := RegistryCalls.CallAll(old(pm.Funcs()), prog, old(pm.Called()), old(pm.log), 0);
              start.InitFailed? <==> calls.rc != 0
      ensures start.InitFailed? ==>
                start.code == RegistryCalls.CallAll(old(pm.Funcs()), prog, old(pm.Called()), old(pm.log), 0).rc
      ensures !start.InitFailed? ==> (start.Started? <==> found && After(Populated(old(View())), during).vpp.Up?)
      ensures start.InitFailed? ==> View() == After(Populated(old(View())), during)
      ensures start.NotConnected? ==>
                vppPidStart < 0 && View() == After(Populated(old(View())), during).(recorded := vppPidStart)
      ensures start.Started? ==>
                && After(Populated(old(View())), during).vpp.Up?
                && View() == RecordStart(After(Populated(old(View())), during))
                && (Booted(View()) <==> vpp.pid == old(vpp).pid)
    {
      ghost var w := View();
      conn := Some(vpp.pid);
      om := vpp.config;
      assert View() == Populated(w);
      Happen(during);
      var rc := pm.CallAllInit(prog);
      if rc != 0 {
        return InitFailed(rc);
      }
      var ok := RecordPid(found);
      if !ok {
        return NotConnected;
      }
      StartupSafeIffUndisturbed(w, during);
      start := Started;
    }
  }

  /** How start-up ends. */
  datatype Start = Started | NotConnected | InitFailed(code: int)
}
