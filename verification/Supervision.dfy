/** The supervision loop: module threads keep a heartbeat in the core store, a supervisor
    joins and respawns those whose heartbeat is gone. Threads, supervisor and clock interleave
    freely; each call on the core store is one step. */
module Supervision {
  import opened ByteStrings
  import opened FlatStore

  const HEARTBEAT_TTL: Duration := 15 * SECOND
  const SUPERVISION_INTERVAL: Duration := 5 * SECOND

  // ----- the step machine -----

  /** Where a module thread is, named after what it has done. */
  datatype Stage = Fresh | Started | Building | Built | Declared | Running | Rewriting

  datatype Thread = Thread(id: nat, stage: Stage, live: bool)

  /** Where the supervisor is: `alive` is the key set its check found at time `taken`, `i` the
      module it is looking at. */
  datatype Supervisor =
    | Registering
    | Sleeping(until: Instant)
    | Checking(alive: set<Bytes>, taken: Instant, i: nat)
    | Joining(alive: set<Bytes>, taken: Instant, i: nat, thread: nat)
    | Spawning(alive: set<Bytes>, taken: Instant, i: nat, last: Option<nat>)

  /** A registered module is an index into `names`; a thread is an index into `threads`, whose
      `id` is its module. */
  datatype World = World(core: Flat, now: Instant, names: seq<Bytes>, threads: seq<Thread>,
                         handles: seq<Option<nat>>, supervisor: Supervisor)

  /** `Stray` is a heartbeat from a helper thread that a module left running. */
  datatype Label =
    | Tick(elapsed: nat)
    | Register(name: Bytes)
    | Supervise
    | Snapshot
    | Look
    | Join
    | Spawn
    | Call(thread: nat, rewrite: bool)
    | Exit(thread: nat)
    | Stray(key: Bytes)

  function ModuleKey(name: Bytes): Bytes {
    Ascii("module:") + name
  }

  lemma ModuleKeyInjective(a: Bytes, b: Bytes)
    requires ModuleKey(a) == ModuleKey(b)
    ensures a == b
  {
    var n := |Ascii("module:")|;
    assert ModuleKey(a)[n..] == a && ModuleKey(b)[n..] == b;
  }

  function Start(now: Instant): World {
    World(map[], now, [], [], [], Registering)
  }

  /** What a module thread's next call does to the core store. */
  function CoreNext(stage: Stage, rewrite: bool, core: Flat, key: Bytes, now: Instant): Flat {
    var current := Purge(core, now);
    match stage
    case Fresh => Put(current, key, Ascii("starting"))
    case Started => Expire(current, key, now + HEARTBEAT_TTL)
    case Building => core
    case Built => Put(current, key, Ascii("running"))
    case Declared => Expire(current, key, now + HEARTBEAT_TTL)
    case Running =>
      if rewrite then Put(current, key, Ascii("running")) else Expire(current, key, now + HEARTBEAT_TTL)
    case Rewriting => Expire(current, key, now + HEARTBEAT_TTL)
  }

  function StageNext(stage: Stage, rewrite: bool): Stage {
    match stage
    case Fresh => Started
    case Started => Building
    case Building => Built
    case Built => Declared
    case Declared => Running
    case Running => if rewrite then Rewriting else Running
    case Rewriting => Running
  }

  function StageAfter(stage: Stage, rewrites: seq<bool>): Stage
    decreases |rewrites|
  {
    if rewrites == [] then stage else StageAfter(StageNext(stage, rewrites[0]), rewrites[1..])
  }

  /** Two pairs of calls, with the module built in between, and from then on the thread beats for
      as long as it lives. */
  lemma {:induction false} BeatsForEver(stage: Stage, rewrites: seq<bool>)
    ensures stage.Running? || stage.Rewriting? ==>
              StageAfter(stage, rewrites).Running? || StageAfter(stage, rewrites).Rewriting?
    ensures stage.Fresh? && |rewrites| >= 5 ==>
              StageAfter(stage, rewrites).Running? || StageAfter(stage, rewrites).Rewriting?
    decreases |rewrites|
  {
    if stage.Running? || stage.Rewriting? {
      if rewrites != [] { BeatsForEver(StageNext(stage, rewrites[0]), rewrites[1..]); }
    } else if stage.Fresh? && |rewrites| >= 5 {
      BeatsForEver(Running, rewrites[5..]);
      FiveCalls(rewrites);
    }
  }

  lemma FiveCalls(rewrites: seq<bool>)
    requires |rewrites| >= 5
    ensures StageAfter(Fresh, rewrites) == StageAfter(Running, rewrites[5..])
  {
    assert rewrites[1..][1..] == rewrites[2..] && rewrites[2..][1..] == rewrites[3..];
    assert rewrites[3..][1..] == rewrites[4..] && rewrites[4..][1..] == rewrites[5..];
    assert StageAfter(Declared, rewrites[4..]) == StageAfter(Running, rewrites[5..]);
    assert StageAfter(Built, rewrites[3..]) == StageAfter(Declared, rewrites[4..]);
    assert StageAfter(Building, rewrites[2..]) == StageAfter(Built, rewrites[3..]);
    assert StageAfter(Started, rewrites[1..]) == StageAfter(Building, rewrites[2..]);
  }

  /** A pair leaves a heartbeat that says how far the module is, for 15 s from its second call. */
  lemma PairBeats(stage: Stage, rewrite: bool, again: bool, core: Flat, key: Bytes, now: Instant, later: Instant)
    requires stage.Fresh? || stage.Built? || (stage.Running? && rewrite)
    ensures var written := CoreNext(stage, rewrite, core, key, now);
            var timed := CoreNext(StageNext(stage, rewrite), again, written, key, later);
            && key in timed && timed[key].value == (if stage.Fresh? then Ascii("starting") else Ascii("running"))
            && timed[key].deadline == Some(later + 15_000_000_000)
  {
  }

  /** The supervisor moves past module `i` when its heartbeat is there, and otherwise takes
      its handle to join it. */
  function Looked(w: World): World {
    match w.supervisor
    case Checking(alive, taken, i) =>
      if i >= |w.names| then w.(supervisor := Sleeping(w.now + SUPERVISION_INTERVAL))
      else if ModuleKey(w.names[i]) in alive then w.(supervisor := Checking(alive, taken, i + 1))
      else if i >= |w.handles| then w
      else (match w.handles[i]
            case Some(t) => w.(handles := w.handles[i := None], supervisor := Joining(alive, taken, i, t))
            case None => w.(supervisor := Spawning(alive, taken, i, None)))
    case _ => w
  }

  function Joined(w: World): World {
    match w.supervisor
    case Joining(alive, taken, i, t) =>
      if t < |w.threads| && w.threads[t].live then w else w.(supervisor := Spawning(alive, taken, i, Some(t)))
    case _ => w
  }

  function Spawned(w: World): World {
    match w.supervisor
    case Spawning(alive, taken, i, _) =>
      if i < |w.handles| then
        w.(threads := w.threads + [Thread(i, Fresh, true)],
           handles := w.handles[i := Some(|w.threads|)],
           supervisor := Checking(alive, taken, i + 1))
      else w
    case _ => w
  }

  function Registered(w: World, name: Bytes): World {
    if !w.supervisor.Registering? then w
    else w.(names := w.names + [name],
            threads := w.threads + [Thread(|w.names|, Fresh, true)],
            handles := w.handles + [Some(|w.threads|)])
  }

  function Called(w: World, t: nat, rewrite: bool): World {
    if t >= |w.threads| || !w.threads[t].live || w.threads[t].id >= |w.names| then w
    else
      var thread := w.threads[t];
      w.(core := CoreNext(thread.stage, rewrite, w.core, ModuleKey(w.names[thread.id]), w.now),
         threads := w.threads[t := thread.(stage := StageNext(thread.stage, rewrite))])
  }

  /** A thread may return or panic anywhere. */
  function Exited(w: World, t: nat): World {
    if t >= |w.threads| then w else w.(threads := w.threads[t := w.threads[t].(live := false)])
  }

  function Snapped(w: World): World {
    match w.supervisor
    case Sleeping(until) =>
      if w.now < until then w
      else
        var current := Purge(w.core, w.now);
        w.(core := current, supervisor := Checking(WithPrefix(Values(current), Ascii("module:")).Keys, w.now, 0))
    case _ => w
  }

  function Step(w: World, l: Label): World {
    match l
    case Tick(elapsed) => w.(now := w.now + elapsed)
    case Register(name) => Registered(w, name)
    case Supervise => if w.supervisor.Registering? then w.(supervisor := Sleeping(w.now + SUPERVISION_INTERVAL)) else w
    case Snapshot => Snapped(w)
    case Look => Looked(w)
    case Join => Joined(w)
    case Spawn => Spawned(w)
    case Call(t, rewrite) => Called(w, t, rewrite)
    case Exit(t) => Exited(w, t)
    case Stray(key) => w.(core := Expire(Purge(w.core, w.now), key, w.now + HEARTBEAT_TTL))
  }

  function Run(w: World, ls: seq<Label>): World
    decreases |ls|
  {
    if ls == [] then w else Run(Step(w, ls[0]), ls[1..])
  }

  // ----- one live thread per module -----

  /** The thread a module last got: its handle, or the one the supervisor took from it. */
  function Current(w: World, i: nat): Option<nat>
    requires i < |w.handles|
  {
    if w.handles[i].Some? then w.handles[i]
    else match w.supervisor
      case Joining(_, _, j, t) => if j == i then Some(t) else None
      case Spawning(_, _, j, last) => if j == i then last else None
      case _ => None
  }

  ghost predicate ModuleTracked(w: World, i: nat)
    requires i < |w.handles|
  {
    Current(w, i).Some? && Current(w, i).value < |w.threads| && w.threads[Current(w, i).value].id == i
  }

  ghost predicate ThreadTracked(w: World, t: nat)
    requires t < |w.threads|
  {
    w.threads[t].id < |w.handles| && (w.threads[t].live ==> Current(w, w.threads[t].id) == Some(t))
  }

  ghost predicate SupervisorTracked(w: World) {
    match w.supervisor
    case Joining(_, taken, i, _) => i < |w.handles| && w.handles[i].None? && taken <= w.now
    case Spawning(_, taken, i, last) =>
      && i < |w.handles| && w.handles[i].None? && taken <= w.now
      && last.Some? && last.value < |w.threads| && !w.threads[last.value].live
    case Checking(_, taken, _) => taken <= w.now
    case _ => true
  }

  /** Every live thread is the current one of its module. */
  ghost predicate Tracked(w: World) {
    && |w.handles| == |w.names| && SupervisorTracked(w)
    && (forall i :: 0 <= i < |w.handles| ==> ModuleTracked(w, i))
    && (forall t :: 0 <= t < |w.threads| ==> ThreadTracked(w, t))
  }

  lemma StepKeepsSupervisor(w: World, l: Label)
    requires Tracked(w)
    ensures SupervisorTracked(Step(w, l)) && |Step(w, l).handles| == |Step(w, l).names|
  {
    hide Purge, Put, Expire, CoreNext, ModuleKey, WithPrefix, Values;
    match w.supervisor
    case Joining(_, _, i, _) => assert ModuleTracked(w, i);
    case Checking(_, _, i) => if i < |w.handles| { assert ModuleTracked(w, i); }
    case _ =>
  }

  lemma StepKeepsModule(w: World, l: Label, i: nat)
    requires Tracked(w) && i < |Step(w, l).handles|
    ensures ModuleTracked(Step(w, l), i)
  {
    hide Purge, Put, Expire, CoreNext, ModuleKey, WithPrefix, Values, ThreadTracked;
    if i < |w.handles| { assert ModuleTracked(w, i); }
  }

  lemma StepKeepsThread(w: World, l: Label, t: nat)
    requires Tracked(w) && t < |Step(w, l).threads|
    ensures ThreadTracked(Step(w, l), t)
  {
    hide Purge, Put, Expire, CoreNext, ModuleKey, WithPrefix, Values, ModuleTracked;
    if t < |w.threads| { assert ThreadTracked(w, t); }
  }

  lemma StepTracked(w: World, l: Label)
    requires Tracked(w)
    ensures Tracked(Step(w, l))
  {
    hide Step, SupervisorTracked, ModuleTracked, ThreadTracked;
    var w' := Step(w, l);
    StepKeepsSupervisor(w, l);
    forall i | 0 <= i < |w'.handles| ensures ModuleTracked(w', i) { StepKeepsModule(w, l, i); }
    forall t | 0 <= t < |w'.threads| ensures ThreadTracked(w', t) { StepKeepsThread(w, l, t); }
  }

  lemma {:induction false} RunTracked(w: World, ls: seq<Label>)
    requires Tracked(w)
    ensures Tracked(Run(w, ls))
    decreases |ls|
  {
    hide Tracked, Step;
    if ls != [] {
      StepTracked(w, ls[0]);
      RunTracked(Step(w, ls[0]), ls[1..]);
    }
  }

  /** However threads, supervisor and clock interleave, a registered module never has two live
      threads. */
  lemma OneLiveThread(now: Instant, ls: seq<Label>, a: nat, b: nat)
    requires var w := Run(Start(now), ls);
             && a < |w.threads| && b < |w.threads| && w.threads[a].live && w.threads[b].live
             && w.threads[a].id == w.threads[b].id
    ensures a == b
  {
    RunTracked(Start(now), ls);
    var w := Run(Start(now), ls);
    assert ThreadTracked(w, a) && ThreadTracked(w, b);
  }

  // ----- heartbeats -----

  predicate Lapsed(w: World, key: Bytes) {
    key !in Purge(w.core, w.now)
  }

  predicate Untimed(w: World, key: Bytes) {
    key in w.core && w.core[key].deadline.None?
  }

  /** Between a `write_value` and the `write_ttl` that follows it. */
  predicate InPair(stage: Stage) {
    stage.Started? || stage.Declared? || stage.Rewriting?
  }

  /** The stage the current thread of module `i` is in, or was in when it exited. */
  function StageOf(w: World, i: nat): Stage
    requires Tracked(w) && i < |w.handles|
  {
    assert ModuleTracked(w, i);
    w.threads[Current(w, i).value].stage
  }

  ghost predicate Down(w: World, i: nat)
    requires Tracked(w) && i < |w.handles|
  {
    assert ModuleTracked(w, i);
    !w.threads[Current(w, i).value].live
  }

  ghost predicate IsOwner(w: World, i: nat, key: Bytes) {
    Tracked(w) && i < |w.handles| && ModuleKey(w.names[i]) == key
  }

  predicate Respawns(w: World, l: Label, i: nat) {
    l.Spawn? && w.supervisor.Spawning? && w.supervisor.i == i
  }

  lemma CurrentKept(w: World, l: Label, i: nat)
    requires Tracked(w) && i < |w.handles|
    ensures i < |Step(w, l).handles| && |w.threads| <= |Step(w, l).threads|
    ensures !Respawns(w, l, i) ==> Current(Step(w, l), i) == Current(w, i)
  {
    hide Purge, Put, Expire, CoreNext, ModuleKey, WithPrefix, Values;
    assert ModuleTracked(w, i);
  }

  lemma CallersAreCurrent(w: World, t: nat)
    requires Tracked(w) && t < |w.threads| && w.threads[t].live
    ensures w.threads[t].id < |w.handles| && Current(w, w.threads[t].id) == Some(t)
    ensures StageOf(w, w.threads[t].id) == w.threads[t].stage && !Down(w, w.threads[t].id)
  {
    assert ThreadTracked(w, t);
  }

  lemma StageKept(w: World, l: Label, i: nat)
    requires Tracked(w) && i < |w.handles| && !Respawns(w, l, i)
    requires l.Call? && l.thread < |w.threads| && w.threads[l.thread].live ==> w.threads[l.thread].id != i
    ensures Tracked(Step(w, l)) && i < |Step(w, l).handles|
    ensures StageOf(Step(w, l), i) == StageOf(w, i) && (Down(w, i) ==> Down(Step(w, l), i))
  {
    hide Purge, Put, Expire, CoreNext, ModuleKey, WithPrefix, Values;
    StepTracked(w, l);
    CurrentKept(w, l, i);
    assert ModuleTracked(w, i);
  }

  // ----- a heartbeat without a deadline -----

  /** An untimed heartbeat is that of a module whose thread is, or ended, between the two calls
      of a pair, or has yet to make its first call. */
  ghost predicate Accounted(w: World) {
    Tracked(w) && forall k :: Untimed(w, k) ==> HasPairOwner(w, k)
  }

  ghost predicate HasPairOwner(w: World, key: Bytes) {
    exists i :: IsOwner(w, i, key) && (InPair(StageOf(w, i)) || StageOf(w, i).Fresh?)
  }

  /** What a step does to one heartbeat it does not write. */
  lemma HeartbeatKept(w: World, l: Label, key: Bytes)
    requires l != Stray(key) && !Writes(w, l, key) && !Times(w, l, key)
    ensures key in Step(w, l).core ==> key in w.core && Step(w, l).core[key] == w.core[key]
    ensures Untimed(w, key) ==> Untimed(Step(w, l), key)
    ensures l.Snapshot? && Step(w, l) != w ==> (key in Step(w, l).core ==> !Lapsed(w, key))
  {
    hide WithPrefix, Values;
  }

  /** The step is a `write_value` of this heartbeat. */
  predicate Writes(w: World, l: Label, key: Bytes) {
    && l.Call? && l.thread < |w.threads| && w.threads[l.thread].live && w.threads[l.thread].id < |w.names|
    && ModuleKey(w.names[w.threads[l.thread].id]) == key
    && var stage := w.threads[l.thread].stage;
       stage.Fresh? || stage.Built? || (stage.Running? && l.rewrite)
  }

  /** The step is a `write_ttl` of this heartbeat by a module thread. */
  predicate Times(w: World, l: Label, key: Bytes) {
    && l.Call? && l.thread < |w.threads| && w.threads[l.thread].live && w.threads[l.thread].id < |w.names|
    && ModuleKey(w.names[w.threads[l.thread].id]) == key
    && var stage := w.threads[l.thread].stage;
       InPair(stage) || (stage.Running? && !l.rewrite)
  }

  lemma AfterWrite(w: World, l: Label, key: Bytes)
    requires Writes(w, l, key)
    ensures Untimed(Step(w, l), key) && InPair(Step(w, l).threads[l.thread].stage)
  {
  }

  lemma AfterTtl(w: World, l: Label, key: Bytes)
    requires Times(w, l, key) || l == Stray(key)
    ensures !Untimed(Step(w, l), key)
    ensures Times(w, l, key) ==> !InPair(Step(w, l).threads[l.thread].stage)
  {
  }

  lemma StepAccounted(w: World, l: Label)
    requires Accounted(w)
    ensures Accounted(Step(w, l))
  {
    StepTracked(w, l);
    forall k | Untimed(Step(w, l), k) ensures HasPairOwner(Step(w, l), k) {
      UntimedOwner(w, l, k);
    }
  }

  lemma UntimedOwner(w: World, l: Label, key: Bytes)
    requires Accounted(w) && Tracked(Step(w, l)) && Untimed(Step(w, l), key)
    ensures HasPairOwner(Step(w, l), key)
  {
    hide Purge, Put, Expire, CoreNext, ModuleKey, WithPrefix, Values, Step, Current, Tracked, Untimed;
    if Writes(w, l, key) {
      OwnerAfterWrite(w, l, key);
    } else if Times(w, l, key) || l == Stray(key) {
      AfterTtl(w, l, key);
    } else {
      HeartbeatWas(w, l, key);
      assert HasPairOwner(w, key);
      var i :| IsOwner(w, i, key) && (InPair(StageOf(w, i)) || StageOf(w, i).Fresh?);
      OwnerAfterOther(w, l, key, i);
    }
  }

  lemma HeartbeatWas(w: World, l: Label, key: Bytes)
    requires l != Stray(key) && !Writes(w, l, key) && !Times(w, l, key) && Untimed(Step(w, l), key)
    ensures Untimed(w, key)
  {
    hide Step, Writes, Times;
    HeartbeatKept(w, l, key);
  }

  lemma OwnerAfterWrite(w: World, l: Label, key: Bytes)
    requires Tracked(w) && Tracked(Step(w, l)) && Writes(w, l, key)
    ensures HasPairOwner(Step(w, l), key)
  {
    CallersAreCurrent(w, l.thread);
    var i := w.threads[l.thread].id;
    CurrentKept(w, l, i);
    AfterWrite(w, l, key);
    assert IsOwner(Step(w, l), i, key);
  }

  lemma OwnerAfterOther(w: World, l: Label, key: Bytes, i: nat)
    requires IsOwner(w, i, key) && (InPair(StageOf(w, i)) || StageOf(w, i).Fresh?) && Tracked(Step(w, l))
    requires l != Stray(key) && !Writes(w, l, key) && !Times(w, l, key)
    ensures HasPairOwner(Step(w, l), key)
  {
    var w' := Step(w, l);
    CurrentKept(w, l, i);
    if Respawns(w, l, i) {
      assert w'.threads[Current(w', i).value].stage.Fresh?;
    } else {
      if l.Call? && l.thread < |w.threads| && w.threads[l.thread].live { CallersAreCurrent(w, l.thread); }
      StageKept(w, l, i);
    }
    assert IsOwner(w', i, key);
  }

  // ----- a heartbeat with a deadline -----

  ghost predicate Bounded(w: World) {
    forall k :: k in w.core && w.core[k].deadline.Some? ==> w.core[k].deadline.value <= w.now + 15_000_000_000
  }

  lemma StepBounded(w: World, l: Label)
    requires Bounded(w)
    ensures Bounded(Step(w, l))
  {
    hide WithPrefix, Values, ModuleKey, Ascii;
  }

  lemma {:induction false} RunHealthy(w: World, ls: seq<Label>)
    requires Accounted(w) && Bounded(w)
    ensures Accounted(Run(w, ls)) && Bounded(Run(w, ls))
    decreases |ls|
  {
    hide Accounted, Bounded, Step;
    if ls != [] {
      StepAccounted(w, ls[0]);
      StepBounded(w, ls[0]);
      RunHealthy(Step(w, ls[0]), ls[1..]);
    }
  }

  // ----- a module that is down -----

  /** Module `i` is down, nobody shares its name, and registration is over. */
  ghost predicate Alone(w: World, i: nat) {
    Tracked(w) && i < |w.handles| && Distinct(w.names) && !w.supervisor.Registering? && Down(w, i)
  }

  lemma AloneKept(w: World, l: Label, i: nat, key: Bytes)
    requires Alone(w, i) && key == ModuleKey(w.names[i]) && l != Stray(key)
    ensures !Writes(w, l, key) && !Times(w, l, key)
    ensures Step(w, l).names == w.names && |w.threads| <= |Step(w, l).threads|
    ensures Respawns(w, l, i) ==> Respawned(Step(w, l), |w.threads|, i)
    ensures !Respawns(w, l, i) ==> Alone(Step(w, l), i) && Current(Step(w, l), i) == Current(w, i)
  {
    hide Purge, Put, Expire, CoreNext, WithPrefix, Values, ModuleKey;
    assert ModuleTracked(w, i);
    if l.Call? && l.thread < |w.threads| && w.threads[l.thread].live {
      CallersAreCurrent(w, l.thread);
      var j := w.threads[l.thread].id;
      if ModuleKey(w.names[j]) == key { ModuleKeyInjective(w.names[i], w.names[j]); }
    }
    CurrentKept(w, l, i);
    if Respawns(w, l, i) {
      assert Step(w, l).threads[|w.threads|].id == i;
    } else {
      StageKept(w, l, i);
    }
  }

  /** Module `i` has a thread that was not among the first `n`. */
  ghost predicate Respawned(w: World, n: nat, i: nat) {
    exists t :: n <= t < |w.threads| && w.threads[t].id == i
  }

  lemma {:induction false} RespawnedStays(w: World, ls: seq<Label>, n: nat, i: nat)
    requires Respawned(w, n, i)
    ensures Respawned(Run(w, ls), n, i)
    decreases |ls|
  {
    if ls != [] {
      var w' := Step(w, ls[0]);
      var t :| n <= t < |w.threads| && w.threads[t].id == i;
      assert t < |w'.threads| && w'.threads[t].id == i;
      RespawnedStays(w', ls[1..], n, i);
    }
  }

  /** A check whose scan was no earlier than `due` has gone past module `i`. */
  predicate Passed(s: Supervisor, due: Instant, i: nat) {
    match s
    case Checking(_, taken, j) => due <= taken && i < j
    case Joining(_, taken, j, _) => due <= taken && i < j
    case Spawning(_, taken, j, _) => due <= taken && i < j
    case _ => false
  }

  predicate Noticed(s: Supervisor, due: Instant, key: Bytes) {
    match s
    case Checking(alive, taken, _) => due <= taken ==> key !in alive
    case Joining(alive, taken, _, _) => due <= taken ==> key !in alive
    case Spawning(alive, taken, _, _) => due <= taken ==> key !in alive
    case _ => true
  }

  /** The heartbeat is gone by `due`, and checks from then on notice. */
  ghost predicate Waiting(w: World, i: nat, due: Instant) {
    && Alone(w, i)
    && (var key := ModuleKey(w.names[i]);
        (key in w.core ==> w.core[key].deadline.Some? && w.core[key].deadline.value <= due)
        && Noticed(w.supervisor, due, key) && !Passed(w.supervisor, due, i))
  }

  lemma StepWaits(w: World, l: Label, i: nat, due: Instant)
    requires Waiting(w, i, due) && l != Stray(ModuleKey(w.names[i]))
    ensures Waiting(Step(w, l), i, due) || Respawned(Step(w, l), |w.threads|, i)
    ensures Step(w, l).names == w.names && |w.threads| <= |Step(w, l).threads|
  {
    hide Down, Respawned, Purge, ModuleKey, CoreNext, Expire;
    var key := ModuleKey(w.names[i]);
    AloneKept(w, l, i, key);
    HeartbeatKept(w, l, key);
    if !Respawns(w, l, i) {
      SupervisorNotices(w, l, i, due, key);
    }
  }

  lemma SupervisorNotices(w: World, l: Label, i: nat, due: Instant, key: Bytes)
    requires Waiting(w, i, due) && !Respawns(w, l, i) && key == ModuleKey(w.names[i])
    ensures Noticed(Step(w, l).supervisor, due, key) && !Passed(Step(w, l).supervisor, due, i)
  {
    hide Purge, ModuleKey, CoreNext, Expire, WithPrefix, Values;
    if l.Snapshot? { ScanMisses(w.core, w.now, key); }
  }

  lemma ScanMisses(core: Flat, now: Instant, key: Bytes)
    ensures key in core && core[key].deadline.Some? && core[key].deadline.value <= now ==>
              key !in WithPrefix(Values(Purge(core, now)), Ascii("module:"))
    ensures key !in core ==> key !in WithPrefix(Values(Purge(core, now)), Ascii("module:"))
  {
  }

  lemma {:induction false} WaitsUntilRespawned(w: World, ls: seq<Label>, i: nat, due: Instant, n: nat)
    requires Waiting(w, i, due) && Stray(ModuleKey(w.names[i])) !in ls && n <= |w.threads|
    ensures Respawned(Run(w, ls), n, i) || Waiting(Run(w, ls), i, due)
    decreases |ls|
  {
    hide Step, Waiting, ModuleKey;
    if ls != [] {
      StepWaits(w, ls[0], i, due);
      var w' := Step(w, ls[0]);
      if Waiting(w', i, due) {
        WaitsUntilRespawned(w', ls[1..], i, due, n);
      } else {
        assert Respawned(w', n, i);
        RespawnedStays(w', ls[1..], n, i);
      }
    }
  }

  /** A thread that exits outside a pair is replaced: 15 s later its heartbeat is gone, and the
      first check from then on that passes its module has spawned a new thread. */
  lemma ExitedIsRespawned(now: Instant, before: seq<Label>, i: nat, ls: seq<Label>)
    requires var w := Run(Start(now), before);
             Tracked(w) && i < |w.handles| && Distinct(w.names) && !w.supervisor.Registering? && Down(w, i)
             && !InPair(StageOf(w, i)) && !StageOf(w, i).Fresh? && Stray(ModuleKey(w.names[i])) !in ls
    ensures var w := Run(Start(now), before);
            var w' := Run(w, ls);
            var due := w.now + 15_000_000_000;
            || Respawned(w', |w.threads|, i)
            || (!Passed(w'.supervisor, due, i) && (due <= w'.now ==> Lapsed(w', ModuleKey(w.names[i]))))
  {
    var w := Run(Start(now), before);
    var due := w.now + 15_000_000_000;
    RunHealthy(Start(now), before);
    NotUntimed(w, i);
    WaitsUntilRespawned(w, ls, i, due, |w.threads|);
    NamesStay(w, ls);
  }

  lemma NotUntimed(w: World, i: nat)
    requires Accounted(w) && i < |w.handles| && Distinct(w.names) && !InPair(StageOf(w, i)) && !StageOf(w, i).Fresh?
    ensures !Untimed(w, ModuleKey(w.names[i]))
  {
    hide ModuleKey;
    var key := ModuleKey(w.names[i]);
    if Untimed(w, key) {
      assert HasPairOwner(w, key);
      var j: nat :| IsOwner(w, j, key) && (InPair(StageOf(w, j)) || StageOf(w, j).Fresh?);
      ModuleKeyInjective(w.names[i], w.names[j]);
    }
  }

  lemma {:induction false} NamesStay(w: World, ls: seq<Label>)
    requires !w.supervisor.Registering?
    ensures Run(w, ls).names == w.names && !Run(w, ls).supervisor.Registering?
    decreases |ls|
  {
    hide CoreNext, Purge, ModuleKey;
    if ls != [] { NamesStay(Step(w, ls[0]), ls[1..]); }
  }

  // ----- a thread that exits inside a pair -----

  /** Unless a stray beats for it, a current thread inside a pair, running or not, leaves its
      heartbeat without a deadline. */
  ghost predicate PairsUntimed(w: World, key: Bytes) {
    && Tracked(w)
    && forall i :: 0 <= i < |w.handles| && ModuleKey(w.names[i]) == key && InPair(StageOf(w, i)) ==> Untimed(w, key)
  }

  lemma PairUntimedKept(w: World, l: Label, i: nat, key: Bytes)
    requires PairsUntimed(w, key) && l != Stray(key) && Distinct(w.names) && Tracked(Step(w, l))
    requires i < |Step(w, l).handles| && ModuleKey(Step(w, l).names[i]) == key && InPair(StageOf(Step(w, l), i))
    ensures Untimed(Step(w, l), key)
  {
    hide Purge, Put, Expire, CoreNext, WithPrefix, Values, ModuleKey;
    assert ModuleTracked(Step(w, l), i);
    if i < |w.handles| {
      CurrentKept(w, l, i);
      if l.Call? && l.thread < |w.threads| && w.threads[l.thread].live {
        CallersAreCurrent(w, l.thread);
        var j := w.threads[l.thread].id;
        if ModuleKey(w.names[j]) == key { ModuleKeyInjective(w.names[i], w.names[j]); }
      }
      OwnPairUntimed(w, l, i, key);
    }
  }

  lemma OwnPairUntimed(w: World, l: Label, i: nat, key: Bytes)
    requires PairsUntimed(w, key) && l != Stray(key) && Tracked(Step(w, l))
    requires i < |w.handles| && key == ModuleKey(w.names[i])
    requires i < |Step(w, l).handles| && InPair(StageOf(Step(w, l), i)) && !Respawns(w, l, i)
    requires Current(Step(w, l), i) == Current(w, i)
    requires Writes(w, l, key) || Times(w, l, key) ==> w.threads[l.thread].id == i && Current(w, i) == Some(l.thread)
    ensures Untimed(Step(w, l), key)
  {
    hide Purge, Put, Expire, CoreNext, WithPrefix, Values, ModuleKey;
    if Writes(w, l, key) {
      AfterWrite(w, l, key);
    } else if Times(w, l, key) {
      AfterTtl(w, l, key);
    } else {
      HeartbeatKept(w, l, key);
      if l.Call? && l.thread < |w.threads| && w.threads[l.thread].live { CallersAreCurrent(w, l.thread); }
      StageKept(w, l, i);
    }
  }

  lemma {:induction false} RunPairsUntimed(w: World, ls: seq<Label>, key: Bytes)
    requires PairsUntimed(w, key) && Stray(key) !in ls && Distinct(Run(w, ls).names)
    ensures PairsUntimed(Run(w, ls), key)
    decreases |ls|
  {
    hide Step, ModuleKey, InPair, Untimed;
    if ls != [] {
      var w' := Step(w, ls[0]);
      NamesGrow(w, ls);
      StepTracked(w, ls[0]);
      forall i | 0 <= i < |w'.handles| && ModuleKey(w'.names[i]) == key && InPair(StageOf(w', i))
        ensures Untimed(w', key)
      {
        PairUntimedKept(w, ls[0], i, key);
      }
      RunPairsUntimed(w', ls[1..], key);
    }
  }

  lemma {:induction false} NamesGrow(w: World, ls: seq<Label>)
    ensures |w.names| <= |Run(w, ls).names| && w.names == Run(w, ls).names[..|w.names|]
    decreases |ls|
  {
    hide CoreNext, Purge, ModuleKey;
    if ls != [] { NamesGrow(Step(w, ls[0]), ls[1..]); }
  }

  /** The check under way, if any, is not about to respawn module `i`. */
  predicate Spared(s: Supervisor, i: nat, key: Bytes) {
    match s
    case Checking(alive, _, j) => key in alive || i < j
    case Joining(alive, _, j, _) => j != i && (key in alive || i < j)
    case Spawning(alive, _, j, _) => j != i && (key in alive || i < j)
    case _ => true
  }

  ghost predicate Stuck(w: World, i: nat) {
    Alone(w, i) && Untimed(w, ModuleKey(w.names[i])) && Spared(w.supervisor, i, ModuleKey(w.names[i]))
  }

  lemma StepStuck(w: World, l: Label, i: nat)
    requires Stuck(w, i) && l != Stray(ModuleKey(w.names[i]))
    ensures Stuck(Step(w, l), i) && Step(w, l).names == w.names && Current(Step(w, l), i) == Current(w, i)
  {
    hide Down, Respawned, Purge, ModuleKey, CoreNext, Expire, WithPrefix, Values;
    var key := ModuleKey(w.names[i]);
    AloneKept(w, l, i, key);
    HeartbeatKept(w, l, key);
    if l.Snapshot? { ScanFinds(w.core, w.now, w.names[i]); }
  }

  lemma ScanFinds(core: Flat, now: Instant, name: Bytes)
    ensures var key := ModuleKey(name);
            key in core && core[key].deadline.None? ==> key in WithPrefix(Values(Purge(core, now)), Ascii("module:"))
  {
    assert ModuleKey(name)[..|Ascii("module:")|] == Ascii("module:");
  }

  /** A heartbeat without a deadline hides a dead module for ever: whatever happens next, its
      last thread stays the dead one. */
  lemma {:induction false} StuckForEver(w: World, i: nat, ls: seq<Label>)
    requires Stuck(w, i) && Stray(ModuleKey(w.names[i])) !in ls
    ensures Stuck(Run(w, ls), i) && Current(Run(w, ls), i) == Current(w, i)
    decreases |ls|
  {
    hide Step, Stuck, ModuleKey;
    if ls != [] {
      StepStuck(w, ls[0], i);
      StuckForEver(Step(w, ls[0]), i, ls[1..]);
    }
  }

  /** What becomes of a dead module depends on its heartbeat alone. With a deadline, or gone, it
      is noticed: from 15 s on the first check that passes the module has replaced its thread.
      Without one, it hides the module for ever, unless a check has already missed it. */
  lemma FateOfTheDead(w: World, i: nat, ls: seq<Label>)
    requires Alone(w, i) && Bounded(w) && Stray(ModuleKey(w.names[i])) !in ls
    ensures var (key, w', due) := (ModuleKey(w.names[i]), Run(w, ls), w.now + 15_000_000_000);
            if !Untimed(w, key) then
              Respawned(w', |w.threads|, i) || (!Passed(w'.supervisor, due, i) && (due <= w'.now ==> Lapsed(w', key)))
            else
              Spared(w.supervisor, i, key) ==> Alone(w', i) && Current(w', i) == Current(w, i) && !Lapsed(w', key)
  {
    hide Step, ModuleKey, Run;
    NamesStay(w, ls);
    if !Untimed(w, ModuleKey(w.names[i])) {
      WaitsUntilRespawned(w, ls, i, w.now + 15_000_000_000, |w.threads|);
    } else if Spared(w.supervisor, i, ModuleKey(w.names[i])) {
      StuckForEver(w, i, ls);
    }
  }

  /** The other half of `ExitedIsRespawned`: a thread that exits inside a pair is never
      replaced, unless a check has already missed its heartbeat. */
  lemma PairExitIsNeverRespawned(now: Instant, before: seq<Label>, i: nat, ls: seq<Label>)
    requires var w := Run(Start(now), before);
             && Tracked(w) && i < |w.handles| && Distinct(w.names) && !w.supervisor.Registering? && Down(w, i)
             && InPair(StageOf(w, i)) && Spared(w.supervisor, i, ModuleKey(w.names[i]))
             && Stray(ModuleKey(w.names[i])) !in before + ls
    ensures var w := Run(Start(now), before);
            var w' := Run(w, ls);
            Alone(w', i) && Current(w', i) == Current(w, i) && !Lapsed(w', ModuleKey(w.names[i]))
  {
    hide Step, ModuleKey, Run;
    var w := Run(Start(now), before);
    var key := ModuleKey(w.names[i]);
    assert Stray(key) !in before && Stray(key) !in ls;
    RunPairsUntimed(Start(now), before, key);
    RunHealthy(Start(now), before);
    FateOfTheDead(w, i, ls);
  }

  // ----- what `write_ttl` alone cannot do -----

  ghost predicate NoWrites(w: World, ls: seq<Label>, key: Bytes)
    decreases |ls|
  {
    ls == [] || (!Writes(w, ls[0], key) && NoWrites(Step(w, ls[0]), ls[1..], key))
  }

  /** A lapsed heartbeat stays lapsed until it is written again: no number of `write_ttl` calls,
      from module threads or from strays, revives it. */
  lemma {:induction false} NotRevivedByTtl(w: World, ls: seq<Label>, key: Bytes)
    requires Lapsed(w, key) && NoWrites(w, ls, key)
    ensures Lapsed(Run(w, ls), key)
    decreases |ls|
  {
    hide Step, Lapsed, Writes;
    if ls != [] {
      StepStaysLapsed(w, ls[0], key);
      NotRevivedByTtl(Step(w, ls[0]), ls[1..], key);
    }
  }

  lemma StepStaysLapsed(w: World, l: Label, key: Bytes)
    requires Lapsed(w, key) && !Writes(w, l, key)
    ensures Lapsed(Step(w, l), key)
  {
    hide WithPrefix, Values, ModuleKey;
  }

  // ----- a heartbeat that is kept up -----

  /** The scan of a check under way is not in the future. */
  predicate ScannedBy(s: Supervisor, now: Instant) {
    match s
    case Checking(_, taken, _) => taken <= now
    case Joining(_, taken, _, _) => taken <= now
    case Spawning(_, taken, _, _) => taken <= now
    case _ => true
  }

  lemma {:induction false} RunScannedBy(w: World, ls: seq<Label>)
    requires ScannedBy(w.supervisor, w.now)
    ensures ScannedBy(Run(w, ls).supervisor, Run(w, ls).now) && w.now <= Run(w, ls).now
    decreases |ls|
  {
    hide CoreNext, Purge, ModuleKey;
    if ls != [] { RunScannedBy(Step(w, ls[0]), ls[1..]); }
  }

  /** A check that scanned after `from` and before `due` has seen the heartbeat, and is not
      about to replace its thread. */
  predicate Sees(w: World, from: Instant, due: Instant, key: Bytes) {
    match w.supervisor
    case Checking(alive, taken, _) => from < taken < due ==> key in alive
    case Joining(alive, taken, i, _) => from < taken < due ==> key in alive && !IsFor(w, i, key)
    case Spawning(alive, taken, i, _) => from < taken < due ==> key in alive && !IsFor(w, i, key)
    case _ => true
  }

  predicate IsFor(w: World, i: nat, key: Bytes) {
    i < |w.names| && ModuleKey(w.names[i]) == key
  }

  /** The heartbeat is there and stays at least until `due`. */
  predicate Beating(w: World, due: Instant, key: Bytes) {
    w.now < due ==> key in w.core && (w.core[key].deadline.Some? ==> due <= w.core[key].deadline.value)
  }

  lemma StepBeating(w: World, l: Label, due: Instant, name: Bytes)
    requires Beating(w, due, ModuleKey(name)) && due <= w.now + 15_000_000_000
    ensures Beating(Step(w, l), due, ModuleKey(name)) && w.now <= Step(w, l).now
  {
    hide WithPrefix, Values, ModuleKey;
  }

  lemma StepSees(w: World, l: Label, from: Instant, due: Instant, name: Bytes)
    requires Beating(w, due, ModuleKey(name)) && Sees(w, from, due, ModuleKey(name))
    ensures Sees(Step(w, l), from, due, ModuleKey(name))
  {
    hide CoreNext, Purge, WithPrefix, Values, ModuleKey;
    if l.Snapshot? && w.now < due { ScanSeesBeat(w.core, w.now, due, name); }
  }

  lemma ScanSeesBeat(core: Flat, now: Instant, due: Instant, name: Bytes)
    requires var key := ModuleKey(name);
             now < due && key in core && (core[key].deadline.Some? ==> due <= core[key].deadline.value)
    ensures ModuleKey(name) in WithPrefix(Values(Purge(core, now)), Ascii("module:"))
  {
    assert ModuleKey(name)[..|Ascii("module:")|] == Ascii("module:");
  }

  lemma {:induction false} RunSees(w: World, ls: seq<Label>, from: Instant, due: Instant, name: Bytes)
    requires Beating(w, due, ModuleKey(name)) && Sees(w, from, due, ModuleKey(name))
    requires due <= w.now + 15_000_000_000
    ensures Beating(Run(w, ls), due, ModuleKey(name)) && Sees(Run(w, ls), from, due, ModuleKey(name))
    decreases |ls|
  {
    hide Step, Beating, Sees, ModuleKey;
    if ls != [] {
      StepBeating(w, ls[0], due, name);
      StepSees(w, ls[0], from, due, name);
      RunSees(Step(w, ls[0]), ls[1..], from, due, name);
    }
  }

  /** A heartbeat that is there when its lifetime is written lasts 15 s from then, and every
      later check that scans within them finds it and leaves its thread alone. */
  lemma BeatIsSeen(now: Instant, before: seq<Label>, l: Label, ls: seq<Label>, name: Bytes)
    requires var w := Run(Start(now), before);
             !Lapsed(w, ModuleKey(name)) && (Times(w, l, ModuleKey(name)) || l == Stray(ModuleKey(name)))
    ensures var w := Run(Start(now), before);
            var (key, w', due) := (ModuleKey(name), Run(Step(w, l), ls), w.now + 15_000_000_000);
            (w'.now < due ==> !Lapsed(w', key)) && Sees(w', w.now, due, key)
  {
    hide Run, ModuleKey;
    var w := Run(Start(now), before);
    var due := w.now + 15_000_000_000;
    RunScannedBy(Start(now), before);
    BeatStarts(w, l, ModuleKey(name));
    RunSees(Step(w, l), ls, w.now, due, name);
  }

  lemma BeatStarts(w: World, l: Label, key: Bytes)
    requires !Lapsed(w, key) && (Times(w, l, key) || l == Stray(key)) && ScannedBy(w.supervisor, w.now)
    ensures Beating(Step(w, l), w.now + 15_000_000_000, key) && Step(w, l).now == w.now
    ensures Sees(Step(w, l), w.now, w.now + 15_000_000_000, key)
  {
    hide WithPrefix, Values, ModuleKey;
  }

  /** The scan of a check is `taken`, or at least 5 s later than it; a sleep that follows it
      lasts until then. */
  predicate Spaced(s: Supervisor, now: Instant, taken: Instant) {
    match s
    case Checking(_, t, _) => t == taken || taken + 5_000_000_000 <= t
    case Joining(_, t, _, _) => t == taken || taken + 5_000_000_000 <= t
    case Spawning(_, t, _, _) => t == taken || taken + 5_000_000_000 <= t
    case Sleeping(until) => taken + 5_000_000_000 <= until
    case Registering => false
  }

  lemma {:induction false} RunSpaced(w: World, ls: seq<Label>, taken: Instant)
    requires Spaced(w.supervisor, w.now, taken) && taken <= w.now
    ensures Spaced(Run(w, ls).supervisor, Run(w, ls).now, taken)
    decreases |ls|
  {
    hide CoreNext, Purge, ModuleKey;
    if ls != [] { RunSpaced(Step(w, ls[0]), ls[1..], taken); }
  }

  /** The instant at which the check under way scanned. */
  function Scanned(s: Supervisor): Option<Instant> {
    match s
    case Checking(_, taken, _) => Some(taken)
    case Joining(_, taken, _, _) => Some(taken)
    case Spawning(_, taken, _, _) => Some(taken)
    case _ => None
  }

  /** Two checks never scan less than 5 s apart. */
  lemma ChecksApart(now: Instant, before: seq<Label>, ls: seq<Label>)
    ensures var w := Run(Start(now), before);
            var (first, second) := (Scanned(w.supervisor), Scanned(Run(w, ls).supervisor));
            first.Some? && second.Some? && first != second ==> first.value + 5_000_000_000 <= second.value
  {
    hide Run;
    var w := Run(Start(now), before);
    RunScannedBy(Start(now), before);
    if Scanned(w.supervisor).Some? { RunSpaced(w, ls, Scanned(w.supervisor).value); }
  }

  // ----- one check -----

  /** A thread that is alive but silent holds up the supervisor: until it exits, no module at
      all is respawned. */
  lemma {:induction false} SilentThreadBlocks(w: World, ls: seq<Label>)
    requires IsBlocked(w)
    requires Exit(w.supervisor.thread) !in ls
    ensures Run(w, ls).supervisor == w.supervisor && |Run(w, ls).threads| == |w.threads|
    decreases |ls|
  {
    hide CoreNext, Purge, ModuleKey;
    if ls != [] { SilentThreadBlocks(Step(w, ls[0]), ls[1..]); }
  }

  /** Such a state is reachable: a thread slower to its first heartbeat than the first check. */
  lemma SilentThreadReached(now: Instant, name: Bytes)
    ensures var w := Run(Start(now), [Register(name), Supervise, Tick(SUPERVISION_INTERVAL), Snapshot, Look]);
            w.supervisor.Joining? && w.supervisor.thread == 0 && |w.threads| == 1 && w.threads[0].live
  {
    hide ModuleKey, CoreNext;
    var a := Step(Step(Start(now), Register(name)), Supervise);
    var b := Step(a, Tick(SUPERVISION_INTERVAL));
    var c := Step(b, Snapshot);
    NoModuleKeys(b.now);
    assert c.supervisor == Checking({}, b.now, 0) && c.names == [name] && c.handles == [Some(0)];
    var ls := [Register(name), Supervise, Tick(SUPERVISION_INTERVAL), Snapshot, Look];
    assert ls[1..] == [Supervise, Tick(SUPERVISION_INTERVAL), Snapshot, Look];
    assert Run(Start(now), ls) == Run(a, [Tick(SUPERVISION_INTERVAL), Snapshot, Look]) by {
      assert ls[1..][1..] == [Tick(SUPERVISION_INTERVAL), Snapshot, Look];
    }
    assert [Tick(SUPERVISION_INTERVAL), Snapshot, Look][1..] == [Snapshot, Look];
    assert Run(b, [Snapshot, Look]) == Run(c, [Look]) by { assert [Snapshot, Look][1..] == [Look]; }
    assert [Look][1..] == [];
  }

  lemma NoModuleKeys(now: Instant)
    ensures WithPrefix(Values(Purge(map[], now)), Ascii("module:")).Keys == {}
  {
  }

  /** The check that scanned at `taken` is still going on and has yet to deal with module `i`. */
  predicate YetToServe(s: Supervisor, alive: set<Bytes>, taken: Instant, i: nat) {
    match s
    case Checking(a, t, j) => a == alive && t == taken && j <= i
    case Joining(a, t, j, _) => a == alive && t == taken && j <= i
    case Spawning(a, t, j, _) => a == alive && t == taken && j <= i
    case _ => false
  }

  /** Whatever threads and clock do meanwhile, a check does not get past a module whose
      heartbeat its scan missed without giving it a new thread. */
  lemma {:induction false} CheckServes(w: World, ls: seq<Label>, alive: set<Bytes>, taken: Instant, i: nat)
    requires Tracked(w) && YetToServe(w.supervisor, alive, taken, i)
    requires i < |w.names| && ModuleKey(w.names[i]) !in alive
    ensures Respawned(Run(w, ls), |w.threads|, i) || YetToServe(Run(w, ls).supervisor, alive, taken, i)
    decreases |ls|
  {
    hide Step, ModuleKey, Tracked, Respawned, YetToServe;
    if ls != [] {
      var w' := Step(w, ls[0]);
      StepTracked(w, ls[0]);
      StepServes(w, ls[0], alive, taken, i);
      if YetToServe(w'.supervisor, alive, taken, i) {
        CheckServes(w', ls[1..], alive, taken, i);
        RespawnedSince(Run(w', ls[1..]), |w.threads|, |w'.threads|, i);
      } else {
        RespawnedStays(w', ls[1..], |w.threads|, i);
      }
    }
  }

  lemma StepServes(w: World, l: Label, alive: set<Bytes>, taken: Instant, i: nat)
    requires Tracked(w) && YetToServe(w.supervisor, alive, taken, i)
    requires i < |w.names| && ModuleKey(w.names[i]) !in alive
    ensures Respawned(Step(w, l), |w.threads|, i) || YetToServe(Step(w, l).supervisor, alive, taken, i)
    ensures Step(w, l).names == w.names && |w.threads| <= |Step(w, l).threads|
  {
    hide ModuleKey, CoreNext, Purge;
    if l.Spawn? && w.supervisor.Spawning? && w.supervisor.i == i {
      assert Step(w, l).threads[|w.threads|].id == i;
    }
  }

  lemma RespawnedSince(w: World, n: nat, n': nat, i: nat)
    requires n <= n'
    ensures Respawned(w, n', i) ==> Respawned(w, n, i)
  {
  }

  /** How many of its own steps the supervisor is away from the end of its check. */
  function StepsLeft(w: World): nat {
    var n := |w.names|;
    match w.supervisor
    case Checking(_, _, j) => if j < n then 3 * (n - j) + 1 else 1
    case Joining(_, _, j, _) => if j < n then 3 * (n - j) else 0
    case Spawning(_, _, j, _) => if j < n then 3 * (n - j) - 1 else 0
    case _ => 0
  }

  function NextStep(s: Supervisor): Label {
    match s
    case Joining(_, _, _, _) => Join
    case Spawning(_, _, _, _) => Spawn
    case _ => Look
  }

  predicate InCheck(s: Supervisor) {
    s.Checking? || s.Joining? || s.Spawning?
  }

  predicate IsBlocked(w: World) {
    w.supervisor.Joining? && w.supervisor.thread < |w.threads| && w.threads[w.supervisor.thread].live
  }

  /** Nothing sets a check back, and the supervisor's own next step takes it on, unless it is
      joining a thread that is still alive. */
  lemma CheckProgresses(w: World, l: Label)
    requires Tracked(w) && InCheck(w.supervisor)
    ensures StepsLeft(Step(w, l)) <= StepsLeft(w) && Step(w, l).names == w.names
    ensures l == NextStep(w.supervisor) && !IsBlocked(w) ==> StepsLeft(Step(w, l)) < StepsLeft(w)
    ensures InCheck(Step(w, l).supervisor) || Step(w, l).supervisor == Sleeping(w.now + 5_000_000_000)
  {
    hide ModuleKey, CoreNext, Purge;
    match w.supervisor
    case Checking(_, _, j) => if j < |w.handles| { assert ModuleTracked(w, j); }
    case _ =>
  }

  /** The supervisor's own steps for `n` modules, with nothing in between. */
  function Pass(n: nat): seq<Label> {
    if n == 0 then [Look] else [Look, Join, Spawn] + Pass(n - 1)
  }

  /** Module `i` is either beating, by the scan the check works from, or down. */
  ghost predicate Settled(w: World, alive: set<Bytes>, i: nat)
    requires Tracked(w) && i < |w.handles|
  {
    ModuleKey(w.names[i]) in alive || Down(w, i)
  }

  lemma OneModule(w: World, alive: set<Bytes>, taken: Instant, i: nat)
    requires Tracked(w) && w.supervisor == Checking(alive, taken, i) && i < |w.handles| && Settled(w, alive, i)
    ensures var w' := Step(Step(Step(w, Look), Join), Spawn);
            && Tracked(w') && w'.supervisor == Checking(alive, taken, i + 1) && w'.names == w.names && w'.now == w.now
            && |w'.handles| == |w.handles| && w'.core == w.core
            && (forall j :: 0 <= j < |w.handles| && (j != i || ModuleKey(w.names[j]) in alive) ==>
                  Current(w', j) == Current(w, j))
            && w'.threads[..|w.threads|] == w.threads
            && if ModuleKey(w.names[i]) in alive then w' == w.(supervisor := Checking(alive, taken, i + 1))
               else |w'.threads| == |w.threads| + 1 && w'.threads[|w.threads|] == Thread(i, Fresh, true)
  {
    hide ModuleKey, Purge, CoreNext;
    assert ModuleTracked(w, i);
    StepTracked(w, Look);
    StepTracked(Step(w, Look), Join);
    StepTracked(Step(Step(w, Look), Join), Spawn);
  }

  /** After the check, module `j` has a new thread if its heartbeat was missing, and otherwise
      the one it had. */
  ghost predicate Served(w: World, w': World, alive: set<Bytes>, j: nat)
    requires j < |w.names|
  {
    j < |w.handles| && j < |w'.handles|
    && if ModuleKey(w.names[j]) in alive then Current(w', j) == Current(w, j)
       else Respawned(w', |w.threads|, j)
  }

  /** Module `j` has the thread it had. */
  ghost predicate Unchanged(w: World, w': World, j: nat) {
    j < |w.handles| && j < |w'.handles| && Current(w', j) == Current(w, j)
  }

  /** A check that finds every silent module's thread dead runs to its end and serves every
      module it has still to look at. */
  lemma {:induction false} CheckServesAll(w: World, alive: set<Bytes>, taken: Instant, i: nat)
    requires Tracked(w) && w.supervisor == Checking(alive, taken, i) && i <= |w.handles|
    requires forall j :: i <= j < |w.handles| ==> Settled(w, alive, j)
    ensures var w' := Run(w, Pass(|w.handles| - i));
            && Tracked(w') && w'.supervisor == Sleeping(w.now + 5_000_000_000) && w'.core == w.core
            && (forall j :: i <= j < |w.handles| ==> Served(w, w', alive, j))
            && (forall j :: 0 <= j < i ==> Unchanged(w, w', j))
    decreases |w.handles| - i
  {
    hide ModuleKey, Down, Current, ModuleTracked, ThreadTracked, Step;
    if i == |w.handles| {
      LastLook(w, alive, taken, i);
    } else {
      assert Settled(w, alive, i);
      OneModule(w, alive, taken, i);
      var v := Step(Step(Step(w, Look), Join), Spawn);
      var rest := Pass(|w.handles| - i - 1);
      RunThree(w, rest);
      forall j | i + 1 <= j < |v.handles| ensures Settled(v, alive, j) {
        assert Settled(w, alive, j);
        DownStays(w, v, j);
      }
      CheckServesAll(v, alive, taken, i + 1);
      var w' := Run(v, rest);
      assert Run(w, Pass(|w.handles| - i)) == w';
      assert Unchanged(v, w', i);
      if ModuleKey(w.names[i]) !in alive {
        assert Respawned(v, |w.threads|, i);
        RespawnedStays(v, rest, |w.threads|, i);
      }
      forall j | i <= j < |w.handles| ensures Served(w, w', alive, j) {
        if i < j { ServedLater(w, v, w', alive, i, j); }
      }
      forall j | 0 <= j < i ensures Unchanged(w, w', j) {
        assert Unchanged(v, w', j);
      }
    }
  }

  lemma ServedLater(w: World, v: World, w': World, alive: set<Bytes>, i: nat, j: nat)
    requires i < j < |w.handles| == |v.handles| && |w.handles| == |w.names| && v.names == w.names
    requires Current(v, j) == Current(w, j) && |w.threads| <= |v.threads| && Served(v, w', alive, j)
    ensures Served(w, w', alive, j)
  {
    hide Current, ModuleKey;
  }

  lemma LastLook(w: World, alive: set<Bytes>, taken: Instant, i: nat)
    requires Tracked(w) && w.supervisor == Checking(alive, taken, i) && i == |w.handles|
    ensures var w' := Run(w, Pass(0));
            w' == w.(supervisor := Sleeping(w.now + SUPERVISION_INTERVAL)) && Tracked(w')
            && forall j :: 0 <= j < i ==> Unchanged(w, w', j)
  {
    hide CoreNext, Purge, ModuleKey;
    StepTracked(w, Look);
    var w' := Run(w, Pass(0));
    forall j | 0 <= j < i ensures Unchanged(w, w', j) { assert ModuleTracked(w, j); }
  }

  lemma RunThree(w: World, rest: seq<Label>)
    ensures Run(w, [Look, Join, Spawn] + rest) == Run(Step(Step(Step(w, Look), Join), Spawn), rest)
  {
    hide Step;
    var all := [Look, Join, Spawn] + rest;
    assert all[1..] == [Join, Spawn] + rest && all[2..] == [Spawn] + rest && all[3..] == rest;
    assert Run(w, all) == Run(Step(w, Look), [Join, Spawn] + rest);
    var u := Step(w, Look);
    assert ([Join, Spawn] + rest)[1..] == [Spawn] + rest;
    assert Run(u, [Join, Spawn] + rest) == Run(Step(u, Join), [Spawn] + rest);
    assert ([Spawn] + rest)[1..] == rest;
  }

  lemma DownStays(w: World, v: World, j: nat)
    requires Tracked(w) && Tracked(v) && j < |w.handles| && j < |v.handles| && Current(v, j) == Current(w, j)
    requires |w.threads| <= |v.threads| && v.threads[..|w.threads|] == w.threads
    ensures Down(w, j) ==> Down(v, j)
  {
    assert ModuleTracked(w, j);
    assert forall t :: 0 <= t < |w.threads| ==> v.threads[t] == w.threads[t];
  }
}
