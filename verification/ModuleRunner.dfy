/** The handshake of bootstrap/module_runner.go: the event loop with its readiness flags, the
    background worker that applies remote configurations, and every interleaving of the two. */
module ModuleRunner {
  import opened Wrappers

  /** A remote configuration; its content plays no role here. */
  datatype Config = Config(text: string)

  /** A call of the apply callback: the configuration and the one it replaces. */
  datatype Handover = Handover(config: Config, previous: Config)

  /** What the module declares: required modules (true when it must connect), whether a routes
      handler is installed, and the remote configuration it starts with. */
  datatype Setup = Setup(required: map<string, bool>, handlesRoutes: bool, initialConfig: Config)

  datatype ModuleState = ModuleState(
    remoteConfigReady: bool,
    requiredModulesReady: bool,
    requiredSendReady: bool,
    routesReady: bool,
    moduleReady: bool,
    connected: set<string>)
  {
    predicate CanSendModuleReady() {
      remoteConfigReady && requiredModulesReady && requiredSendReady && routesReady && !moduleReady
    }
  }

  /** What the event loop does, in the order it does it.  `ReadySignal` is the token put into
      `initChan`; the others are messages taken from channels. */
  datatype Event =
    | ReadySignal
    | ConfigAccepted(config: Config)
    | ConfigApplied
    | Routes(accepted: bool)
    | Connect(name: string, consumed: bool)
    | InitProcessed
    | Ack(requirements: bool, ok: bool)
    | Disconnect
    | Other

  function OptionalModules(setup: Setup): set<string> {
    set m | m in setup.required && !setup.required[m]
  }

  predicate MustModulesIn(setup: Setup, connected: set<string>) {
    forall m :: m in setup.required && setup.required[m] ==> m in connected
  }

  function InitialState(setup: Setup): ModuleState {
    var connected := OptionalModules(setup);
    ModuleState(false, |setup.required| == |connected|, false, !setup.handlesRoutes, false, connected)
  }

  function Handle(setup: Setup, st: ModuleState, e: Event): ModuleState {
    match e
    case ReadySignal => st.(moduleReady := true)
    case ConfigApplied => st.(remoteConfigReady := true)
    case Routes(accepted) => if setup.handlesRoutes then st.(routesReady := accepted) else st
    case Connect(m, consumed) =>
      if m !in setup.required then st
      else
        var connected := if consumed then st.connected + {m} else st.connected;
        st.(connected := connected, requiredModulesReady := MustModulesIn(setup, connected))
    case Ack(requirements, ok) => if requirements && ok then st.(requiredSendReady := true) else st
    case Disconnect => InitialState(setup)
    case _ => st
  }

  /** What the loop starts to send in the background. */
  datatype Outgoing = Requirements | Declaration | ConfigSchema

  /** Requirements go out after a configuration was applied, unless the module is ready.  The schema
      goes out at the start and after every reconnection. */
  function Sends(st: ModuleState, e: Event): seq<Outgoing> {
    match e
    case ConfigApplied => if st.moduleReady then [] else [Requirements]
    case InitProcessed => [Declaration]
    case Disconnect => [ConfigSchema]
    case _ => []
  }

  /** The addresses kept for the status metrics: those of the latest connect event of a connected module. */
  function Listed(setup: Setup, known: map<string, seq<string>>, st: ModuleState, e: Event, addresses: seq<string>)
    : map<string, seq<string>>
  {
    if !e.Connect? || e.name !in setup.required then known
    else known[e.name := if e.name in Handle(setup, st, e).connected then addresses else []]
  }

  /** All that went out up to the end of these events. */
  function SentBy(setup: Setup, trace: seq<Event>): seq<Outgoing> {
    if trace == [] then [ConfigSchema]
    else SentBy(setup, trace[..|trace| - 1]) + Sends(Run(setup, trace[..|trace| - 1]), trace[|trace| - 1])
  }

  /** The addresses kept after these events, each of which came with a list. */
  function ListedBy(setup: Setup, trace: seq<Event>, lists: seq<seq<string>>): map<string, seq<string>>
    requires |lists| == |trace|
  {
    if trace == [] then map[]
    else
      var n := |trace| - 1;
      Listed(setup, ListedBy(setup, trace[..n], lists[..n]), Run(setup, trace[..n]), trace[n], lists[n])
  }

  // ---------------------------------------------------------------- the flags as the loop keeps them

  class Runner {
    const setup: Setup
    var remoteConfigReady: bool
    var requiredModulesReady: bool
    var requiredSendReady: bool
    var routesReady: bool
    var moduleReady: bool
    var currentConnectedModules: map<string, bool>
    var connectedModules: map<string, seq<string>>
    ghost var sent: seq<Outgoing>
    ghost var trace: seq<Event>          // the events processed so far
    ghost var lists: seq<seq<string>>    // the addresses that came with each of them

    /** The fields are what the history makes of them. */
    ghost predicate Valid()
      reads this
    {
      && |lists| == |trace|
      && State() == Run(setup, trace) && sent == SentBy(setup, trace)
      && connectedModules == ListedBy(setup, trace, lists)
    }

    function State(): ModuleState
      reads this
    {
      ModuleState(remoteConfigReady, requiredModulesReady, requiredSendReady, routesReady, moduleReady,
                  set m | m in currentConnectedModules && currentConnectedModules[m])
    }

    constructor (setup: Setup)
      ensures Valid() && this.setup == setup && trace == []
      ensures State() == InitialState(setup) && connectedModules == map[] && sent == [ConfigSchema]
    {
      this.setup, connectedModules, sent := setup, map[], [ConfigSchema];
      trace, lists := [], [];
      new;
      Reset();
    }

    method Reset()
      modifies this
      ensures State() == InitialState(setup)
      ensures connectedModules == old(connectedModules) && sent == old(sent)
      ensures trace == old(trace) && lists == old(lists)
    {
      remoteConfigReady, requiredSendReady, moduleReady := false, false, false;
      currentConnectedModules := map[];
      var todo := setup.required.Keys;
      while todo != {}
        invariant todo <= setup.required.Keys
        invariant !remoteConfigReady && !requiredSendReady && !moduleReady
        invariant connectedModules == old(connectedModules) && sent == old(sent)
        invariant trace == old(trace) && lists == old(lists)
        invariant forall m :: m in currentConnectedModules <==> m in setup.required && m !in todo && !setup.required[m]
        invariant forall m :: m in currentConnectedModules ==> currentConnectedModules[m]
      {
        var m :| m in todo;
        if !setup.required[m] { currentConnectedModules := currentConnectedModules[m := true]; }
        todo := todo - {m};
      }
      assert currentConnectedModules.Keys == OptionalModules(setup);
      requiredModulesReady := |setup.required| == |currentConnectedModules.Keys|;
      routesReady := !setup.handlesRoutes;
      assert State().connected == OptionalModules(setup);
    }

    /** The scan after a connect event stops at the first missing module that must connect. */
    method AllMustConnected() returns (ok: bool)
      ensures ok == MustModulesIn(setup, State().connected)
    {
      ok := true;
      var todo := setup.required.Keys;
      while todo != {}
        invariant todo <= setup.required.Keys && ok
        invariant forall m :: m in setup.required && m !in todo && setup.required[m] ==> m in State().connected
      {
        var m :| m in todo;
        var val := m in currentConnectedModules && currentConnectedModules[m];
        if !val && setup.required[m] { return false; }
        todo := todo - {m};
      }
    }

    /** One turn of the loop: the event goes into the history. */
    method Process(e: Event, addresses: seq<string>)
      requires Valid()
      modifies this
      ensures Valid() && trace == old(trace) + [e] && lists == old(lists) + [addresses]
    {
      hide Handle, Sends, Listed;
      React(e, addresses);
      trace, lists := trace + [e], lists + [addresses];
      assert trace[..|trace| - 1] == old(trace) && lists[..|lists| - 1] == old(lists);
    }

    /** A required module is connected, and its handler may take the addresses. */
    method Connected(m: string, consumed: bool, addresses: seq<string>)
      modifies this`currentConnectedModules, this`requiredModulesReady, this`connectedModules
      ensures State().connected == if consumed then old(State().connected) + {m} else old(State().connected)
      ensures requiredModulesReady == MustModulesIn(setup, State().connected)
      ensures connectedModules == old(connectedModules)[m := if m in State().connected then addresses else []]
    {
      if consumed { currentConnectedModules := currentConnectedModules[m := true]; }
      requiredModulesReady := AllMustConnected();
      var list: seq<string> := [];
      if m in currentConnectedModules && currentConnectedModules[m] {
        for i := 0 to |addresses|
          invariant list == addresses[..i]
        {
          list := list + [addresses[i]];
        }
        assert addresses[..|addresses|] == addresses;
      }
      connectedModules := connectedModules[m := list];
    }

    /** `addresses` come with a connect event.  After a disconnect the module reconnects. */
    method React(e: Event, addresses: seq<string>)
      modifies this
      ensures trace == old(trace) && lists == old(lists)
      ensures State() == Handle(setup, old(State()), e)
      ensures sent == old(sent) + Sends(old(State()), e)
      ensures connectedModules == Listed(setup, old(connectedModules), old(State()), e, addresses)
    {
      match e
      case ReadySignal => moduleReady := true;
      case ConfigApplied =>
        remoteConfigReady := true;
        if !moduleReady { sent := sent + [Requirements]; }
      case Routes(accepted) => if setup.handlesRoutes { routesReady := accepted; }
      case Connect(m, consumed) =>
        if m in setup.required { Connected(m, consumed, addresses); }
      case InitProcessed => sent := sent + [Declaration];
      case Ack(requirements, ok) => if requirements && ok { requiredSendReady := true; }
      case Disconnect =>
        Reset();
        sent := sent + [ConfigSchema];
      case _ =>
    }
  }

  // ---------------------------------------------------------------- the readiness flag

  /** At a fresh start the comparison of sizes says whether every module is optional. */
  lemma InitialReadiness(setup: Setup)
    ensures InitialState(setup).requiredModulesReady <==> MustModulesIn(setup, InitialState(setup).connected)
  {
    var optional := OptionalModules(setup);
    assert optional <= setup.required.Keys;
    if MustModulesIn(setup, optional) {
      assert optional == setup.required.Keys;
    } else {
      ProperSubsetSmaller(optional, setup.required.Keys);
    }
  }

  lemma {:induction false} ProperSubsetSmaller(small: set<string>, large: set<string>)
    requires small < large
    ensures |small| < |large|
  {
    if x :| x in small {
      ProperSubsetSmaller(small - {x}, large - {x});
    }
  }

  // ---------------------------------------------------------------- what the flags remember

  /** The events since the last disconnect. */
  function Epoch(trace: seq<Event>): seq<Event> {
    if trace == [] || trace[|trace| - 1].Disconnect? then []
    else Epoch(trace[..|trace| - 1]) + [trace[|trace| - 1]]
  }

  function LatestRoutes(events: seq<Event>): Option<bool> {
    if events == [] then None
    else if events[|events| - 1].Routes? then Some(events[|events| - 1].accepted)
    else LatestRoutes(events[..|events| - 1])
  }

  predicate RoutesAccepted(setup: Setup, events: seq<Event>) {
    setup.handlesRoutes ==> LatestRoutes(events) == Some(true)
  }

  predicate ConnectedIn(events: seq<Event>, m: string) {
    Connect(m, true) in events
  }

  predicate AllMustConnectedIn(setup: Setup, events: seq<Event>) {
    forall m :: m in setup.required && setup.required[m] ==> ConnectedIn(events, m)
  }

  /** Everything a ready signal waits for has been processed in these events. */
  predicate HandshakeComplete(setup: Setup, events: seq<Event>) {
    && ConfigApplied in events
    && Ack(true, true) in events
    && RoutesAccepted(setup, events)
    && AllMustConnectedIn(setup, events)
  }

  function Run(setup: Setup, trace: seq<Event>): ModuleState {
    if trace == [] then InitialState(setup)
    else Handle(setup, Run(setup, trace[..|trace| - 1]), trace[|trace| - 1])
  }

  ghost predicate FlagsRemember(setup: Setup, st: ModuleState, events: seq<Event>) {
    && (st.remoteConfigReady <==> ConfigApplied in events)
    && (st.requiredSendReady <==> Ack(true, true) in events)
    && (st.routesReady <==> RoutesAccepted(setup, events))
    && (st.moduleReady <==> ReadySignal in events)
    && (forall m :: m in st.connected <==> m in setup.required && (!setup.required[m] || ConnectedIn(events, m)))
    && (st.requiredModulesReady <==> MustModulesIn(setup, st.connected))
  }

  /** After any sequence of events the flags say exactly what happened since the last disconnect. */
  lemma {:induction false} FlagsAreHistory(setup: Setup, trace: seq<Event>)
    ensures FlagsRemember(setup, Run(setup, trace), Epoch(trace))
  {
    if trace == [] {
      InitialReadiness(setup);
    } else {
      var front, e := trace[..|trace| - 1], trace[|trace| - 1];
      FlagsAreHistory(setup, front);
      if e.Disconnect? {
        InitialReadiness(setup);
      } else {
        OneMoreEvent(setup, Run(setup, front), Epoch(front), e);
      }
    }
  }

  lemma OneMoreEvent(setup: Setup, st: ModuleState, events: seq<Event>, e: Event)
    requires FlagsRemember(setup, st, events) && !e.Disconnect?
    ensures FlagsRemember(setup, Handle(setup, st, e), events + [e])
  {
    assert (events + [e])[..|events|] == events;
    forall x ensures x in events + [e] <==> x in events || x == e { }
  }

  lemma CanSendExactly(setup: Setup, trace: seq<Event>)
    ensures Run(setup, trace).CanSendModuleReady() <==>
      HandshakeComplete(setup, Epoch(trace)) && ReadySignal !in Epoch(trace)
  {
    FlagsAreHistory(setup, trace);
    var st := Run(setup, trace);
    assert MustModulesIn(setup, st.connected) <==> AllMustConnectedIn(setup, Epoch(trace));
  }

  // ---------------------------------------------------------------- what goes out, and when

  /** The configurations applied while no ready signal was given in their epoch. */
  function ConfigsBeforeReady(trace: seq<Event>): set<nat> {
    set i: nat | i < |trace| && trace[i] == ConfigApplied && ReadySignal !in Epoch(trace[..i])
  }

  /** Each message goes out at its event: the requirements after a configuration was applied to a module that
      has not signalled readiness in this epoch, the declaration after that signal was taken, the
      configuration schema after a reconnection, and nothing after anything else. */
  lemma SentAtEvent(setup: Setup, trace: seq<Event>, e: Event)
    ensures SentBy(setup, []) == [ConfigSchema]
    ensures SentBy(setup, trace + [e]) == SentBy(setup, trace) +
      if e == ConfigApplied && ReadySignal !in Epoch(trace) then [Requirements]
      else if e == InitProcessed then [Declaration]
      else if e == Disconnect then [ConfigSchema]
      else []
  {
    hide Run, Epoch, Handle, InitialState;
    FlagsAreHistory(setup, trace);
    assert Run(setup, trace).moduleReady <==> ReadySignal in Epoch(trace);
    hide FlagsRemember;
    assert (trace + [e])[..|trace|] == trace;
  }

  /** How many messages of each kind a sequence of events causes. */
  lemma {:induction false} SentCounts(setup: Setup, trace: seq<Event>)
    ensures multiset(SentBy(setup, trace))[Requirements] == |ConfigsBeforeReady(trace)|
    ensures multiset(SentBy(setup, trace))[Declaration] == Count(trace, InitProcessed)
    ensures multiset(SentBy(setup, trace))[ConfigSchema] == 1 + Count(trace, Disconnect)
  {
    hide SentBy, Epoch;
    if trace == [] {
      SentAtEvent(setup, [], Other);
      assert ConfigsBeforeReady(trace) == {};
    } else {
      var n := |trace| - 1;
      var front, e := trace[..n], trace[n];
      assert trace == front + [e];
      SentCounts(setup, front);
      SentAtEvent(setup, front, e);
      ConfigsBeforeReadyGrow(front, e);
    }
  }

  lemma ConfigsBeforeReadyGrow(trace: seq<Event>, e: Event)
    ensures |ConfigsBeforeReady(trace + [e])| == |ConfigsBeforeReady(trace)| +
      if e == ConfigApplied && ReadySignal !in Epoch(trace) then 1 else 0
  {
    hide Epoch;
    forall i: nat | i <= |trace| ensures (trace + [e])[..i] == trace[..i] { }
    assert trace[..|trace|] == trace;
    if e == ConfigApplied && ReadySignal !in Epoch(trace) {
      assert ConfigsBeforeReady(trace + [e]) == ConfigsBeforeReady(trace) + {|trace|};
    } else {
      assert ConfigsBeforeReady(trace + [e]) == ConfigsBeforeReady(trace);
    }
  }

  /** Listed for a module are the addresses that came with its latest connect event, even if the module
      disconnected since, or none if it was not connected then. */
  lemma {:induction false} ListedExactly(setup: Setup, trace: seq<Event>, lists: seq<seq<string>>, m: string, i: nat)
    requires |lists| == |trace| && i <= |trace|
    requires forall j :: i < j < |trace| && trace[j].Connect? ==> trace[j].name != m
    ensures i < |trace| && trace[i].Connect? && trace[i].name == m && m in setup.required ==>
      && m in ListedBy(setup, trace, lists)
      && ListedBy(setup, trace, lists)[m] ==
         if !setup.required[m] || ConnectedIn(Epoch(trace[..i + 1]), m) then lists[i] else []
    ensures m !in setup.required || (forall j :: 0 <= j < |trace| && trace[j].Connect? ==> trace[j].name != m) ==>
      m !in ListedBy(setup, trace, lists)
  {
    if trace != [] {
      var n := |trace| - 1;
      ListedExactly(setup, trace[..n], lists[..n], m, if i < n then i else n);
      if i < n {
        assert trace[..n][..i + 1] == trace[..i + 1];
      } else {
        assert trace[..n + 1] == trace;
        FlagsAreHistory(setup, trace);
      }
    }
  }

  // ---------------------------------------------------------------- the loop and the config worker

  datatype Phase =
    | Head                      // about to check whether a ready signal is due
    | Select                    // waiting for a message
    | SendingConfig(config: Config)
    | StuckOnInit               // sending to `initChan` while its slot is taken: nobody else receives
    | Stopped

  /** `handed` lists what the apply callback saw, `taken` how many configurations had
      been applied when the loop last took the "applied" token. */
  datatype System = System(
    phase: Phase,
    st: ModuleState,
    trace: seq<Event>,
    initToken: bool,
    accepted: seq<Config>,
    queue: seq<Config>,
    working: Option<Config>,
    applied: seq<Config>,
    current: Config,
    handed: seq<Handover>,
    appliedToken: bool,
    taken: nat,
    contextDone: bool,
    workerGone: bool)

  function Start(setup: Setup): System {
    System(Head, InitialState(setup), [], false, [], [], None, [], setup.initialConfig, [], false, 0, false, false)
  }

  function Log(setup: Setup, s: System, e: Event): System {
    s.(st := Handle(setup, s.st, e), trace := s.trace + [e])
  }

  /** The top of the loop: signal readiness once, then wait. */
  ghost predicate CheckReady(setup: Setup, s: System, s': System) {
    && s.phase.Head?
    && s' == if !s.st.CanSendModuleReady() then s.(phase := Select)
             else if s.initToken then s.(phase := StuckOnInit, st := s.st.(moduleReady := true))
             else Log(setup, s, ReadySignal).(phase := Select, initToken := true)
  }

  /** One message taken by the event loop.  The outcome of handlers, acks and reconnection is open. */
  ghost predicate TakeMessage(setup: Setup, s: System, s': System) {
    s.phase.Select? &&
    exists e ::
      var next := Log(setup, s, e).(phase := Head);
      match e
      case ReadySignal => false
      case ConfigAccepted(c) => s' == next.(phase := SendingConfig(c), accepted := s.accepted + [c])
      case ConfigApplied => s.appliedToken && s' == next.(appliedToken := false, taken := |s.applied|)
      case InitProcessed => s.initToken && s' == next.(initToken := false)
      case Disconnect => s' == next || (s.contextDone && s' == next.(phase := Stopped))
      case _ => s' == next
  }

  ghost predicate DeliverConfig(s: System, s': System) {
    s.phase.SendingConfig? && s.queue == [] && s' == s.(phase := Head, queue := [s.phase.config])
  }

  /** The module is shut down. */
  ghost predicate Cancel(s: System, s': System) {
    s' == s.(contextDone := true)
  }

  ghost predicate Stop(s: System, s': System) {
    s.phase.Select? && s.contextDone && s' == s.(phase := Stopped)
  }

  /** Between two tasks the worker may notice the shutdown and leave. */
  ghost predicate WorkerLeaves(s: System, s': System) {
    s.contextDone && s.working.None? && s' == s.(workerGone := true)
  }

  ghost predicate WorkerTakes(s: System, s': System) {
    && !s.workerGone && s.working.None? && s.queue != []
    && s' == s.(queue := s.queue[1..], working := Some(s.queue[0]),
                handed := s.handed + [Handover(s.queue[0], s.current)])
  }

  /** The token send does nothing when a token is already waiting. */
  ghost predicate WorkerFinishes(s: System, s': System) {
    && s.working.Some?
    && s' == s.(working := None, current := s.working.value,
                applied := s.applied + [s.working.value], appliedToken := true)
  }

  ghost predicate Next(setup: Setup, s: System, s': System) {
    || CheckReady(setup, s, s')
    || TakeMessage(setup, s, s')
    || DeliverConfig(s, s')
    || Cancel(s, s')
    || Stop(s, s')
    || WorkerLeaves(s, s')
    || WorkerTakes(s, s')
    || WorkerFinishes(s, s')
  }

  ghost predicate IsRun(setup: Setup, run: seq<System>) {
    && run != [] && run[0] == Start(setup)
    && forall i :: 0 <= i < |run| - 1 ==> Next(setup, run[i], run[i + 1])
  }

  function Optional<T>(x: Option<T>): seq<T> {
    if x.Some? then [x.value] else []
  }

  function Sending(phase: Phase): seq<Config> {
    if phase.SendingConfig? then [phase.config] else []
  }

  /** Every ready signal came when the handshake of its epoch was complete, and was the first one there. */
  ghost predicate ReadyJustified(setup: Setup, trace: seq<Event>) {
    forall i :: 0 <= i < |trace| && trace[i].ReadySignal? ==>
      HandshakeComplete(setup, Epoch(trace[..i])) && ReadySignal !in Epoch(trace[..i])
  }

  function Count(trace: seq<Event>, e: Event): nat {
    multiset(trace)[e]
  }

  /** The flags are those of the history, and every ready signal in it was justified. */
  ghost predicate HistoryInv(setup: Setup, st: ModuleState, trace: seq<Event>) {
    st == Run(setup, trace) && ReadyJustified(setup, trace)
  }

  ghost predicate HandshakeInv(setup: Setup, s: System) {
    && (if s.phase.StuckOnInit?
        then && s.initToken && s.st.moduleReady && ReadyJustified(setup, s.trace)
             && Run(setup, s.trace).CanSendModuleReady()
        else HistoryInv(setup, s.st, s.trace))
    && (s.phase.Select? ==> !s.st.CanSendModuleReady())
    && Count(s.trace, ReadySignal) == Count(s.trace, InitProcessed) + (if s.initToken then 1 else 0)
  }

  /** The callback got each configuration in turn, with the one before it as the old one. */
  ghost predicate HandedOver(first: Config, handed: seq<Handover>, configs: seq<Config>) {
    && |handed| == |configs|
    && forall k :: 0 <= k < |configs| ==> handed[k] == Handover(configs[k], if k == 0 then first else configs[k - 1])
  }

  /** No accepted configuration is lost, duplicated or reordered. */
  ghost predicate ConfigInv(setup: Setup, s: System) {
    && s.accepted == s.applied + Optional(s.working) + s.queue + Sending(s.phase)
    && |s.queue| <= 1
    && s.current == (if s.applied == [] then setup.initialConfig else s.applied[|s.applied| - 1])
    && HandedOver(setup.initialConfig, s.handed, s.applied + Optional(s.working))
    && s.taken <= |s.applied|
    && (s.appliedToken <==> s.taken < |s.applied|)
  }

  lemma HistoryStep(setup: Setup, st: ModuleState, trace: seq<Event>, e: Event)
    requires HistoryInv(setup, st, trace)
    requires e.ReadySignal? ==> st.CanSendModuleReady()
    ensures HistoryInv(setup, Handle(setup, st, e), trace + [e])
    ensures forall x :: Count(trace + [e], x) == Count(trace, x) + if x == e then 1 else 0
  {
    CanSendExactly(setup, trace);
    assert (trace + [e])[..|trace|] == trace;
    forall i | 0 <= i < |trace| ensures (trace + [e])[..i] == trace[..i] { }
  }

  lemma CheckReadyStep(setup: Setup, s: System, s': System)
    requires HandshakeInv(setup, s) && CheckReady(setup, s, s')
    ensures HandshakeInv(setup, s')
  {
    hide Run, ReadyJustified;
    if s.st.CanSendModuleReady() && !s.initToken {
      HistoryStep(setup, s.st, s.trace, ReadySignal);
    }
  }

  lemma TakeMessageStep(setup: Setup, s: System, s': System)
    requires HandshakeInv(setup, s) && TakeMessage(setup, s, s')
    ensures HandshakeInv(setup, s')
  {
    hide Handle, Run, ReadyJustified, Count, HistoryInv;
    var e: Event :| !e.ReadySignal? && s'.trace == s.trace + [e] && s'.st == Handle(setup, s.st, e)
      && (e.InitProcessed? ==> s.initToken && !s'.initToken) && (!e.InitProcessed? ==> s'.initToken == s.initToken)
      && !s'.phase.Select? && !s'.phase.StuckOnInit?;
    HistoryStep(setup, s.st, s.trace, e);
  }

  /** Steps that leave the flags, the history and the init token alone. */
  lemma HandshakeKept(setup: Setup, s: System, s': System)
    requires HandshakeInv(setup, s)
    requires s'.st == s.st && s'.trace == s.trace && s'.initToken == s.initToken
    requires s'.phase.StuckOnInit? == s.phase.StuckOnInit? && (s'.phase.Select? ==> s.phase.Select?)
    ensures HandshakeInv(setup, s')
  {
    hide Run, ReadyJustified, HistoryInv, Count;
  }

  lemma HandshakeStep(setup: Setup, s: System, s': System)
    requires HandshakeInv(setup, s) && Next(setup, s, s')
    ensures HandshakeInv(setup, s')
  {
    hide HandshakeInv, CheckReady, TakeMessage;
    if CheckReady(setup, s, s') {
      CheckReadyStep(setup, s, s');
    } else if TakeMessage(setup, s, s') {
      TakeMessageStep(setup, s, s');
    } else {
      HandshakeKept(setup, s, s');
    }
  }

  lemma HandOverNext(first: Config, handed: seq<Handover>, configs: seq<Config>, next: Config, current: Config)
    requires HandedOver(first, handed, configs)
    requires current == if configs == [] then first else configs[|configs| - 1]
    ensures HandedOver(first, handed + [Handover(next, current)], configs + [next])
  {
    forall k | 0 <= k < |configs| + 1
      ensures (handed + [Handover(next, current)])[k] ==
        Handover((configs + [next])[k], if k == 0 then first else (configs + [next])[k - 1])
    {
      if k < |configs| {
        assert handed[k] == Handover(configs[k], if k == 0 then first else configs[k - 1]);
        assert k > 0 ==> (configs + [next])[k - 1] == configs[k - 1];
      } else {
        assert (handed + [Handover(next, current)])[k] == Handover(next, current);
        assert k > 0 ==> (configs + [next])[k - 1] == configs[k - 1];
      }
    }
  }

  lemma WorkerStep(setup: Setup, s: System, s': System)
    requires ConfigInv(setup, s) && (WorkerTakes(s, s') || WorkerFinishes(s, s'))
    ensures ConfigInv(setup, s')
  {
    var inHand, inHand' := s.applied + Optional(s.working), s'.applied + Optional(s'.working);
    if WorkerTakes(s, s') {
      assert inHand' == inHand + [s.queue[0]] == s.applied + [s.queue[0]];
      assert inHand == s.applied;
      HandOverNext(setup.initialConfig, s.handed, s.applied, s.queue[0], s.current);
      assert s.queue == [s.queue[0]] + s'.queue;
    } else {
      assert inHand' == inHand;
    }
  }

  /** The loop touches only the head of the chain and the token. */
  lemma LoopStep(setup: Setup, s: System, s': System)
    requires ConfigInv(setup, s)
    requires s'.applied == s.applied && s'.working == s.working && s'.current == s.current && s'.handed == s.handed
    requires || (s'.accepted == s.accepted && s'.queue == s.queue && Sending(s'.phase) == Sending(s.phase))
             || (s'.accepted == s.accepted && s'.queue == Sending(s.phase) && s.queue == Sending(s'.phase) == [])
             || (s'.accepted == s.accepted + Sending(s'.phase) && s'.queue == s.queue && Sending(s.phase) == [])
    requires || (s'.appliedToken == s.appliedToken && s'.taken == s.taken)
             || (!s'.appliedToken && s'.taken == |s.applied|)
    ensures ConfigInv(setup, s')
  {
    assert s'.accepted == s'.applied + Optional(s'.working) + s'.queue + Sending(s'.phase);
  }

  lemma ConfigStep(setup: Setup, s: System, s': System)
    requires ConfigInv(setup, s) && Next(setup, s, s')
    ensures ConfigInv(setup, s')
  {
    hide ConfigInv, TakeMessage, CheckReady;
    if WorkerTakes(s, s') || WorkerFinishes(s, s') {
      WorkerStep(setup, s, s');
    } else if TakeMessage(setup, s, s') {
      MessageStep(setup, s, s');
    } else if CheckReady(setup, s, s') {
      HeadStep(setup, s, s');
    } else {
      LoopStep(setup, s, s');
    }
  }

  lemma MessageStep(setup: Setup, s: System, s': System)
    requires ConfigInv(setup, s) && TakeMessage(setup, s, s')
    ensures ConfigInv(setup, s')
  {
    hide Handle, InitialState, ConfigInv;
    LoopStep(setup, s, s');
  }

  lemma HeadStep(setup: Setup, s: System, s': System)
    requires ConfigInv(setup, s) && CheckReady(setup, s, s')
    ensures ConfigInv(setup, s')
  {
    hide Handle, InitialState, ConfigInv;
    LoopStep(setup, s, s');
  }

  /** Both invariants hold in every state of every run, under every interleaving. */
  lemma {:induction false} RunsAreSafe(setup: Setup, run: seq<System>, i: nat)
    requires IsRun(setup, run) && i < |run|
    ensures HandshakeInv(setup, run[i]) && ConfigInv(setup, run[i])
  {
    if i > 0 {
      RunsAreSafe(setup, run, i - 1);
      assert Next(setup, run[i - 1], run[i - 1 + 1]);
      HandshakeStep(setup, run[i - 1], run[i]);
      ConfigStep(setup, run[i - 1], run[i]);
    }
  }

  /** At each ready signal, everything it waits for has been processed since the last disconnect. */
  lemma ReadyAfterHandshake(setup: Setup, run: seq<System>, i: nat, j: nat)
    requires IsRun(setup, run) && i < |run| && j < |run[i].trace| && run[i].trace[j].ReadySignal?
    ensures HandshakeComplete(setup, Epoch(run[i].trace[..j])) && ReadySignal !in Epoch(run[i].trace[..j])
  {
    RunsAreSafe(setup, run, i);
  }

  /** Two ready signals are separated by a disconnect. */
  lemma ReadyOncePerEpoch(setup: Setup, run: seq<System>, i: nat, j: nat, k: nat)
    requires IsRun(setup, run) && i < |run|
    requires j < k < |run[i].trace| && run[i].trace[j].ReadySignal? && run[i].trace[k].ReadySignal?
    ensures exists d :: j < d < k && run[i].trace[d].Disconnect?
  {
    RunsAreSafe(setup, run, i);
    SinceLastDisconnect(run[i].trace[..k], j);
  }

  lemma {:induction false} SinceLastDisconnect(trace: seq<Event>, j: nat)
    requires j < |trace| && !trace[j].Disconnect?
    ensures trace[j] in Epoch(trace) || exists d :: j < d < |trace| && trace[d].Disconnect?
  {
    var n := |trace| - 1;
    if j < n && !trace[n].Disconnect? {
      SinceLastDisconnect(trace[..n], j);
      if d :| j < d < n && trace[..n][d].Disconnect? { assert trace[d].Disconnect?; }
    }
  }

  /** Whenever the loop waits for messages, a completed handshake has already been signalled. */
  lemma ReadyNotMissed(setup: Setup, run: seq<System>, i: nat)
    requires IsRun(setup, run) && i < |run| && run[i].phase.Select?
    requires HandshakeComplete(setup, Epoch(run[i].trace))
    ensures ReadySignal in Epoch(run[i].trace)
  {
    RunsAreSafe(setup, run, i);
    CanSendExactly(setup, run[i].trace);
  }

  /** Within an epoch the connected set only grows, so its readiness is never lost. */
  lemma ReadinessIsStable(setup: Setup, trace: seq<Event>, e: Event)
    requires !e.Disconnect?
    ensures Run(setup, trace).connected <= Run(setup, trace + [e]).connected
    ensures Run(setup, trace).requiredModulesReady ==> Run(setup, trace + [e]).requiredModulesReady
  {
    FlagsAreHistory(setup, trace);
    assert (trace + [e])[..|trace|] == trace;
  }

  // ---------------------------------------------------------------- the loop can block on its own signal

  /** The loop gets stuck on a ready signal exactly when the handshake of the epoch is complete and not
      signalled yet, while an earlier signal has not been taken. */
  lemma SticksExactly(setup: Setup, run: seq<System>, i: nat)
    requires IsRun(setup, run) && i + 1 < |run| && CheckReady(setup, run[i], run[i + 1])
    ensures var trace := run[i].trace;
      run[i + 1].phase.StuckOnInit? <==>
        && HandshakeComplete(setup, Epoch(trace)) && ReadySignal !in Epoch(trace)
        && Count(trace, ReadySignal) > Count(trace, InitProcessed)
  {
    hide Handle, Run, Epoch, HandshakeComplete;
    RunsAreSafe(setup, run, i);
    CanSendExactly(setup, run[i].trace);
  }

  /** Nothing frees it: no message is taken, no configuration accepted, and it does not even stop. */
  lemma {:induction false} StuckForever(setup: Setup, run: seq<System>, i: nat, j: nat)
    requires IsRun(setup, run) && i <= j < |run| && run[i].phase.StuckOnInit?
    ensures run[j].phase.StuckOnInit? && run[j].trace == run[i].trace && run[j].accepted == run[i].accepted
  {
    if i < j {
      StuckForever(setup, run, i, j - 1);
      assert Next(setup, run[j - 1], run[j - 1 + 1]);
    }
  }

  ghost predicate Reachable(setup: Setup, s: System) {
    exists run :: IsRun(setup, run) && run[|run| - 1] == s
  }

  lemma ReachesStart(setup: Setup)
    ensures Reachable(setup, Start(setup))
  {
    assert IsRun(setup, [Start(setup)]);
  }

  lemma ReachesNext(setup: Setup, s: System, s': System)
    requires Reachable(setup, s) && Next(setup, s, s')
    ensures Reachable(setup, s')
  {
    hide Next;
    var run :| IsRun(setup, run) && run[|run| - 1] == s;
    assert IsRun(setup, run + [s']);
  }

  /** The loop takes a message that leaves nothing to signal and waits again. */
  lemma Takes(setup: Setup, s: System, e: Event) returns (s': System)
    requires Reachable(setup, s) && s.phase.Select? && (e.Connect? || e.Routes?)
    requires !s.st.requiredSendReady
    ensures Reachable(setup, s') && s' == Log(setup, s, e)
  {
    var head := Log(setup, s, e).(phase := Head);
    assert TakeMessage(setup, s, head);
    ReachesNext(setup, s, head);
    s' := Log(setup, s, e);
    assert CheckReady(setup, head, s');
    ReachesNext(setup, head, s');
  }

  /** A configuration is accepted, applied and noticed. */
  lemma Applies(setup: Setup, s: System, c: Config) returns (s': System)
    requires Reachable(setup, s) && s.phase.Select? && s.queue == [] && s.working.None? && !s.appliedToken
    requires !s.st.requiredSendReady && !s.workerGone
    ensures Reachable(setup, s') && s'.phase.Select? && s'.st == s.st.(remoteConfigReady := true)
    ensures s'.queue == [] && s'.working.None? && !s'.appliedToken && s'.initToken == s.initToken && !s'.workerGone
  {
    var a := Log(setup, s, ConfigAccepted(c)).(phase := SendingConfig(c), accepted := s.accepted + [c]);
    assert TakeMessage(setup, s, a);
    ReachesNext(setup, s, a);
    var b := a.(phase := Head, queue := [c]);
    ReachesNext(setup, a, b);
    var d := b.(queue := b.queue[1..], working := Some(c), handed := b.handed + [Handover(c, b.current)]);
    ReachesNext(setup, b, d);
    var f := d.(working := None, current := c, applied := d.applied + [c], appliedToken := true);
    ReachesNext(setup, d, f);
    var g := f.(phase := Select);
    ReachesNext(setup, f, g);
    var h := Log(setup, g, ConfigApplied).(phase := Head, appliedToken := false, taken := |g.applied|);
    assert TakeMessage(setup, g, h);
    ReachesNext(setup, g, h);
    s' := h.(phase := Select);
    ReachesNext(setup, h, s');
  }

  /** Every module that must connect does so. */
  lemma {:induction false} ConnectsAll(setup: Setup, s: System, todo: set<string>) returns (s': System)
    requires Reachable(setup, s) && s.phase.Select? && !s.st.requiredSendReady
    requires todo <= setup.required.Keys
    requires forall m :: m in setup.required && setup.required[m] && m !in todo ==> m in s.st.connected
    requires todo == {} ==> s.st.requiredModulesReady == MustModulesIn(setup, s.st.connected)
    ensures Reachable(setup, s') && s'.phase.Select? && s'.st.requiredModulesReady
    ensures s'.st == s.st.(requiredModulesReady := true, connected := s'.st.connected)
    ensures s' == s.(st := s'.st, trace := s'.trace)
    decreases |todo|
  {
    if m :| m in todo {
      var next := Takes(setup, s, Connect(m, true));
      s' := ConnectsAll(setup, next, todo - {m});
    } else {
      s' := s;
    }
  }

  /** A handshake from the start of an epoch up to the ready signal. */
  lemma Completes(setup: Setup, s: System) returns (s': System)
    requires Reachable(setup, s) && s.phase.Head? && s.st == InitialState(setup)
    requires s.queue == [] && s.working.None? && !s.appliedToken && !s.workerGone
    ensures Reachable(setup, s') && s'.phase.Head? && s'.st.CanSendModuleReady() && s'.initToken == s.initToken
    ensures s'.queue == [] && s'.working.None? && !s'.appliedToken && !s'.workerGone
  {
    var a := s.(phase := Select);
    assert CheckReady(setup, s, a);
    ReachesNext(setup, s, a);
    InitialReadiness(setup);
    var b := ConnectsAll(setup, a, setup.required.Keys);
    var c := Applies(setup, b, setup.initialConfig);
    var d := c;
    if setup.handlesRoutes { d := Takes(setup, c, Routes(true)); }
    s' := Log(setup, d, Ack(true, true)).(phase := Head);
    assert TakeMessage(setup, d, s');
    ReachesNext(setup, d, s');
  }

  /** Whatever a module declares, some run blocks for ever: signal, disconnect, signal again. */
  lemma EveryModuleCanStick(setup: Setup)
    ensures exists run: seq<System> :: IsRun(setup, run) && run[|run| - 1].phase.StuckOnInit?
  {
    ReachesStart(setup);
    var a := Completes(setup, Start(setup));
    var b := Log(setup, a, ReadySignal).(phase := Select, initToken := true);
    assert CheckReady(setup, a, b);
    ReachesNext(setup, a, b);
    var c := Log(setup, b, Disconnect).(phase := Head);
    assert TakeMessage(setup, b, c);
    ReachesNext(setup, b, c);
    var d := Completes(setup, c);
    var stuck := d.(phase := StuckOnInit, st := d.st.(moduleReady := true));
    assert CheckReady(setup, d, stuck);
    ReachesNext(setup, d, stuck);
  }

  // ---------------------------------------------------------------- ... and on a configuration after the shutdown

  /** The loop hands over a configuration, the slot is taken, and the worker that would empty it has left. */
  ghost predicate SendHangs(s: System) {
    s.phase.SendingConfig? && s.queue != [] && s.workerGone
  }

  /** Then the loop never returns, although the shutdown was asked for. */
  lemma {:induction false} HungForever(setup: Setup, run: seq<System>, i: nat, j: nat)
    requires IsRun(setup, run) && i <= j < |run| && SendHangs(run[i])
    ensures SendHangs(run[j]) && run[j].trace == run[i].trace && run[j].accepted == run[i].accepted
  {
    if i < j {
      hide Next, SendHangs;
      HungForever(setup, run, i, j - 1);
      WorkerGoneIsIdle(setup, run, j - 1);
      assert Next(setup, run[j - 1], run[j - 1 + 1]);
      HungStep(setup, run[j - 1], run[j]);
    }
  }

  lemma HungStep(setup: Setup, s: System, s': System)
    requires SendHangs(s) && s.working.None? && Next(setup, s, s')
    ensures SendHangs(s') && s'.trace == s.trace && s'.accepted == s.accepted
  {
    hide CheckReady, TakeMessage;
    LoopWaits(setup, s, s');
  }

  lemma LoopWaits(setup: Setup, s: System, s': System)
    requires s.phase.SendingConfig?
    ensures !CheckReady(setup, s, s') && !TakeMessage(setup, s, s')
  {
  }

  lemma {:induction false} WorkerGoneIsIdle(setup: Setup, run: seq<System>, i: nat)
    requires IsRun(setup, run) && i < |run|
    ensures run[i].workerGone ==> run[i].working.None? && run[i].contextDone
  {
    if i > 0 {
      hide Next;
      WorkerGoneIsIdle(setup, run, i - 1);
      assert Next(setup, run[i - 1], run[i - 1 + 1]);
      WorkerGoneStep(setup, run[i - 1], run[i]);
    }
  }

  lemma WorkerGoneStep(setup: Setup, s: System, s': System)
    requires s.workerGone ==> s.working.None? && s.contextDone
    requires Next(setup, s, s')
    ensures s'.workerGone ==> s'.working.None? && s'.contextDone
  {
    hide CheckReady, TakeMessage;
    if CheckReady(setup, s, s') || TakeMessage(setup, s, s') { LoopKeepsWorker(setup, s, s'); }
  }

  lemma LoopKeepsWorker(setup: Setup, s: System, s': System)
    requires CheckReady(setup, s, s') || TakeMessage(setup, s, s')
    ensures s'.workerGone == s.workerGone && s'.working == s.working && s'.contextDone == s.contextDone
  {
    hide Handle;
  }

  /** In every other state in which it hands over a configuration, it can still deliver it. */
  lemma DeliversOtherwise(setup: Setup, s: System) returns (s': System)
    requires Reachable(setup, s) && s.phase.SendingConfig? && !SendHangs(s)
    ensures Reachable(setup, s') && s'.phase.Head? && s'.queue == [s.phase.config] && s'.accepted == s.accepted
  {
    var run :| IsRun(setup, run) && run[|run| - 1] == s;
    RunsAreSafe(setup, run, |run| - 1);
    WorkerGoneIsIdle(setup, run, |run| - 1);
    var idle, emptied := s, s;
    if s.queue != [] {
      if s.working.Some? {
        idle := s.(working := None, current := s.working.value,
                   applied := s.applied + [s.working.value], appliedToken := true);
        assert WorkerFinishes(s, idle);
        ReachesNext(setup, s, idle);
      }
      emptied := idle.(queue := idle.queue[1..], working := Some(idle.queue[0]),
                       handed := idle.handed + [Handover(idle.queue[0], idle.current)]);
      assert WorkerTakes(idle, emptied);
      ReachesNext(setup, idle, emptied);
    }
    s' := emptied.(phase := Head, queue := [s.phase.config]);
    assert DeliverConfig(emptied, s');
    ReachesNext(setup, emptied, s');
  }

  /** Whatever a module declares, some run hangs after the shutdown: a configuration waits in the slot, the
      context ends, the worker leaves, and another configuration arrives. */
  lemma EveryModuleCanHang(setup: Setup, c: Config)
    ensures exists run: seq<System> :: IsRun(setup, run) && SendHangs(run[|run| - 1])
  {
    ReachesStart(setup);
    var a := Start(setup).(phase := Select);
    assert CheckReady(setup, Start(setup), a);
    ReachesNext(setup, Start(setup), a);
    var b := Log(setup, a, ConfigAccepted(c)).(phase := SendingConfig(c), accepted := a.accepted + [c]);
    assert TakeMessage(setup, a, b);
    ReachesNext(setup, a, b);
    var d := b.(phase := Head, queue := [c]);
    assert DeliverConfig(b, d);
    ReachesNext(setup, b, d);
    var e := d.(phase := Select);
    assert CheckReady(setup, d, e);
    ReachesNext(setup, d, e);
    var f := e.(contextDone := true);
    ReachesNext(setup, e, f);
    var g := f.(workerGone := true);
    ReachesNext(setup, f, g);
    var h := Log(setup, g, ConfigAccepted(c)).(phase := SendingConfig(c), accepted := g.accepted + [c]);
    assert TakeMessage(setup, g, h);
    ReachesNext(setup, g, h);
  }
}
