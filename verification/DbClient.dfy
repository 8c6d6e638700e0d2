/** database/rx_client.go: a client whose database handle is replaced when the configuration changes. */
module DbClient {
  import opened Wrappers

  /** `rest` stands for the connection settings, all of which take part in the comparison. */
  datatype Configuration = Configuration(schema: string, createSchema: bool, rest: string)

  const NO_CONFIGURATION := Configuration("", false, "")

  datatype Options = Options(
    ensureMigrations: bool,
    ensureSchema: bool,
    injectSchema: bool,
    hooks: seq<string>,
    hasErrorHandler: bool,
    hasInitHandler: bool)

  /** How the steps of one reconfiguration would turn out. */
  datatype Steps = Steps(schema: bool, migrations: bool, connect: bool)

  /** A pool of connections; a copy of it made for a schema shares the pool. */
  datatype Handle = Handle(pool: nat, schema: Option<string>, hooks: seq<string>)

  datatype Call = Configure(config: Configuration, steps: Steps) | Close

  /** The fields of the client and a log of what it did to the world: pools installed and closed in order,
      initialisations, reported errors. */
  datatype State = State(
    db: Option<Handle>,
    lastConf: Configuration,
    active: bool,
    installed: seq<nat>,
    closed: seq<nat>,
    initialised: seq<(Handle, Configuration)>,
    errors: seq<string>)

  const START := State(None, NO_CONFIGURATION, true, [], [], [], [])

  /** The first step that fails; steps that are switched off do not. */
  function Failed(options: Options, config: Configuration, steps: Steps): Option<string> {
    if options.ensureSchema && config.createSchema && !steps.schema then Some("check schema")
    else if options.ensureMigrations && !steps.migrations then Some("run migrations")
    else if !steps.connect then Some("connect")
    else None
  }

  function Prepared(options: Options, config: Configuration, pool: nat): Handle {
    Handle(pool, if options.injectSchema then Some(config.schema) else None, options.hooks)
  }

  function Released(s: State): seq<nat> {
    if s.db.Some? then s.closed + [s.db.value.pool] else s.closed
  }

  /** Pools are numbered in the order in which they are installed. */
  function Configured(options: Options, s: State, config: Configuration, steps: Steps): State {
    if !s.active || config == s.lastConf then s
    else
      var failed := Failed(options, config, steps);
      if failed.Some? then
        if options.hasErrorHandler then s.(errors := s.errors + [failed.value]) else s
      else
        var db := Prepared(options, config, |s.installed|);
        s.(
          db := Some(db), lastConf := config, installed := s.installed + [db.pool], closed := Released(s),
          initialised := if options.hasInitHandler then s.initialised + [(db, config)] else s.initialised)
  }

  function After(options: Options, s: State, call: Call): State {
    match call
    case Configure(config, steps) => Configured(options, s, config, steps)
    case Close => s.(active := false, db := None, closed := Released(s))
  }

  function AfterAll(options: Options, calls: seq<Call>): State {
    if calls == [] then START else After(options, AfterAll(options, calls[..|calls| - 1]), calls[|calls| - 1])
  }

  class RxDbClient {
    var db: Option<Handle>
    var lastConf: Configuration
    var active: bool
    const options: Options
    ghost var installed: seq<nat>
    ghost var closed: seq<nat>
    ghost var initialised: seq<(Handle, Configuration)>
    ghost var errors: seq<string>

    ghost function Contents(): State
      reads this
    {
      State(db, lastConf, active, installed, closed, initialised, errors)
    }

    constructor (options: Options)
      ensures this.options == options && Contents() == START
    {
      this.options, db, lastConf, active := options, None, NO_CONFIGURATION, true;
      installed, closed, initialised, errors := [], [], [], [];
    }

    method Report(action: string)
      modifies this`errors
      ensures errors == if options.hasErrorHandler then old(errors) + [action] else old(errors)
    {
      if options.hasErrorHandler { errors := errors + [action]; }
    }

    method ReceiveConfiguration(config: Configuration, steps: Steps, pool: nat)
      requires pool == |installed|
      modifies this
      ensures Contents() == After(options, old(Contents()), Configure(config, steps))
    {
      if !active { return; }
      if lastConf != config {
        var ok := true;
        if options.ensureSchema && config.createSchema {
          if !steps.schema {
            Report("check schema");
            ok := false;
          }
        }
        if ok && options.ensureMigrations {
          if !steps.migrations {
            Report("run migrations");
            ok := false;
          }
        }
        var next: Option<Handle> := None;
        if ok {
          if !steps.connect {
            Report("connect");
            ok := false;
          } else {
            next := Some(Handle(pool, None, []));
          }
          if ok && options.injectSchema { next := Some(next.value.(schema := Some(config.schema))); }
          if next.Some? {
            for i := 0 to |options.hooks|
              invariant next.Some? && next.value.pool == pool && next.value.hooks == options.hooks[..i]
              invariant next.value.schema == if options.injectSchema then Some(config.schema) else None
            {
              next := Some(next.value.(hooks := next.value.hooks + [options.hooks[i]]));
            }
            assert options.hooks[..|options.hooks|] == options.hooks;
          }
        }
        if ok && db.Some? {
          closed := closed + [db.value.pool];
          db := None;
        }
        if ok {
          installed := installed + [pool];
          db, lastConf := next, config;
          if options.hasInitHandler { initialised := initialised + [(db.value, config)]; }
        }
      }
    }

    /** `closes` is the outcome of closing the handle. */
    method Close(closes: bool) returns (ok: bool)
      modifies this
      ensures Contents() == After(options, old(Contents()), Call.Close)
      ensures ok <==> old(db).None? || closes
    {
      active := false;
      if db.Some? {
        var handle := db.value;
        db := None;
        closed := closed + [handle.pool];
        return closes;
      }
      return true;
    }

    /** The visitor's error is the result; without a handle it is not called. */
    method Visit(visitor: Handle -> Option<string>) returns (err: Option<string>)
      ensures err == if db.Some? then visitor(db.value) else Some("db: not connected")
    {
      if db.None? { return Some("db: not connected"); }
      return visitor(db.value);
    }
  }

  // ---------------------------------------------------------------- whole runs

  /** Pools are closed in the order they were installed, and all but the current one are closed. */
  ghost predicate Inv(s: State) {
    && (forall i :: 0 <= i < |s.installed| ==> s.installed[i] == i)
    && s.installed == s.closed + (if s.db.Some? then [s.db.value.pool] else [])
    && (!s.active ==> s.db.None?)
  }

  lemma {:induction false} RunsKeepInv(options: Options, calls: seq<Call>)
    ensures Inv(AfterAll(options, calls))
  {
    if calls != [] { RunsKeepInv(options, calls[..|calls| - 1]); }
  }

  /** Every installed pool but the current one has been closed exactly once, the current one never. */
  lemma ClosedExactlyOnce(options: Options, calls: seq<Call>, pool: nat)
    ensures var s := AfterAll(options, calls);
      multiset(s.closed)[pool] ==
        if pool < |s.installed| && !(s.db.Some? && s.db.value.pool == pool) then 1 else 0
  {
    var s := AfterAll(options, calls);
    RunsKeepInv(options, calls);
    assert forall i :: 0 <= i < |s.closed| ==> s.closed[i] == s.installed[i] == i;
    CountUpTo(s.closed, pool);
  }

  lemma {:induction false} CountUpTo(s: seq<nat>, x: nat)
    requires forall i :: 0 <= i < |s| ==> s[i] == i
    ensures multiset(s)[x] == if x < |s| then 1 else 0
  {
    if s != [] {
      var n := |s| - 1;
      CountUpTo(s[..n], x);
      assert s == s[..n] + [n];
    }
  }

  /** The handle is replaced exactly when the client is open, the configuration is new and no step fails;
      otherwise the configuration and all pools stay as well, and at most an error is reported. */
  lemma ReplacedExactly(options: Options, calls: seq<Call>, config: Configuration, steps: Steps)
    ensures var s, s' := AfterAll(options, calls), AfterAll(options, calls + [Configure(config, steps)]);
      && (s'.db != s.db <==>
           && s.active && config != s.lastConf
           && (options.ensureSchema && config.createSchema ==> steps.schema)
           && (options.ensureMigrations ==> steps.migrations)
           && steps.connect)
      && (s'.db == s.db ==> s' == s.(errors := s'.errors) && s.errors <= s'.errors)
      && (s'.db != s.db ==> s'.active && s'.lastConf == config && s'.errors == s.errors)
  {
    assert (calls + [Configure(config, steps)])[..|calls|] == calls;
    var s := AfterAll(options, calls);
    RunsKeepInv(options, calls);
    assert s.db.Some? ==> s.installed[|s.closed|] == s.db.value.pool == |s.installed| - 1;
  }

  /** A replacement prepares a fresh pool, installs it, closes the old one and initialises the new handle. */
  lemma ReplacedBy(options: Options, calls: seq<Call>, config: Configuration, steps: Steps)
    ensures var s, s' := AfterAll(options, calls), AfterAll(options, calls + [Configure(config, steps)]);
      s'.db != s.db ==>
        && s'.db.Some? && s'.db.value.pool !in s.installed && s'.installed == s.installed + [s'.db.value.pool]
        && s'.db.value.schema == (if options.injectSchema then Some(config.schema) else None)
        && s'.db.value.hooks == options.hooks
        && s'.closed == s.closed + (if s.db.Some? then [s.db.value.pool] else [])
        && s'.initialised == s.initialised + (if options.hasInitHandler then [(s'.db.value, config)] else [])
  {
    assert (calls + [Configure(config, steps)])[..|calls|] == calls;
    RunsKeepInv(options, calls);
  }

  /** The error handler, if there is one, hears of the first step that fails: of the schema, of the
      migrations, or of the connection. */
  lemma ReportedExactly(options: Options, calls: seq<Call>, config: Configuration, steps: Steps)
    ensures var s, s' := AfterAll(options, calls), AfterAll(options, calls + [Configure(config, steps)]);
      var noSchema := options.ensureSchema && config.createSchema && !steps.schema;
      var notMigrated := options.ensureMigrations && !steps.migrations;
      s'.errors == s.errors +
        if !s.active || config == s.lastConf || !options.hasErrorHandler then []
        else if noSchema then ["check schema"]
        else if notMigrated then ["run migrations"]
        else if !steps.connect then ["connect"]
        else []
  {
    assert (calls + [Configure(config, steps)])[..|calls|] == calls;
  }

  /** After a close the client is dead: no later call installs, closes or initialises anything. */
  lemma {:induction false} DeadAfterClose(options: Options, before: seq<Call>, after: seq<Call>)
    ensures AfterAll(options, before + [Close] + after) == AfterAll(options, before + [Close])
    ensures AfterAll(options, before + [Close]).db.None?
  {
    var calls := before + [Close];
    assert calls[..|calls| - 1] == before;
    RunsKeepInv(options, calls);
    if after == [] {
      assert calls + [] == calls;
    } else {
      var front := after[..|after| - 1];
      DeadAfterClose(options, before, front);
      assert (calls + after)[..|calls + after| - 1] == calls + front;
    }
  }

  /** While the client is open it is connected exactly when some configuration was installed, and
      `lastConf` is the configuration of the current handle. */
  ghost predicate Connected(options: Options, s: State) {
    && (s.active ==> (s.db.Some? <==> s.installed != []))
    && (s.db.Some? ==>
         && s.db.value.schema == (if options.injectSchema then Some(s.lastConf.schema) else None)
         && s.db.value.hooks == options.hooks)
    && (s.installed == [] ==> s.lastConf == Configuration("", false, ""))
    && (options.hasInitHandler ==> |s.initialised| == |s.installed|)
    && (s.db.Some? ==> s.installed != [])
    && (options.hasInitHandler && s.db.Some? ==> s.initialised[|s.initialised| - 1] == (s.db.value, s.lastConf))
  }

  lemma {:induction false} RunsKeepConnected(options: Options, calls: seq<Call>)
    ensures Connected(options, AfterAll(options, calls))
  {
    if calls != [] { RunsKeepConnected(options, calls[..|calls| - 1]); }
  }
}
