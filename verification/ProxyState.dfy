/** The state that `internal/proxy/proxy.go` guards with its lock, as a class with one method for each lock
    section. */
module ProxyState {
  import opened Bytes
  import opened Faults

  type ConnId = nat

  /** What the lock protects and the goroutines share: the engine, the registered connections, and whether
      the proxy holds a listener and the function that cancels its context. */
  datatype Shared = Shared(engine: Engine, conns: set<ConnId>, held: bool) {
    function WithEngine(e: Engine): Shared { this.(engine := e) }
    function WithConn(c: ConnId): Shared { this.(conns := conns + {c}) }
    function WithoutConn(c: ConnId): Shared { this.(conns := conns - {c}) }
    function WithListener(h: bool): Shared { this.(held := h) }
  }

  class NetConn {
    const id: ConnId
    var open: bool

    constructor (id: ConnId)
      ensures this.id == id && open
    {
      this.id := id;
      open := true;
    }

    method Close()
      modifies this
      ensures !open
    {
      open := false;
    }
  }

  class Proxy {
    var engine: Engine
    var scenario: Text
    var conns: set<NetConn>
    var listener: bool

    constructor ()
      ensures View() == Shared(PassThrough, {}, false) && scenario == Ascii("baseline") && conns == {}
    {
      engine := PassThrough;
      scenario := Ascii("baseline");
      conns := {};
      listener := false;
    }

    ghost function View(): Shared
      reads this
    {
      Shared(engine, set c | c in conns :: c.id, listener)
    }

    /** Connections are told apart by their ids. */
    ghost predicate DistinctIds(c: NetConn)
      reads this
    {
      forall d | d in conns && d.id == c.id :: d == c
    }

    /** No engine means no fault. */
    method SetEngine(e: Option<Engine>)
      modifies this
      ensures View() == old(View()).WithEngine(if e.Some? then e.value else PassThrough)
      ensures conns == old(conns) && scenario == old(scenario)
    {
      engine := if e.Some? then e.value else PassThrough;
    }

    /** The lock section of `Start`. */
    method StoreListener()
      modifies this
      ensures View() == old(View()).WithListener(true) && conns == old(conns) && scenario == old(scenario)
    {
      listener := true;
    }

    /** The lock section of `Shutdown`: whoever comes first takes listener and cancel. */
    method TakeListener() returns (had: bool)
      modifies this
      ensures had == old(View()).held
      ensures View() == old(View()).WithListener(false) && conns == old(conns) && scenario == old(scenario)
    {
      had := listener;
      listener := false;
    }

    method SetScenario(name: Text)
      modifies this
      ensures scenario == name && View() == old(View()) && conns == old(conns)
    {
      scenario := name;
    }

    method CurrentEngine() returns (e: Engine)
      ensures e == View().engine
    {
      e := engine;
    }

    method RegisterConn(c: NetConn)
      modifies this
      ensures View() == old(View()).WithConn(c.id) && conns == old(conns) + {c} && scenario == old(scenario)
    {
      conns := conns + {c};
      assert View().conns == old(View()).conns + {c.id};
    }

    method UnregisterConn(c: NetConn)
      requires DistinctIds(c)
      modifies this
      ensures View() == old(View()).WithoutConn(c.id) && conns == old(conns) - {c} && scenario == old(scenario)
    {
      conns := conns - {c};
      assert View().conns == old(View()).conns - {c.id};
    }

    /** Takes a snapshot of the registered connections and closes each of them, registering and
        unregistering nothing. */
    method CloseAllConns()
      modifies conns
      ensures forall c | c in conns :: !c.open
      ensures View() == old(View())
    {
      var todo := conns;
      while todo != {}
        invariant todo <= conns && forall c | c in conns - todo :: !c.open
        decreases todo
      {
        var c :| c in todo;
        c.Close();
        todo := todo - {c};
      }
    }
  }
}
