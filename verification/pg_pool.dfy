/** The connection pool and its handles as objects, tied to the values of PoolState. */
module PgPool {
  import opened Common
  import opened PoolState

  datatype PoolConfig = PoolConfig(connectionString: string, minConnections: nat, maxConnections: nat)

  datatype PoolError = NoMinimum | MaximumBelowMinimum | NoConnectionString | CannotConnect

  /** What is wrong with a pool that cannot be opened; a good configuration leaves only the network. */
  function FirstProblem(config: PoolConfig): PoolError {
    if config.minConnections == 0 then NoMinimum
    else if config.maxConnections < config.minConnections then MaximumBelowMinimum
    else if config.connectionString == "" then NoConnectionString
    else CannotConnect
  }

  /** The database server's side: which connections exist and which of them are still open. */
  class Server {
    var made: nat
    var open: set<nat>

    constructor ()
      ensures made == 0 && open == {}
    {
      made, open := 0, {};
    }

    method MakeConnection(reachable: bool) returns (conn: Option<nat>)
      modifies this
      ensures conn == if reachable then Some(old(made)) else None
      ensures made == if reachable then old(made) + 1 else old(made)
      ensures open == if reachable then old(open) + {old(made)} else old(open)
    {
      if !reachable {
        return None;
      }
      conn := Some(made);
      open, made := open + {made}, made + 1;
    }
  }

  /** A handle: it owns a connection or is empty, and gives the connection back to its pool. */
  class PgConnection {
    var conn: Option<nat>
    var pool: PgPool?

    constructor (conn: Option<nat>, pool: PgPool?)
      ensures this.conn == conn && this.pool == pool
    {
      this.conn, this.pool := conn, pool;
    }

    /** Does this handle belong to pool p, and do both agree on what it holds? */
    ghost predicate Of(p: PgPool)
      reads this, p
    {
      && (conn.Some? <==> this in p.held)
      && (conn.Some? ==> pool == p && p.held[this] == conn.value)
    }

    /** The destructor; the move assignment begins with the same two lines. */
    method Destroy(ghost p: PgPool)
      requires Of(p)
      modifies this, p
      ensures p.Abs() == Drop(old(p.Abs()), this) && p.held == old(p.held) - {this}
      ensures conn.None? && pool == old(pool)
    {
      if conn.Some? && pool != null {
        p.held := p.held - {this};
        pool.ReturnConnection(conn.value);
        conn := None;
      }
    }

    /** Moves the other handle's fields into this one, which holds nothing. */
    method MoveFields(other: PgConnection, ghost p: PgPool)
      requires this != other && other.Of(p) && conn.None? && this !in p.held
      modifies this, other, p
      ensures p.Abs() == Move(old(p.Abs()), this, other) && Of(p) && other.Of(p)
    {
      conn, pool := other.conn, other.pool;
      if other.conn.Some? {
        p.held := (p.held - {other})[this := other.conn.value];
      }
      other.conn, other.pool := None, null;
    }

    /** The move constructor; the emptied handle forgets its pool too. */
    constructor MoveFrom(other: PgConnection, ghost p: PgPool)
      requires other.Of(p)
      modifies other, p
      ensures fresh(this)
      ensures p.Abs() == Move(old(p.Abs()), this, other) && Of(p) && other.Of(p)
    {
      conn, pool := None, null;
      new;
      MoveFields(other, p);
    }

    /** The move assignment. */
    method AssignFrom(other: PgConnection, ghost p: PgPool)
      requires Of(p) && other.Of(p)
      modifies this, other, p
      ensures p.Abs() == Assign(old(p.Abs()), this, other) && Of(p) && other.Of(p)
    {
      if this != other {
        Destroy(p);
        MoveFields(other, p);
      }
    }
  }

  class PgPool {
    const config: PoolConfig
    const server: Server
    var idle: seq<nat>
    var total: int
    ghost var held: map<PgConnection, nat>
    ghost var lent: multiset<nat>
    ghost var returned: multiset<nat>

    ghost function Abs(): Pool<PgConnection>
      reads this, server
    {
      Pool(config.maxConnections, idle, total, held, server.open, server.made, lent, returned)
    }

    constructor (config: PoolConfig, server: Server)
      ensures this.config == config && this.server == server
      ensures idle == [] && total == 0 && held == map[] && lent == multiset{} == returned
    {
      this.config, this.server := config, server;
      idle, total, held, lent, returned := [], 0, map[], multiset{}, multiset{};
    }

    /** Opens a pool with its first connections, or reports the first thing that is wrong. */
    static method Open(config: PoolConfig, net: seq<bool>) returns (r: Result<PgPool, PoolError>)
      ensures r.Ok? ==> fresh(r.value) && fresh(r.value.server) && r.value.config == config
      ensures r.Ok? ==> r.value.Abs() == Fresh(config.minConnections, config.maxConnections)
      ensures r.Ok? ==> |r.value.idle| == config.minConnections == r.value.total
                        && (forall c | c in r.value.idle :: c in r.value.server.open) && r.value.held == map[]
      ensures r.Ok? <==>
                && 1 <= config.minConnections <= config.maxConnections
                && config.connectionString != ""
                && forall k | 0 <= k < config.minConnections :: Connects(net, k)
      ensures r.Err? ==> r.error == FirstProblem(config)
      ensures config.minConnections == 0 ==> r == Err(NoMinimum)
      ensures 0 < config.minConnections && config.maxConnections < config.minConnections ==> r == Err(MaximumBelowMinimum)
      ensures 0 < config.minConnections <= config.maxConnections && config.connectionString == "" ==>
                r == Err(NoConnectionString)
    {
      if config.minConnections == 0 {
        return Err(NoMinimum);
      }
      if config.maxConnections < config.minConnections {
        return Err(MaximumBelowMinimum);
      }
      if config.connectionString == "" {
        return Err(NoConnectionString);
      }
      var server := new Server();
      var pool := new PgPool(config, server);
      for i := 0 to config.minConnections
        invariant pool.Abs() == Fresh(i, config.maxConnections)
        invariant forall k | 0 <= k < i :: Connects(net, k)
      {
        var conn := server.MakeConnection(Connects(net, i));
        if conn.None? {
          return Err(CannotConnect);
        }
        pool.idle, pool.total := pool.idle + [conn.value], pool.total + 1;
        assert FirstN(i + 1) == FirstN(i) + [i];
      }
      return Ok(pool);
    }

    method Hand(conn: nat) returns (handle: PgConnection)
      modifies this`held, this`lent
      ensures fresh(handle) && handle.conn == Some(conn) && handle.pool == this
      ensures held == old(held)[handle := conn] && lent == old(lent) + multiset{conn}
    {
      handle := new PgConnection(Some(conn), this);
      held, lent := held[handle := conn], lent + multiset{conn};
    }

    /** `acquire` up to the point where it returns, waits or fails to connect. `net` says which of its
        attempts to connect succeed. */
    method Acquire(net: seq<bool>) returns (out: Outcome, handle: PgConnection?)
      modifies this, server
      ensures handle == null ==> (Abs(), out) == Choose(old(Abs()), net, 0) && !out.Acquired?
      ensures handle != null ==>
                && fresh(handle) && handle.Of(this) && handle.conn.Some? && out == Acquired(handle.conn.value)
                && (Abs(), out) == PoolState.Acquire(old(Abs()), handle, net)
    {
      var k := 0;
      while true
        invariant Choose(Abs(), net, k) == Choose(old(Abs()), net, 0)
        decreases |idle|
      {
        if idle != [] {
          var conn := idle[0];
          idle := idle[1..];
          if conn !in server.open {
            var reconnected := server.MakeConnection(Connects(net, k));
            k := k + 1;
            if reconnected.None? {
              total := total - 1;
              continue;
            }
            conn := reconnected.value;
          }
          handle := Hand(conn);
          return Acquired(conn), handle;
        }
        if total < config.maxConnections {
          var conn := server.MakeConnection(Connects(net, k));
          if conn.None? {
            return Failed, null;
          }
          total := total + 1;
          handle := Hand(conn.value);
          return Acquired(conn.value), handle;
        }
        return MustWait, null;
      }
    }

    method ReturnConnection(conn: nat)
      modifies this
      ensures Abs() == Return(old(Abs()), conn)
    {
      if conn in server.open {
        idle := idle + [conn];
      } else {
        total := total - 1;
      }
      returned := returned + multiset{conn};
    }
  }
}
