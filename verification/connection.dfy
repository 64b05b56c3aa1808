/** The connection-pool configuration builder (app/persistence/connection.py), without the pool it builds. */
module Connection {
  import opened Wrappers
  import opened Seqs
  import opened Dicts

  /** A configuration value: the settings are either text or whole numbers. */
  datatype ConfigValue = Text(text: string) | Number(n: int)

  /** The keyword arguments the pool is built with, in insertion order. */
  type Config = Dict<string, ConfigValue>

  /** The seven settings a builder starts from. */
  function Defaults(): (d: Config)
    ensures Valid(d)
    ensures Keys(d) == ["pool_name", "pool_size", "host", "database", "user", "password", "port"]
  {
    var d := [
      ("pool_name", Text("my_pool")),
      ("pool_size", Number(5)),
      ("host", Text("localhost")),
      ("database", Text("db_1")),
      ("user", Text("user")),
      ("password", Text("user1234")),
      ("port", Number(3307))];
    assert Keys(d) == ["pool_name", "pool_size", "host", "database", "user", "password", "port"];
    d
  }

  /** The default of every setting. */
  lemma DefaultValues()
    ensures Get(Defaults(), "pool_name") == Some(Text("my_pool"))
    ensures Get(Defaults(), "pool_size") == Some(Number(5))
    ensures Get(Defaults(), "host") == Some(Text("localhost"))
    ensures Get(Defaults(), "database") == Some(Text("db_1"))
    ensures Get(Defaults(), "user") == Some(Text("user"))
    ensures Get(Defaults(), "password") == Some(Text("user1234"))
    ensures Get(Defaults(), "port") == Some(Number(3307))
  {
    var d := Defaults();
    assert d[0] == ("pool_name", Text("my_pool"));
    assert d[1] == ("pool_size", Number(5));
    assert d[2] == ("host", Text("localhost"));
    assert d[3] == ("database", Text("db_1"));
    assert d[4] == ("user", Text("user"));
    assert d[5] == ("password", Text("user1234"));
    assert d[6] == ("port", Number(3307));
  }

  /**
   * `defaults | params`: a supplied setting replaces the default of the same key, and every key
   * not supplied keeps its default.
   */
  lemma MergeOverrides(params: Config, k: string)
    requires Valid(params)
    ensures Get(PutAll(Defaults(), params), k) == if k in Keys(params) then Get(params, k) else Get(Defaults(), k)
  {
    LastValueOfValid(params, k);
  }

  /** The merged settings list the seven defaults first, then the new keys in the order supplied. */
  lemma MergeKeyOrder(params: Config)
    ensures Keys(PutAll(Defaults(), params))[..7] == Keys(Defaults())
    ensures forall k :: k in Keys(PutAll(Defaults(), params)) <==> k in Keys(Defaults()) || k in Keys(params)
  {
  }

  /** The builder: a configuration its setters change in place. */
  class ConnectionPoolBuilder {
    var poolConfig: Config

    /** The configuration is a dict. */
    predicate Invariant()
      reads this
    {
      Valid(poolConfig)
    }

    /** `MySQLConnectionPoolBuilder(params)`: the defaults, overridden by `params` when it is given and not empty. */
    constructor(params: Option<Config>)
      requires params.Some? ==> Valid(params.value)
      ensures Invariant()
      ensures poolConfig == PutAll(Defaults(), params.GetOr([]))
    {
      var overrides := if params.None? || params.value == [] then [] else params.value;
      poolConfig := PutAll(Defaults(), overrides);
    }

    /** `builder()`: a new builder holding exactly the defaults. */
    static method Builder() returns (b: ConnectionPoolBuilder)
      ensures fresh(b) && b.Invariant()
      ensures b.poolConfig == Defaults()
    {
      b := new ConnectionPoolBuilder(None);
    }

    /** `pool_size(n)`: sets `pool_size` and returns this builder. */
    method PoolSize(newPoolSize: int) returns (self: ConnectionPoolBuilder)
      requires Invariant()
      modifies this
      ensures self == this && Invariant()
      ensures poolConfig == Put(old(poolConfig), "pool_size", Number(newPoolSize))
    {
      poolConfig := Put(poolConfig, "pool_size", Number(newPoolSize));
      self := this;
    }

    /** `user(name)`: sets `user` and returns this builder. */
    method User(data: string) returns (self: ConnectionPoolBuilder)
      requires Invariant()
      modifies this
      ensures self == this && Invariant()
      ensures poolConfig == Put(old(poolConfig), "user", Text(data))
    {
      poolConfig := Put(poolConfig, "user", Text(data));
      self := this;
    }

    /** `password(secret)`: sets `password` and returns this builder. */
    method Password(data: string) returns (self: ConnectionPoolBuilder)
      requires Invariant()
      modifies this
      ensures self == this && Invariant()
      ensures poolConfig == Put(old(poolConfig), "password", Text(data))
    {
      poolConfig := Put(poolConfig, "password", Text(data));
      self := this;
    }

    /** `database(name)`: sets `database` and returns this builder. */
    method Database(data: string) returns (self: ConnectionPoolBuilder)
      requires Invariant()
      modifies this
      ensures self == this && Invariant()
      ensures poolConfig == Put(old(poolConfig), "database", Text(data))
    {
      poolConfig := Put(poolConfig, "database", Text(data));
      self := this;
    }

    /** `port(number)`: sets `port` and returns this builder. */
    method Port(data: int) returns (self: ConnectionPoolBuilder)
      requires Invariant()
      modifies this
      ensures self == this && Invariant()
      ensures poolConfig == Put(old(poolConfig), "port", Number(data))
    {
      poolConfig := Put(poolConfig, "port", Number(data));
      self := this;
    }
  }

  /**
   * Setting a key leaves the other settings and the key order as they were, and a second
   * setting of the same key replaces the first.
   */
  lemma SetterUpdatesOneKey(d: Config, k: string, v: ConfigValue, w: ConfigValue)
    requires Valid(d) && k in Keys(d)
    ensures Keys(Put(d, k, v)) == Keys(d) && |Put(d, k, v)| == |d|
    ensures forall i :: 0 <= i < |d| && d[i].0 != k ==> Put(d, k, v)[i] == d[i]
    ensures Put(Put(d, k, v), k, w) == Put(d, k, w)
  {
    var r := Put(d, k, v);
    assert |Keys(r)| == |Keys(d)|;
    forall i | 0 <= i < |d| && d[i].0 != k ensures r[i] == d[i] {
      assert Keys(r)[i] == d[i].0;
      assert Get(r, d[i].0) == Get(d, d[i].0) == Some(d[i].1);
    }
    var r2, r3 := Put(r, k, w), Put(d, k, w);
    assert |Keys(r2)| == |Keys(r3)|;
    forall i | 0 <= i < |r2| ensures r2[i] == r3[i] {
      assert Keys(r2)[i] == Keys(r3)[i];
      var key := Keys(r2)[i];
      assert Get(r2, key) == Get(r3, key);
    }
  }

  /** The chained configuration of the builder test: each setter's value, and the defaults elsewhere. */
  method ChainedConfig() returns (config: Config)
    ensures Get(config, "port") == Some(Number(3308))
    ensures Get(config, "user") == Some(Text("admin"))
    ensures Get(config, "password") == Some(Text("pass"))
    ensures Get(config, "database") == Some(Text("db"))
    ensures Get(config, "pool_name") == Some(Text("my_pool"))
    ensures Get(config, "pool_size") == Some(Number(10))
    ensures Get(config, "host") == Some(Text("localhost"))
  {
    DefaultValues();
    var b := ConnectionPoolBuilder.Builder();
    b := b.PoolSize(10);
    ghost var c1 := b.poolConfig;
    assert Get(c1, "pool_size") == Some(Number(10));
    assert Get(c1, "pool_name") == Some(Text("my_pool")) && Get(c1, "host") == Some(Text("localhost"));
    b := b.Port(3308);
    ghost var c2 := b.poolConfig;
    assert c2 == Put(c1, "port", Number(3308));
    assert Get(c2, "pool_size") == Some(Number(10));
    assert Get(c2, "pool_name") == Some(Text("my_pool")) && Get(c2, "host") == Some(Text("localhost"));
    b := b.User("admin");
    ghost var c3 := b.poolConfig;
    assert c3 == Put(c2, "user", Text("admin"));
    assert Get(c3, "pool_size") == Some(Number(10)) && Get(c3, "port") == Some(Number(3308));
    assert Get(c3, "pool_name") == Some(Text("my_pool")) && Get(c3, "host") == Some(Text("localhost"));
    b := b.Password("pass");
    ghost var c4 := b.poolConfig;
    assert c4 == Put(c3, "password", Text("pass"));
    assert Get(c4, "pool_size") == Some(Number(10)) && Get(c4, "port") == Some(Number(3308));
    assert Get(c4, "user") == Some(Text("admin"));
    assert Get(c4, "pool_name") == Some(Text("my_pool")) && Get(c4, "host") == Some(Text("localhost"));
    b := b.Database("db");
    config := b.poolConfig;
    assert config == Put(c4, "database", Text("db"));
  }
}
