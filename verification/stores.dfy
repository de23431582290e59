/** Type-indexed stores: `TypeMap`, the per-request `State`, the cloneable
    configuration `Store` and the default `Configuration` record. A Rust type
    map is keyed by `TypeId`; here the key is an abstract type tag, and every
    operation names the tag of the type it is instantiated at. Because a
    value is stored under the tag of its own type, the downcasts in the
    source always succeed, and a lookup returns the stored value itself.
 */
module Stores {
  import opened Wrappers

  /** The identity of a Rust type (`TypeId::of::<T>()`). */
  type TypeTag = string

  // ---------------------------------------------------------------------------
  // src/typemap.rs

  type TypeMap<V> = map<TypeTag, V>

  /** `TypeMap::new`. */
  function NewTypeMap<V>(): TypeMap<V>
  {
    map[]
  }

  /** A new type map holds no value of any type. */
  lemma NewTypeMapEmpty<V>(t: TypeTag)
    ensures Get(NewTypeMap<V>(), t).None?
  {
  }

  /** `get::<T>()`. */
  function Get<V>(m: TypeMap<V>, t: TypeTag): (r: Option<V>)
  {
    if t in m then Some(m[t]) else None
  }

  /** `insert::<T>(v)`: returns the previous value of that type, if any. A
      later `get` of that type sees `v`; every other type is unaffected. */
  function Insert<V>(m: TypeMap<V>, t: TypeTag, v: V): (r: (TypeMap<V>, Option<V>))
    ensures r.1 == Get(m, t)
    ensures Get(r.0, t) == Some(v)
    ensures forall u :: u != t ==> Get(r.0, u) == Get(m, u)
  {
    (m[t := v], Get(m, t))
  }

  /** `get_mut::<T>()` followed by a change `f` made through the reference;
      nothing happens when no value of that type is stored. */
  function Update<V>(m: TypeMap<V>, t: TypeTag, f: V -> V): (r: TypeMap<V>)
    ensures Get(m, t).None? ==> Get(r, t).None?
    ensures Get(m, t).Some? ==> Get(r, t) == Some(f(Get(m, t).value))
    ensures forall u :: u != t ==> Get(r, u) == Get(m, u)
  {
    if t in m then m[t := f(m[t])] else m
  }

  /** `remove::<T>()`: returns the stored value, after which `get` of that
      type is `None`; other types are unaffected. */
  function Remove<V>(m: TypeMap<V>, t: TypeTag): (r: (TypeMap<V>, Option<V>))
    ensures r.1 == Get(m, t)
    ensures Get(r.0, t).None?
    ensures forall u :: u != t ==> Get(r.0, u) == Get(m, u)
  {
    (m - {t}, Get(m, t))
  }

  /** `clear`: no type has a value afterwards. */
  function Clear<V>(m: TypeMap<V>): (r: TypeMap<V>)
    ensures forall t :: Get(r, t).None?
  {
    map[]
  }

  /** Inserting a value and removing it again gives back the value and
      restores the map, when that type had no value before. */
  lemma InsertRemove<V>(m: TypeMap<V>, t: TypeTag, v: V)
    requires Get(m, t).None?
    ensures Remove(Insert(m, t, v).0, t) == (m, Some(v))
  {
    assert Insert(m, t, v).0 - {t} == m;
  }

  /** The examples of the source's documentation: inserting `5i32` and `4u8`
      returns nothing, inserting `9i32` then returns `5i32`; removing gives
      back the value and leaves nothing; `clear` empties the map. */
  lemma TypeMapExamples(i32: TypeTag, u8: TypeTag)
    requires i32 != u8
    ensures var (m1, p1) := Insert(NewTypeMap<int>(), i32, 5);
            var (m2, p2) := Insert(m1, u8, 4);
            var (m3, p3) := Insert(m2, i32, 9);
            var (m4, p4) := Remove(m3, i32);
      && p1 == None && p2 == None && p3 == Some(5)
      && p4 == Some(9) && Get(m4, i32) == None && Get(m4, u8) == Some(4)
      && Get(Clear(m3), i32) == None
  {
  }

  // ---------------------------------------------------------------------------
  // src/state.rs

  /** The application state plus the values local to one request. */
  datatype State<S, V> = State(server: S, local: TypeMap<V>)

  /** `State::new`: no local values. */
  function NewState<S, V>(server: S): State<S, V>
  {
    State(server, NewTypeMap())
  }

  /** A new state wraps the server state and holds no extension. */
  lemma NewStateEmpty<S, V>(server: S, t: TypeTag)
    ensures NewState<S, V>(server).server == server && !Contains(NewState<S, V>(server), t)
  {
  }

  /** `contains::<T>()`. */
  predicate Contains<S, V>(st: State<S, V>, t: TypeTag) {
    t in st.local
  }

  /** `get::<T>()`. */
  function StateGet<S, V>(st: State<S, V>, t: TypeTag): (r: Option<V>)
  {
    Get(st.local, t)
  }

  /** `contains` holds exactly when `get` finds a value. */
  lemma ContainsIffGet<S, V>(st: State<S, V>, t: TypeTag)
    ensures Contains(st, t) <==> StateGet(st, t).Some?
  {
  }

  /** `insert::<T>(v)`: the previous local value of that type is returned;
      the application state is untouched. */
  function StateInsert<S, V>(st: State<S, V>, t: TypeTag, v: V): (r: (State<S, V>, Option<V>))
    ensures r.0.server == st.server
    ensures r.1 == StateGet(st, t) && StateGet(r.0, t) == Some(v) && Contains(r.0, t)
    ensures forall u :: u != t ==> StateGet(r.0, u) == StateGet(st, u)
  {
    var (local, prev) := Insert(st.local, t, v);
    (st.(local := local), prev)
  }

  /** `get_mut::<T>()` with a change `f` made through the reference. */
  function StateUpdate<S, V>(st: State<S, V>, t: TypeTag, f: V -> V): (r: State<S, V>)
    ensures r.server == st.server
    ensures StateGet(st, t).Some? ==> StateGet(r, t) == Some(f(StateGet(st, t).value))
    ensures StateGet(st, t).None? ==> StateGet(r, t).None?
    ensures forall u :: u != t ==> StateGet(r, u) == StateGet(st, u)
  {
    st.(local := Update(st.local, t, f))
  }

  /** `remove::<T>()`. */
  function StateRemove<S, V>(st: State<S, V>, t: TypeTag): (r: (State<S, V>, Option<V>))
    ensures r.0.server == st.server
    ensures r.1 == StateGet(st, t) && !Contains(r.0, t)
    ensures forall u :: u != t ==> StateGet(r.0, u) == StateGet(st, u)
  {
    var (local, prev) := Remove(st.local, t);
    (st.(local := local), prev)
  }

  /** `clear`: every local value goes, the application state stays. */
  function StateClear<S, V>(st: State<S, V>): (r: State<S, V>)
    ensures r.server == st.server
    ensures forall t :: !Contains(r, t)
  {
    st.(local := Clear(st.local))
  }

  /** `Deref`: the application state. */
  function Deref<S, V>(st: State<S, V>): (s: S)
    ensures s == st.server
  {
    st.server
  }

  /** `DerefMut` with a change `f`: only the application state changes. */
  function DerefMut<S, V>(st: State<S, V>, f: S -> S): (r: State<S, V>)
    ensures r.server == f(st.server)
    ensures forall t :: StateGet(r, t) == StateGet(st, t)
  {
    st.(server := f(st.server))
  }

  /** The test of the source: two values of different types, read, removed
      and missing. */
  lemma StateExample<S>(server: S, i32: TypeTag, myType: TypeTag, boolean: TypeTag)
    requires i32 != myType && boolean != i32 && boolean != myType
    ensures var (s1, _) := StateInsert(NewState<S, int>(server), i32, 5);
            var (s2, _) := StateInsert(s1, myType, 10);
            var (s3, removed) := StateRemove(s2, i32);
      && StateGet(s2, i32) == Some(5)
      && removed == Some(5) && StateGet(s3, i32) == None
      && StateGet(s3, boolean) == None && StateGet(s3, myType) == Some(10)
      && Deref(s3) == server
  {
  }

  // ---------------------------------------------------------------------------
  // src/configuration/mod.rs and src/configuration.rs

  /** A configuration store (`Store` and the older `Configuration` map). A
      clone is a copy of the value, so writing to a clone cannot affect the
      original. */
  type Store<V> = TypeMap<V>

  /** `Store::new`. */
  function NewStore<V>(): Store<V>
  {
    map[]
  }

  /** A new configuration store holds nothing. */
  lemma NewStoreEmpty<V>(t: TypeTag)
    ensures Read(NewStore<V>(), t).None?
  {
  }

  /** `read::<T>()`. */
  function Read<V>(s: Store<V>, t: TypeTag): (r: Option<V>)
  {
    Get(s, t)
  }

  /** `write::<T>(v)`: a later read of that type returns `v`, overwriting an
      earlier write; other types keep their values. */
  function Write<V>(s: Store<V>, t: TypeTag, v: V): (r: Store<V>)
    ensures Read(r, t) == Some(v)
    ensures forall u :: u != t ==> Read(r, u) == Read(s, u)
  {
    Insert(s, t, v).0
  }

  /** The older `Configuration` (src/configuration.rs) is the same store
      without `merge`: a second write of a type replaces the first, so the
      store is as if only the second write had happened. */
  lemma WriteOverwrites<V>(s: Store<V>, t: TypeTag, v: V, w: V)
    ensures Write(Write(s, t, v), t, w) == Write(s, t, w)
    ensures Read(Write(Write(s, t, v), t, w), t) == Some(w)
  {
  }

  /** `merge(base)`: every type of either store has a value afterwards; where
      both have one, the receiver's wins. */
  function Merge<V>(s: Store<V>, base: Store<V>): (r: Store<V>)
    ensures forall t :: Read(r, t) == if Read(s, t).Some? then Read(s, t) else Read(base, t)
  {
    base + s
  }

  /** Merging is associative with the receiver on the outside winning, and
      merging a store into itself or with an empty base changes nothing. */
  lemma MergeLaws<V>(a: Store<V>, b: Store<V>, c: Store<V>)
    ensures Merge(Merge(a, b), c) == Merge(a, Merge(b, c))
    ensures Merge(a, a) == a && Merge(a, NewStore()) == a
  {
  }

  /** The tests of the source: reads of a fresh store are empty, writes are
      read back, a rewrite overwrites, and writes to a clone leave the
      original as it was. */
  lemma StoreExamples(usize: TypeTag, isize: TypeTag, u32: TypeTag)
    requires usize != isize && usize != u32 && isize != u32
    ensures Read(NewStore<int>(), usize) == None
    ensures var c := Write(Write(NewStore<int>(), usize, 42), isize, -3);
      Read(c, usize) == Some(42) && Read(c, isize) == Some(-3) && Read(Write(c, usize, 3), usize) == Some(3)
    ensures var original := Write(NewStore<int>(), usize, 42);
            var copy := Write(Write(original, usize, 3), u32, 4);
      Read(original, usize) == Some(42) && Read(original, u32) == None
      && Read(copy, usize) == Some(3) && Read(copy, u32) == Some(4)
  {
  }

  // ---------------------------------------------------------------------------
  // src/configuration/default_config.rs

  datatype Environment = Development | Staging | Production

  /** A port number (`u16`). */
  type Port = p: int | 0 <= p < 0x1_0000

  datatype Configuration = Configuration(env: Environment, address: string, port: Port)

  /** `Configuration::default`. */
  function DefaultConfiguration(): (c: Configuration)
    ensures c.env == Development && c.address == "127.0.0.1" && c.port == 8181
  {
    Configuration(Development, "127.0.0.1", 8181)
  }

  datatype ConfigurationBuilder = ConfigurationBuilder(env: Environment, address: string, port: Port)

  /** `ConfigurationBuilder::new` (and `Configuration::build`): the default
      values. */
  function NewBuilder(): (b: ConfigurationBuilder)
    ensures b.env == DefaultConfiguration().env
    ensures b.address == DefaultConfiguration().address
    ensures b.port == DefaultConfiguration().port
  {
    var d := DefaultConfiguration();
    ConfigurationBuilder(d.env, d.address, d.port)
  }

  function SetEnv(b: ConfigurationBuilder, env: Environment): (r: ConfigurationBuilder)
    ensures r.env == env && r.address == b.address && r.port == b.port
  {
    b.(env := env)
  }

  function SetAddress(b: ConfigurationBuilder, address: string): (r: ConfigurationBuilder)
    ensures r.address == address && r.env == b.env && r.port == b.port
  {
    b.(address := address)
  }

  function SetPort(b: ConfigurationBuilder, port: Port): (r: ConfigurationBuilder)
    ensures r.port == port && r.env == b.env && r.address == b.address
  {
    b.(port := port)
  }

  /** `finalize`: the default configuration with every field overwritten by
      the builder's. */
  function Finalize(b: ConfigurationBuilder): (c: Configuration)
  {
    var c := DefaultConfiguration();
    c.(port := b.port).(address := b.address).(env := b.env)
  }

  /** `finalize` yields exactly the builder's fields, so building without
      changes gives the default, and a setter shows up in the result in its
      own field only. */
  lemma FinalizeFields(b: ConfigurationBuilder, env: Environment, address: string, port: Port)
    ensures Finalize(b) == Configuration(b.env, b.address, b.port)
    ensures Finalize(NewBuilder()) == DefaultConfiguration()
    ensures Finalize(SetEnv(b, env)) == Finalize(b).(env := env)
    ensures Finalize(SetAddress(b, address)) == Finalize(b).(address := address)
    ensures Finalize(SetPort(b, port)) == Finalize(b).(port := port)
  {
  }
}
