/** The Assetic filter manager of the framework: filters registered as
    container services shadow the filters the underlying Assetic manager
    holds, and the names of both are listed together without duplicates.

    The underlying manager is the ordered table `filters` (what
    `Assetic\FilterManager::set` fills); the DI container is a map from
    service id to the filter it provides, passed to `get`. */
module AssetFilters {
  import opened Common
  import opened OrderedMap

  /** A filter object, by identity. */
  type Filter = nat

  class FilterManager {
    /** Filter name to service id, in registration order. */
    var filterIds: Assoc<string, string>
    /** The filters of the underlying Assetic manager, by alias. */
    var filters: Assoc<string, Filter>

    /** Both tables are PHP arrays: no key twice. */
    ghost predicate Valid()
      reads this
    {
      DistinctKeys(filterIds) && DistinctKeys(filters)
    }

    /** A manager with no registered services and no filters. */
    constructor ()
      ensures Valid() && filterIds == [] && filters == []
    {
      filterIds := [];
      filters := [];
    }

    /** `registerFilterService($serviceId, $filterName)`: only the entry of
        that filter name changes. */
    method RegisterFilterService(serviceId: string, filterName: string)
      requires Valid()
      modifies this`filterIds
      ensures Valid()
      ensures filterIds == Put(old(filterIds), filterName, serviceId)
      ensures Get(filterIds, filterName) == Some(serviceId)
      ensures forall n :: n != filterName ==> Get(filterIds, n) == Get(old(filterIds), n)
    {
      PutDistinct(filterIds, filterName, serviceId);
      GetPutSame(filterIds, filterName, serviceId);
      forall n | n != filterName ensures Get(Put(filterIds, filterName, serviceId), n) == Get(filterIds, n) {
        GetPutOther(filterIds, filterName, serviceId, n);
      }
      filterIds := Put(filterIds, filterName, serviceId);
    }

    /** `Assetic\FilterManager::set($alias, $filter)` of the underlying
        manager. */
    method Set(alias: string, filter: Filter)
      requires Valid()
      modifies this`filters
      ensures Valid()
      ensures filters == Put(old(filters), alias, filter)
    {
      PutDistinct(filters, alias, filter);
      filters := Put(filters, alias, filter);
    }

    /** `has($name)`. */
    predicate Has(name: string)
      reads this
    {
      name in Keys(filterIds) || name in Keys(filters)
    }

    /** `get($name)`: the container service registered for the name, which
        shadows a filter of the underlying manager; otherwise the underlying
        manager's filter, which raises for an unknown name. */
    function GetFilter(name: string, services: map<string, Filter>): (r: Result<Filter>)
      reads this
      ensures r != Err(InvalidArgument) <==> Has(name)
      ensures name in Keys(filterIds) ==> (r.Ok? <==> Get(filterIds, name).value in services)
      ensures name in Keys(filterIds) && r.Ok? ==> r.value == services[Get(filterIds, name).value]
      ensures name !in Keys(filterIds) ==> r == (if name in Keys(filters) then Ok(Get(filters, name).value) else Err(InvalidArgument))
    {
      match Get(filterIds, name)
      case Some(id) => if id in services then Ok(services[id]) else Err(MissingService)
      case None =>
        match Get(filters, name)
        case Some(f) => Ok(f)
        case None => Err(InvalidArgument)
    }

    /** `getNames()`. */
    function GetNames(): seq<string>
      reads this
    {
      Unique(Keys(filterIds) + Keys(filters))
    }
  }

  /** Keys of a PHP array are distinct as a list. */
  lemma KeysDistinct<K, V>(a: Assoc<K, V>)
    requires DistinctKeys(a)
    ensures Distinct(Keys(a))
  {
  }

  /** `getNames` lists the registered names first, in registration order,
      then the underlying manager's names they do not already cover; every
      name appears once, and exactly the names `has` accepts appear. */
  lemma GetNamesSpec(m: FilterManager)
    requires m.Valid()
    ensures m.GetNames() == Keys(m.filterIds) + Without(Keys(m.filters), Keys(m.filterIds))
    ensures Distinct(m.GetNames())
    ensures forall n :: n in m.GetNames() <==> m.Has(n)
  {
    KeysDistinct(m.filterIds);
    KeysDistinct(m.filters);
    UniqueAppend(Keys(m.filterIds), Keys(m.filters));
    UniqueOfDistinct(Keys(m.filters));
    UniqueSpec(Keys(m.filterIds) + Keys(m.filters));
  }

  /** With only `foo` registered as service `filter_foo`, `has('foo')` holds,
      `get('foo')` is that service and the names are `['foo']`. */
  lemma FooRegistered(m: FilterManager, services: map<string, Filter>)
    requires m.filterIds == [("foo", "filter_foo")] && m.filters == [] && "filter_foo" in services
    ensures m.Has("foo") && m.GetFilter("foo", services) == Ok(services["filter_foo"])
    ensures m.GetNames() == ["foo"]
  {
    assert Keys(m.filterIds) == ["foo"];
    assert Keys(m.filters) == [];
    assert IndexOf(m.filterIds, "foo") == Some(0);
    assert Keys(m.filterIds) + Keys(m.filters) == ["foo"];
    UniqueOfDistinct(["foo"]);
  }

  /** When `bar` is then set on the underlying manager, `get('bar')` is that
      filter and the names are `['foo', 'bar']`. */
  lemma BarSet(m: FilterManager, services: map<string, Filter>, bar: Filter)
    requires m.filterIds == [("foo", "filter_foo")] && m.filters == [("bar", bar)]
    ensures m.GetFilter("bar", services) == Ok(bar)
    ensures m.GetNames() == ["foo", "bar"]
  {
    assert "bar" != "foo" by {
      assert "bar"[0] != "foo"[0];
    }
    assert Keys(m.filterIds) == ["foo"];
    assert Keys(m.filters) == ["bar"];
    assert IndexOf(m.filterIds, "bar") == None;
    assert IndexOf(m.filters, "bar") == Some(0);
    var both := ["foo", "bar"];
    assert Keys(m.filterIds) + Keys(m.filters) == both;
    assert Distinct(both);
    UniqueOfDistinct(both);
  }

  /** The first half of the test below: service `filter_foo` registered
      as `foo` on an empty manager. */
  method RegisterFooOnEmpty(m: FilterManager, services: map<string, Filter>)
    returns (hadFoo: bool, hasFoo: bool, gotFoo: Result<Filter>, names: seq<string>)
    requires m.Valid() && m.filterIds == [] && m.filters == [] && "filter_foo" in services
    modifies m
    ensures m.Valid() && m.filterIds == [("foo", "filter_foo")] && m.filters == []
    ensures !hadFoo && hasFoo && gotFoo == Ok(services["filter_foo"]) && names == ["foo"]
  {
    hadFoo := m.Has("foo");
    m.RegisterFilterService("filter_foo", "foo");
    assert m.filterIds == [("foo", "filter_foo")];
    FooRegistered(m, services);
    hasFoo := m.Has("foo");
    gotFoo := m.GetFilter("foo", services);
    names := m.GetNames();
  }

  /** The second half of the test below: `bar` set on the underlying
      manager of a manager that has only `foo` registered. */
  method SetBarAfterFoo(m: FilterManager, services: map<string, Filter>, bar: Filter)
    returns (gotBar: Result<Filter>, names: seq<string>)
    requires m.Valid() && m.filterIds == [("foo", "filter_foo")] && m.filters == []
    modifies m
    ensures gotBar == Ok(bar) && names == ["foo", "bar"]
  {
    m.Set("bar", bar);
    assert m.filters == [("bar", bar)];
    BarSet(m, services, bar);
    gotBar := m.GetFilter("bar", services);
    names := m.GetNames();
  }

  /** The test of a registered service: `has('foo')` is false at first;
      after registering service `filter_foo` as `foo` it is true, `get`
      returns that service and the names are `['foo']`; after setting `bar`
      on the underlying manager `get('bar')` returns it and the names are
      `['foo', 'bar']`. */
  method ProvidesRegisteredService(foo: Filter, bar: Filter)
    returns (hadFoo: bool, hasFoo: bool, gotFoo: Result<Filter>, names1: seq<string>, gotBar: Result<Filter>, names2: seq<string>)
    ensures !hadFoo && hasFoo
    ensures gotFoo == Ok(foo) && names1 == ["foo"]
    ensures gotBar == Ok(bar) && names2 == ["foo", "bar"]
  {
    var services := map["filter_foo" := foo];
    var m := new FilterManager();
    hadFoo, hasFoo, gotFoo, names1 := RegisterFooOnEmpty(m, services);
    gotBar, names2 := SetBarAfterFoo(m, services, bar);
  }
}
