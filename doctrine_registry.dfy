/** The Doctrine registry: configured connections, entity managers and
    audit managers by name, each backed by a service of the DI container.

    A service is identified by its id and by how often the container has
    dropped its instance: `removeService` makes the next `getService` build
    a new one. Entity managers are represented by the data the registry asks
    of them: the namespace aliases of their configuration. `class_exists`
    is a fixed predicate on class names. */
module DoctrineRegistry {
  import opened Common
  import opened OrderedMap

  /** A service instance: its id and the instance generation. */
  datatype Service = Service(id: string, generation: nat)

  /** What is asked for by entity name: a PHP class name, or an object whose
      class `get_class` reads. */
  datatype EntityArg = ClassName(name: string) | Instance(cls: string)

  /** `is_object($e) ? get_class($e) : $e`. */
  function ClassOf(e: EntityArg): string
  {
    match e
    case ClassName(n) => n
    case Instance(c) => c
  }

  /** The repository (DAO) an entity manager gives for a class. */
  datatype Dao = Dao(em: Service, entity: string)

  /** The class metadata an entity manager gives for a class. */
  datatype ClassMetadata = ClassMetadata(em: Service, entity: string)

  /** The audit reader an audit manager gives for a class. */
  datatype AuditReader = AuditReader(manager: Service, entity: string)

  /** `$name === NULL ? $default : $name`. */
  function NameOr(name: Option<string>, default: string): string
  {
    if name.Some? then name.value else default
  }

  /** The DI container: the service ids it can build and how often each
      instance was dropped. */
  class ServiceContainer {
    const known: set<string>
    var dropped: map<string, nat>

    constructor (known: set<string>)
      ensures this.known == known && dropped == map[]
    {
      this.known := known;
      dropped := map[];
    }

    /** How often the instance of `id` was dropped. */
    function Generation(id: string): nat
      reads this
    {
      if id in dropped then dropped[id] else 0
    }

    /** `getService($id)`: the current instance, or an exception for an id
        the container cannot build. */
    function GetService(id: string): (r: Result<Service>)
      reads this
      ensures r.Ok? <==> id in known
      ensures r.Ok? ==> r.value.id == id
    {
      if id in known then Ok(Service(id, Generation(id))) else Err(MissingService)
    }

    /** `removeService($id)`: the next `getService` builds a new instance;
        other services keep theirs. */
    method RemoveService(id: string)
      modifies this`dropped
      ensures Generation(id) == old(Generation(id)) + 1
      ensures forall other :: other != id ==> Generation(other) == old(Generation(other))
    {
      dropped := dropped[id := Generation(id) + 1];
    }
  }

  /** The registry over a container. */
  class Registry {
    const container: ServiceContainer
    const connections: Assoc<string, string>
    const entityManagers: Assoc<string, string>
    const auditManagers: Assoc<string, string>
    const defaultConnection: string
    const defaultEntityManager: string
    /** `class_exists`. */
    const classExists: string -> bool
    /** The namespace aliases configured for each entity manager service. */
    const namespaces: map<string, map<string, string>>

    constructor (container: ServiceContainer, connections: Assoc<string, string>, entityManagers: Assoc<string, string>,
                 defaultConnection: string, defaultEntityManager: string, auditManagers: Assoc<string, string>,
                 classExists: string -> bool, namespaces: map<string, map<string, string>>)
      ensures this.container == container && this.connections == connections
      ensures this.entityManagers == entityManagers && this.auditManagers == auditManagers
      ensures this.defaultConnection == defaultConnection && this.defaultEntityManager == defaultEntityManager
      ensures this.classExists == classExists && this.namespaces == namespaces
    {
      this.container := container;
      this.connections := connections;
      this.entityManagers := entityManagers;
      this.auditManagers := auditManagers;
      this.defaultConnection := defaultConnection;
      this.defaultEntityManager := defaultEntityManager;
      this.classExists := classExists;
      this.namespaces := namespaces;
    }

    /** `getDefaultConnectionName()`. */
    function GetDefaultConnectionName(): string
    {
      defaultConnection
    }

    /** `getDefaultEntityManagerName()`. */
    function GetDefaultEntityManagerName(): string
    {
      defaultEntityManager
    }

    /** `getConnectionNames()`: the configured name to service id map. */
    function GetConnectionNames(): Assoc<string, string>
    {
      connections
    }

    /** `getEntityManagerNames()`: the configured name to service id map. */
    function GetEntityManagerNames(): Assoc<string, string>
    {
      entityManagers
    }

    /** The service of a name in a name to id map, or the exception for a
        name it lacks, raised before the container is asked. */
    function Lookup(table: Assoc<string, string>, name: string): (r: Result<Service>)
      reads container
      ensures name !in Keys(table) ==> r == Err(InvalidArgument)
      ensures name in Keys(table) ==> r == container.GetService(Get(table, name).value)
    {
      match Get(table, name)
      case None => Err(InvalidArgument)
      case Some(id) => container.GetService(id)
    }

    /** `getConnection($name)`: `NULL` means the default connection. */
    function GetConnection(name: Option<string>): (r: Result<Service>)
      reads container
      ensures NameOr(name, defaultConnection) !in Keys(connections) ==> r == Err(InvalidArgument)
      ensures r.Ok? ==> r.value.id == Get(connections, NameOr(name, defaultConnection)).value
    {
      Lookup(connections, NameOr(name, defaultConnection))
    }

    /** `getEntityManager($name)`: `NULL` means the default entity manager. */
    function GetEntityManager(name: Option<string>): (r: Result<Service>)
      reads container
      ensures NameOr(name, defaultEntityManager) !in Keys(entityManagers) ==> r == Err(InvalidArgument)
      ensures r.Ok? ==> r.value.id == Get(entityManagers, NameOr(name, defaultEntityManager)).value
    {
      Lookup(entityManagers, NameOr(name, defaultEntityManager))
    }

    /** `getAuditManager($name)`: `NULL` means the default ENTITY manager's
        name; there is no default of its own. */
    function GetAuditManager(name: Option<string>): (r: Result<Service>)
      reads container
      ensures NameOr(name, defaultEntityManager) !in Keys(auditManagers) ==> r == Err(InvalidArgument)
      ensures r.Ok? ==> r.value.id == Get(auditManagers, NameOr(name, defaultEntityManager)).value
    {
      Lookup(auditManagers, NameOr(name, defaultEntityManager))
    }

    /** Every configured id is one the container can build. */
    predicate AllKnown(table: Assoc<string, string>)
      reads container
    {
      forall i :: 0 <= i < |table| ==> table[i].1 in container.known
    }

    /** The current instance of each configured service, by name. */
    function Instances(table: Assoc<string, string>): (r: Assoc<string, Service>)
      reads container
      ensures |r| == |table|
      ensures forall i :: 0 <= i < |table| ==> r[i] == (table[i].0, Service(table[i].1, container.Generation(table[i].1)))
    {
      seq(|table|, i reads container requires 0 <= i < |table| => (table[i].0, Service(table[i].1, container.Generation(table[i].1))))
    }

    /** The loop of `getConnections`/`getEntityManagers`: every configured
        name with its service, in map order; the first id the container
        cannot build raises. */
    method ServicesOf(table: Assoc<string, string>) returns (r: Result<Assoc<string, Service>>)
      requires DistinctKeys(table)
      ensures r.Ok? <==> AllKnown(table)
      ensures r.Ok? ==> r.value == Instances(table)
      ensures r.Err? ==> r.error == MissingService
    {
      var built: Assoc<string, Service> := [];
      for i := 0 to |table|
        invariant forall j :: 0 <= j < i ==> table[j].1 in container.known
        invariant built == Instances(table)[..i]
      {
        var s := container.GetService(table[i].1);
        if s.Err? {
          assert !AllKnown(table);
          return Err(s.error);
        }
        assert table[i].0 !in Keys(built) by {
          forall j | 0 <= j < i ensures Keys(built)[j] != table[i].0 {
            assert Keys(built)[j] == built[j].0 == table[j].0;
          }
        }
        PutNew(built, table[i].0, s.value);
        built := Put(built, table[i].0, s.value);
      }
      r := Ok(built);
    }

    /** `getConnections()`: each configured connection name with its service,
        with exactly the configured names as keys. */
    method GetConnections() returns (r: Result<Assoc<string, Service>>)
      requires DistinctKeys(connections)
      ensures r.Ok? <==> AllKnown(connections)
      ensures r.Ok? ==> r.value == Instances(connections) && Keys(r.value) == Keys(connections)
      ensures r.Err? ==> r.error == MissingService
    {
      r := ServicesOf(connections);
      if r.Ok? {
        InstancesKeys(this, connections);
      }
    }

    /** `getEntityManagers()`: each configured entity manager name with its
        service, with exactly the configured names as keys. */
    method GetEntityManagers() returns (r: Result<Assoc<string, Service>>)
      requires DistinctKeys(entityManagers)
      ensures r.Ok? <==> AllKnown(entityManagers)
      ensures r.Ok? ==> r.value == Instances(entityManagers) && Keys(r.value) == Keys(entityManagers)
      ensures r.Err? ==> r.error == MissingService
    {
      r := ServicesOf(entityManagers);
      if r.Ok? {
        InstancesKeys(this, entityManagers);
      }
    }

    /** `resetEntityManager($name)`: drops the current instance of the named
        (or default) entity manager, so the next lookup builds a new one;
        an unknown name raises and drops nothing. */
    method ResetEntityManager(name: Option<string>) returns (err: Option<Error>)
      modifies container`dropped
      ensures NameOr(name, defaultEntityManager) !in Keys(entityManagers) ==>
        err == Some(InvalidArgument) && container.dropped == old(container.dropped)
      ensures NameOr(name, defaultEntityManager) in Keys(entityManagers) ==>
        var id := Get(entityManagers, NameOr(name, defaultEntityManager)).value;
        err.None? && container.Generation(id) == old(container.Generation(id)) + 1 &&
        forall other :: other != id ==> container.Generation(other) == old(container.Generation(other))
    {
      var n := NameOr(name, defaultEntityManager);
      match Get(entityManagers, n)
      case None =>
        err := Some(InvalidArgument);
      case Some(id) =>
        container.RemoveService(id);
        err := None;
    }

    /** The namespace an entity manager's configuration gives for an alias. */
    function NamespaceIn(em: Service, alias: string): Option<string>
    {
      if em.id in namespaces && alias in namespaces[em.id] then Some(namespaces[em.id][alias]) else None
    }

    /** The first entity manager, in map order, that resolves the alias. */
    function FirstNamespace(ems: Assoc<string, Service>, alias: string): (r: Result<string>)
    {
      if ems == [] then Err(UnknownNamespace)
      else match NamespaceIn(ems[0].1, alias)
        case Some(ns) => Ok(ns)
        case None => FirstNamespace(ems[1..], alias)
    }

    /** `getEntityNamespace($alias)`: asks each entity manager in turn,
        ignoring the ones that fail, and raises only when all fail; a
        manager the container cannot build raises first. */
    method GetEntityNamespace(alias: string) returns (r: Result<string>)
      requires DistinctKeys(entityManagers)
      ensures AllKnown(entityManagers) ==> r == FirstNamespace(Instances(entityManagers), alias)
      ensures !AllKnown(entityManagers) ==> r == Err(MissingService)
    {
      var ems := GetEntityManagers();
      if ems.Err? {
        return Err(ems.error);
      }
      var list := ems.value;
      var i := 0;
      while i < |list|
        invariant 0 <= i <= |list|
        invariant FirstNamespace(list, alias) == FirstNamespace(list[i..], alias)
      {
        match NamespaceIn(list[i].1, alias)
        case Some(ns) =>
          return Ok(ns);
        case None =>
          assert list[i..][1..] == list[i + 1..];
        i := i + 1;
      }
      r := Err(UnknownNamespace);
    }

    /** `getDao($entityName, $emName)`: a name that is not a class raises
        before any entity manager is asked. */
    function GetDao(entity: EntityArg, emName: Option<string>): (r: Result<Dao>)
      reads container
      ensures !classExists(ClassOf(entity)) ==> r == Err(InvalidArgument)
      ensures classExists(ClassOf(entity)) ==>
        (r.Ok? <==> GetEntityManager(emName).Ok?) &&
        (r.Ok? ==> r.value == Dao(GetEntityManager(emName).value, ClassOf(entity)))
    {
      if !classExists(ClassOf(entity)) then Err(InvalidArgument)
      else match GetEntityManager(emName)
        case Ok(em) => Ok(Dao(em, ClassOf(entity)))
        case Err(e) => Err(e)
    }

    /** `getRepository`: the same class check, then `getDao`. */
    function GetRepository(entity: EntityArg, emName: Option<string>): (r: Result<Dao>)
      reads container
      ensures !classExists(ClassOf(entity)) ==> r == Err(InvalidArgument)
      ensures r == GetDao(ClassName(ClassOf(entity)), emName)
    {
      if !classExists(ClassOf(entity)) then Err(InvalidArgument)
      else GetDao(ClassName(ClassOf(entity)), emName)
    }

    /** `getClassMetadata`: class check, then the entity manager's metadata. */
    function GetClassMetadata(entity: EntityArg, emName: Option<string>): (r: Result<ClassMetadata>)
      reads container
      ensures !classExists(ClassOf(entity)) ==> r == Err(InvalidArgument)
      ensures classExists(ClassOf(entity)) ==>
        (r.Ok? <==> GetEntityManager(emName).Ok?) &&
        (r.Ok? ==> r.value == ClassMetadata(GetEntityManager(emName).value, ClassOf(entity)))
    {
      if !classExists(ClassOf(entity)) then Err(InvalidArgument)
      else match GetEntityManager(emName)
        case Ok(em) => Ok(ClassMetadata(em, ClassOf(entity)))
        case Err(e) => Err(e)
    }

    /** `getAuditReader`: class check, then the audit manager's reader. */
    function GetAuditReader(entity: EntityArg, emName: Option<string>): (r: Result<AuditReader>)
      reads container
      ensures !classExists(ClassOf(entity)) ==> r == Err(InvalidArgument)
      ensures classExists(ClassOf(entity)) ==>
        (r.Ok? <==> GetAuditManager(emName).Ok?) &&
        (r.Ok? ==> r.value == AuditReader(GetAuditManager(emName).value, ClassOf(entity)))
    {
      if !classExists(ClassOf(entity)) then Err(InvalidArgument)
      else match GetAuditManager(emName)
        case Ok(am) => Ok(AuditReader(am, ClassOf(entity)))
        case Err(e) => Err(e)
    }
  }

  /** The configured names are the keys of the services built for them. */
  lemma {:induction false} InstancesKeys(reg: Registry, table: Assoc<string, string>)
    ensures Keys(reg.Instances(table)) == Keys(table)
  {
    var r := reg.Instances(table);
    assert forall i :: 0 <= i < |table| ==> Keys(r)[i] == r[i].0 == table[i].0 == Keys(table)[i];
  }

  /** `NULL` names the default: the default connection for connections,
      the default entity manager for entity managers and, since the audit
      managers have no default of their own, for audit managers too. */
  lemma NullNamesDefault(reg: Registry)
    ensures reg.GetConnection(None) == reg.GetConnection(Some(reg.defaultConnection))
    ensures reg.GetEntityManager(None) == reg.GetEntityManager(Some(reg.defaultEntityManager))
    ensures reg.GetAuditManager(None) == reg.GetAuditManager(Some(reg.defaultEntityManager))
  {
  }

  /** `getEntityNamespace` returns the namespace of the first entity manager
      that knows the alias, and raises only when none does. */
  lemma {:induction false} FirstNamespaceSpec(reg: Registry, ems: Assoc<string, Service>, alias: string)
    ensures reg.FirstNamespace(ems, alias).Ok? ==>
      exists i :: 0 <= i < |ems| && reg.NamespaceIn(ems[i].1, alias) == Some(reg.FirstNamespace(ems, alias).value) &&
        forall j :: 0 <= j < i ==> reg.NamespaceIn(ems[j].1, alias).None?
    ensures reg.FirstNamespace(ems, alias).Err? <==> forall i :: 0 <= i < |ems| ==> reg.NamespaceIn(ems[i].1, alias).None?
    ensures reg.FirstNamespace(ems, alias).Err? ==> reg.FirstNamespace(ems, alias).error == UnknownNamespace
  {
    if ems != [] && reg.NamespaceIn(ems[0].1, alias).None? {
      FirstNamespaceSpec(reg, ems[1..], alias);
      var r := reg.FirstNamespace(ems, alias);
      if r.Ok? {
        var i :| 0 <= i < |ems[1..]| && reg.NamespaceIn(ems[1..][i].1, alias) == Some(r.value) &&
          forall j :: 0 <= j < i ==> reg.NamespaceIn(ems[1..][j].1, alias).None?;
        assert reg.NamespaceIn(ems[i + 1].1, alias) == Some(r.value);
        forall j | 0 <= j < i + 1 ensures reg.NamespaceIn(ems[j].1, alias).None? {
          if j > 0 {
            assert ems[j] == ems[1..][j - 1];
          }
        }
      } else {
        forall i | 0 <= i < |ems| ensures reg.NamespaceIn(ems[i].1, alias).None? {
          if i > 0 {
            assert ems[i] == ems[1..][i - 1];
          }
        }
      }
    }
  }
}
