/** The registry used by the ORM tests: DAO and class-metadata mocks set by
    a test shadow what the entity managers would give.

    The mocks sit in two nested tables keyed by the entity-manager name as
    passed and by the lower-cased class name. A PHP array key `NULL` is the
    key "", so a mock set for the `NULL` name is found under "" and not
    under the default entity manager's name. */
module Sandbox {
  import opened Common
  import opened DoctrineRegistry

  /** The array key PHP uses for an entity-manager name: `NULL` becomes "". */
  function EmKey(emName: Option<string>): string
  {
    if emName.Some? then emName.value else ""
  }

  /** `isset($table[$em][$class])`, read as a lookup. */
  function Mock<T>(table: map<string, map<string, T>>, em: string, cls: string): Option<T>
  {
    if em in table && cls in table[em] then Some(table[em][cls]) else None
  }

  /** `$table[$em][$class] = $value`. */
  function Store<T>(table: map<string, map<string, T>>, em: string, cls: string, value: T): map<string, map<string, T>>
  {
    table[em := (if em in table then table[em] else map[])[cls := value]]
  }

  /** A stored mock reads back under the same keys, and storing leaves every
      other pair of keys as it was. */
  lemma MockStore<T>(table: map<string, map<string, T>>, em: string, cls: string, value: T, em2: string, cls2: string)
    ensures Mock(Store(table, em, cls, value), em2, cls2) ==
      if em2 == em && cls2 == cls then Some(value) else Mock(table, em2, cls2)
  {
  }

  class SandboxRegistry {
    /** The registry this one extends; its lookups are the fallback. */
    const base: Registry
    var daoMocks: map<string, map<string, Dao>>
    var metaMocks: map<string, map<string, ClassMetadata>>

    /** A sandbox over a registry, with no mocks. */
    constructor (base: Registry)
      ensures this.base == base && daoMocks == map[] && metaMocks == map[]
    {
      this.base := base;
      daoMocks := map[];
      metaMocks := map[];
    }

    /** `getDao`: the class check, then a DAO mock for the exact
        entity-manager key and lower-cased class, else the registry's DAO. */
    function GetDao(entity: EntityArg, emName: Option<string>): (r: Result<Dao>)
      reads this, base.container
      ensures !base.classExists(ClassOf(entity)) ==> r == Err(InvalidArgument)
      ensures base.classExists(ClassOf(entity)) && Mock(daoMocks, EmKey(emName), Lower(ClassOf(entity))).Some? ==>
        r == Ok(Mock(daoMocks, EmKey(emName), Lower(ClassOf(entity))).value)
      ensures Mock(daoMocks, EmKey(emName), Lower(ClassOf(entity))).None? ==> r == base.GetDao(entity, emName)
    {
      if !base.classExists(ClassOf(entity)) then Err(InvalidArgument)
      else match Mock(daoMocks, EmKey(emName), Lower(ClassOf(entity)))
        case Some(d) => Ok(d)
        case None => base.GetDao(entity, emName)
    }

    /** `getRepository`: the same table as `getDao`; the fallback is the
        registry's `getRepository`, whose `getDao` call reaches this class's
        `getDao` again and finds no mock there either. */
    function GetRepository(entity: EntityArg, emName: Option<string>): (r: Result<Dao>)
      reads this, base.container
      ensures r == GetDao(entity, emName)
    {
      if !base.classExists(ClassOf(entity)) then Err(InvalidArgument)
      else match Mock(daoMocks, EmKey(emName), Lower(ClassOf(entity)))
        case Some(d) => Ok(d)
        case None => GetDao(ClassName(ClassOf(entity)), emName)
    }

    /** `getClassMetadata`: the class check, then a metadata mock, else the
        entity manager's metadata. */
    function GetClassMetadata(entity: EntityArg, emName: Option<string>): (r: Result<ClassMetadata>)
      reads this, base.container
      ensures !base.classExists(ClassOf(entity)) ==> r == Err(InvalidArgument)
      ensures base.classExists(ClassOf(entity)) && Mock(metaMocks, EmKey(emName), Lower(ClassOf(entity))).Some? ==>
        r == Ok(Mock(metaMocks, EmKey(emName), Lower(ClassOf(entity))).value)
      ensures Mock(metaMocks, EmKey(emName), Lower(ClassOf(entity))).None? ==> r == base.GetClassMetadata(entity, emName)
    {
      if !base.classExists(ClassOf(entity)) then Err(InvalidArgument)
      else match Mock(metaMocks, EmKey(emName), Lower(ClassOf(entity)))
        case Some(m) => Ok(m)
        case None =>
          match base.GetEntityManager(emName)
          case Ok(em) => Ok(ClassMetadata(em, ClassOf(entity)))
          case Err(e) => Err(e)
    }

    /** `setDao`: rejects a non-class name before touching the table;
        otherwise stores the DAO and returns it. */
    method SetDao(entity: EntityArg, dao: Dao, emName: Option<string>) returns (r: Result<Dao>)
      modifies this`daoMocks
      ensures !base.classExists(ClassOf(entity)) ==> r == Err(InvalidArgument) && daoMocks == old(daoMocks)
      ensures base.classExists(ClassOf(entity)) ==>
        r == Ok(dao) && daoMocks == Store(old(daoMocks), EmKey(emName), Lower(ClassOf(entity)), dao)
    {
      if !base.classExists(ClassOf(entity)) {
        return Err(InvalidArgument);
      }
      daoMocks := Store(daoMocks, EmKey(emName), Lower(ClassOf(entity)), dao);
      r := Ok(dao);
    }

    /** `setRepository`: the same as `setDao`, on the same table. */
    method SetRepository(entity: EntityArg, dao: Dao, emName: Option<string>) returns (r: Result<Dao>)
      modifies this`daoMocks
      ensures !base.classExists(ClassOf(entity)) ==> r == Err(InvalidArgument) && daoMocks == old(daoMocks)
      ensures base.classExists(ClassOf(entity)) ==>
        r == Ok(dao) && daoMocks == Store(old(daoMocks), EmKey(emName), Lower(ClassOf(entity)), dao)
    {
      if !base.classExists(ClassOf(entity)) {
        return Err(InvalidArgument);
      }
      daoMocks := Store(daoMocks, EmKey(emName), Lower(ClassOf(entity)), dao);
      r := Ok(dao);
    }

    /** `setClassMetadata`: rejects a non-class name, else stores the mock
        and returns it. */
    method SetClassMetadata(entity: EntityArg, meta: ClassMetadata, emName: Option<string>) returns (r: Result<ClassMetadata>)
      modifies this`metaMocks
      ensures !base.classExists(ClassOf(entity)) ==> r == Err(InvalidArgument) && metaMocks == old(metaMocks)
      ensures base.classExists(ClassOf(entity)) ==>
        r == Ok(meta) && metaMocks == Store(old(metaMocks), EmKey(emName), Lower(ClassOf(entity)), meta)
    {
      if !base.classExists(ClassOf(entity)) {
        return Err(InvalidArgument);
      }
      metaMocks := Store(metaMocks, EmKey(emName), Lower(ClassOf(entity)), meta);
      r := Ok(meta);
    }
  }

  /** After `setDao(e, d, em)` (or `setRepository`), both `getDao(e2, em)`
      and `getRepository(e2, em)` return `d` whenever `e2` names the same
      class ignoring case, whatever the entity managers hold. */
  lemma SetThenGetDao(s: SandboxRegistry, table: map<string, map<string, Dao>>, e: EntityArg, dao: Dao, emName: Option<string>, e2: EntityArg)
    requires s.base.classExists(ClassOf(e2))
    requires s.daoMocks == Store(table, EmKey(emName), Lower(ClassOf(e)), dao)
    requires EqualsIgnoreCase(ClassOf(e), ClassOf(e2))
    ensures s.GetDao(e2, emName) == Ok(dao)
    ensures s.GetRepository(e2, emName) == Ok(dao)
  {
    EqualsIgnoreCaseLower(ClassOf(e), ClassOf(e2));
    MockStore(table, EmKey(emName), Lower(ClassOf(e)), dao, EmKey(emName), Lower(ClassOf(e2)));
  }

  /** A mock set for the `NULL` entity-manager name is not seen under the
      default entity manager's name (unless that name is ""), and is seen
      under the name "". */
  lemma NullKeyIsNotDefault(s: SandboxRegistry, table: map<string, map<string, Dao>>, e: EntityArg, dao: Dao)
    requires s.base.classExists(ClassOf(e))
    requires s.daoMocks == Store(table, EmKey(None), Lower(ClassOf(e)), dao)
    requires s.base.defaultEntityManager != "" && Mock(table, s.base.defaultEntityManager, Lower(ClassOf(e))).None?
    ensures s.GetDao(e, Some(s.base.defaultEntityManager)) == s.base.GetDao(e, Some(s.base.defaultEntityManager))
    ensures s.GetDao(e, Some("")) == Ok(dao)
  {
    MockStore(table, "", Lower(ClassOf(e)), dao, s.base.defaultEntityManager, Lower(ClassOf(e)));
    MockStore(table, "", Lower(ClassOf(e)), dao, "", Lower(ClassOf(e)));
  }

  /** After `setClassMetadata(e, m, em)`, `getClassMetadata(e2, em)` returns
      `m` whenever `e2` names the same class ignoring case. */
  lemma SetThenGetClassMetadata(s: SandboxRegistry, table: map<string, map<string, ClassMetadata>>, e: EntityArg, meta: ClassMetadata,
                                emName: Option<string>, e2: EntityArg)
    requires s.base.classExists(ClassOf(e2))
    requires s.metaMocks == Store(table, EmKey(emName), Lower(ClassOf(e)), meta)
    requires EqualsIgnoreCase(ClassOf(e), ClassOf(e2))
    ensures s.GetClassMetadata(e2, emName) == Ok(meta)
  {
    EqualsIgnoreCaseLower(ClassOf(e), ClassOf(e2));
    MockStore(table, EmKey(emName), Lower(ClassOf(e)), meta, EmKey(emName), Lower(ClassOf(e2)));
  }
}
