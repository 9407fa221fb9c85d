# Kdyby framework core, modelled in Dafny

This project models the deterministic core of the Kdyby framework, a PHP
framework built on Nette and Doctrine. It covers these parts:

- **Entity form mapper** (`EntityMapping`, `FormBinding`). It binds Doctrine entities and collections to form containers. It copies field values into controls (`load`) and back (`save`), and fires the `onLoad`/`onSave` hooks. It loads the items of choice controls through stored closures. It also keeps control aliases and the class-metadata cache, and gives cardinality-checked accessors for related entities and collections.
- **Asset bookkeeping** (`Formulae`). This is the `FormulaeManager` of the Assetic extension:
  - it files registered assets under the presenter, component or required-by lists;
  - it merges the parts of a package into one collection;
  - it resolves required packages before the asset that needs them;
  - it records resolved assets per extension;
  - it ensures filters before it writes an asset that is not fresh.
- **Lookup tables with an overlay**:
  - the Assetic filter manager (`AssetFilters`);
  - the Doctrine registry, with its name defaults and class-name guards (`DoctrineRegistry`);
  - the sandbox registry of the ORM tests, whose mocks shadow the entity managers (`Sandbox`).
- **String and path helpers**:
  - the `Content-Type` charset pattern and the meta-tag rewrite of the cURL HTML response (`Html`);
  - the template candidate lists of package presenters (`Presenters`);
  - `baseUri`/`basePath`, flashes and template-class validation of the template factory (`Templates`);
  - the asset responder's path join (`Responder`);
  - a person's full name (`People`).
- **The identity info property bag** (`Users`). A declared property that is set wins over the entry of the same name in its `data` array for `__get`, `__set`, `__isset` and `__unset`. For an undeclared name the accessors' own `isset($this->{$name})` test re-enters `__isset`, so a set `data` entry makes them create a public property of that name, which then hides the entry; the model tracks those properties and keeps the evidently intended reading as a second definition (see "## Findings").

Two modules are shared:

- `Common` holds `Option`, `Result`, the exception kinds, and the PHP string primitives the code relies on: ASCII `strtolower`, `stripos`, one-character `trim`/`rtrim`, `array_unique`, and truthiness.
- `OrderedMap` models PHP keyed arrays, which remember insertion order, as sequences of pairs.

Objects are `nat` handles. Collaborators that are not part of this model become parameters of the model:

- the DI container;
- Doctrine's class metadata;
- `class_exists`;
- `Mixed::isSerializable`;
- the asset storage;
- which filter names the filter manager's `get` raises for (`filterError`);
- the DAO's `find`;
- the item closures' results.

The state the source updates in place becomes a `class` with those fields. This applies to the mapper's tables, the formulae manager's lists, the filter ids, the registries, the template factory, the identity info and the person. Each method is proved against a specification function, and the lemmas state the properties of those functions.

## Model

| member | source | states |
|---|---|---|
| EntityMapping.EntityMapper.constructor | libs/Kdyby/Doctrine/Forms/EntityMapper.php:60-65 | a new mapper has empty entity, collection, alias, mapper and metadata tables |
| EntityMapping.EntityMapper.Assign | libs/Kdyby/Doctrine/Forms/EntityMapper.php:77-80 | after `assign(e, c)` the component of `e` is `c` and `e` is bound; a rebound entity keeps its place and is not listed twice |
| EntityMapping.EntityMapper.AssignCollection | libs/Kdyby/Doctrine/Forms/EntityMapper.php:88-91 | the collection is bound to the container, and `getComponent` finds it unless it is also a bound entity |
| EntityMapping.EntityMapper.GetEntities | libs/Kdyby/Doctrine/Forms/EntityMapper.php:102-109 | the loop returns the bound entities in binding order |
| EntityMapping.EntityMapper.Component | libs/Kdyby/Doctrine/Forms/EntityMapper.php:117-127 | `getComponent` gives an entity's container first, then a collection's, and NULL for an object in neither table |
| EntityMapping.EntityMapper.GetMeta | libs/Kdyby/Doctrine/Forms/EntityMapper.php:341-349 | the class's metadata is returned and cached; the cache only ever holds the registry's own metadata |
| EntityMapping.EntityMapper.SetControlAlias | libs/Kdyby/Doctrine/Forms/EntityMapper.php:361-364 | the control now maps to the alias, and every other control keeps its field |
| EntityMapping.EntityMapper.GetControlField | libs/Kdyby/Doctrine/Forms/EntityMapper.php:372-376 | the field is the alias registered for that very control, else the control's name |
| EntityMapping.EntityMapper.GetControlMapper | libs/Kdyby/Doctrine/Forms/EntityMapper.php:442-449 | a control has a closure exactly when one was stored for it, and it is that closure |
| EntityMapping.EntityMapper.FindBoundTo | libs/Kdyby/Doctrine/Forms/EntityMapper.php:458-467 | the loop of `getControlEntityClass` finds the first bound entity whose container is the control's parent |
| EntityMapping.EntityMapper.ResolveMapper | libs/Kdyby/Doctrine/Forms/EntityMapper.php:404-433 | the checks of `setControlMapper` give the closure `MapperFor` describes, or its exception: no bound ancestor, an unknown target field, or an unusable items argument |
| EntityMapping.EntityMapper.SetControlMapper | libs/Kdyby/Doctrine/Forms/EntityMapper.php:404-433 | it stores exactly the closure `MapperFor` describes; on an exception it stores nothing |
| EntityMapping.EntityMapper.LoadControlItems | libs/Kdyby/Doctrine/Forms/EntityMapper.php:139-146 | the nested loops over the bound entities give the world `LoadItemsAll` describes |
| EntityMapping.EntityMapper.LoadEntityControlItems | libs/Kdyby/Doctrine/Forms/EntityMapper.php:141-145 | the loop over `$itemControls` for one entity computes `LoadEntityItems` |
| EntityMapping.EntityMapper.LoadContainerItems | libs/Kdyby/Doctrine/Forms/EntityMapper.php:154-161 | each direct child of the class that has a closure gets that closure's items |
| EntityMapping.EntityMapper.StageValues | libs/Kdyby/Doctrine/Forms/EntityMapper.php:172-177 | the staging loop builds the values array that `Stage` specifies |
| EntityMapping.EntityMapper.LoadEntity | libs/Kdyby/Doctrine/Forms/EntityMapper.php:169-182 | one entity is loaded as `LoadOne` describes |
| EntityMapping.EntityMapper.Load | libs/Kdyby/Doctrine/Forms/EntityMapper.php:167-183 | `load()` processes every bound entity in binding order, as `LoadAll` describes |
| EntityMapping.EntityMapper.WriteValues | libs/Kdyby/Doctrine/Forms/EntityMapper.php:202-210 | the write loop computes `Write`: control values whose field is mapped go into the entity's properties |
| EntityMapping.EntityMapper.SaveEntity | libs/Kdyby/Doctrine/Forms/EntityMapper.php:195-211 | one entity is saved as `SaveOne` describes: `onSave` fires, then the values are written |
| EntityMapping.EntityMapper.Save | libs/Kdyby/Doctrine/Forms/EntityMapper.php:193-212 | `save()` processes every bound entity in binding order, as `SaveAll` describes |
| EntityMapping.EntityMapper.GetRelated | libs/Kdyby/Doctrine/Forms/EntityMapper.php:226-241 | the method computes `Related`, whose properties are in `RelatedSpec` |
| EntityMapping.EntityMapper.GetCollection | libs/Kdyby/Doctrine/Forms/EntityMapper.php:251-264 | the method computes `CollectionOf`, whose properties are in `CollectionOfSpec` |
| EntityMapping.EntityMapper.ValuesIds | libs/Kdyby/Doctrine/Forms/EntityMapper.php:302-309 | the loop keeps exactly the identifier fields whose submitted value is not empty |
| EntityMapping.EntityMapper.GetCollectionEntry | libs/Kdyby/Doctrine/Forms/EntityMapper.php:284-293 | the method computes `CollectionEntry`: NULL without a non-empty id, else the found entity only when the collection holds it |
| FormBinding.Stage | libs/Kdyby/Doctrine/Forms/EntityMapper.php:172-177 | a field is staged iff it is a field of the class and some control maps to it, and its staged value is the entity's current value |
| FormBinding.SetValues | libs/Kdyby/Doctrine/Forms/EntityMapper.php:180 | Nette's `setValues` changes only the values of direct control children whose name is a key of the values, and gives them that value |
| FormBinding.LoadOneShape | libs/Kdyby/Doctrine/Forms/EntityMapper.php:169-182 | loading one entity changes no object, no structure and no items |
| FormBinding.LoadAllShape | libs/Kdyby/Doctrine/Forms/EntityMapper.php:167-183 | `load()` never modifies an entity, and changes only control values and hook logs |
| FormBinding.Submitted | libs/Kdyby/Doctrine/Forms/EntityMapper.php:199 | `getValues()` gives at most one pair per direct child, and exactly one when no control among them is disabled |
| FormBinding.SubmittedSpec | libs/Kdyby/Doctrine/Forms/EntityMapper.php:199 | `getValues()` holds exactly the name and value of each enabled direct control and the values array of each nested container; a disabled control's value is never among them |
| FormBinding.Write | libs/Kdyby/Doctrine/Forms/EntityMapper.php:202-210 | writing never removes a property |
| FormBinding.WriteSpec | libs/Kdyby/Doctrine/Forms/EntityMapper.php:202-210 | the written entity has exactly its old properties plus the mapped fields of enabled control children; a field no enabled control writes keeps its value, so a disabled control never writes; a written field holds the submitted value of an enabled control that maps to it |
| FormBinding.SaveAllFrame | libs/Kdyby/Doctrine/Forms/EntityMapper.php:193-212 | `save()` changes no control and no structure, and no object other than the bound entities |
| FormBinding.LoadShowsFields | libs/Kdyby/Doctrine/Forms/EntityMapper.php:167-183 | after `load`, an unaliased direct control of a mapped field shows the entity's value of that field |
| FormBinding.LoadThenSaveKeepsObjects | libs/Kdyby/Doctrine/Forms/EntityMapper.php:167-212 | loading into a plain container and saving it back leaves every object as it was |
| FormBinding.AliasedControlLosesValue | libs/Kdyby/Doctrine/Forms/EntityMapper.php:172-180 | an aliased control is staged under the field name but `setValues` looks it up by the control name, so a load then save writes NULL into the field |
| FormBinding.HooksFireOnce | libs/Kdyby/Doctrine/Forms/EntityMapper.php:178-199 | `load` appends exactly one `onLoad(values, entity)` event to the entity's container and `save` exactly one `onSave(values, container)`; other containers' logs are untouched |
| FormBinding.LoadKindItemsSpec | libs/Kdyby/Doctrine/Forms/EntityMapper.php:154-161 | loading one control class updates exactly the direct children of that class that have a closure |
| FormBinding.LoadEntityItemsSpec | libs/Kdyby/Doctrine/Forms/EntityMapper.php:141-145 | loading several control classes updates exactly the direct children of those classes that have a closure |
| FormBinding.EntityItemsFrame | libs/Kdyby/Doctrine/Forms/EntityMapper.php:139-161 | item loading changes only the `items` of controls; a control without a closure, or not of an item class, is untouched |
| FormBinding.LoadItemsAllFrame | libs/Kdyby/Doctrine/Forms/EntityMapper.php:139-146 | `loadControlItems()` changes no object and no container, and only the items of choice controls that have a closure |
| FormBinding.LoadItemsOneEntity | libs/Kdyby/Doctrine/Forms/EntityMapper.php:154-161 | for a bound entity, each of its choice controls with a closure gets exactly that closure's result; a field-name closure asks the target DAO for the pairs of that entity and the control's current field, and a callback closure calls the user callback with the DAO and key |
| FormBinding.IdentifierValuesRoundTrip | libs/Kdyby/Doctrine/Forms/EntityMapper.php:272-309 | submitting an entity's own identifier values as form values gives back those identifier values |
| FormBinding.CollectionEntry | libs/Kdyby/Doctrine/Forms/EntityMapper.php:284-309 | NULL when no identifier of the parent's class has a non-empty value; otherwise the found entity, returned exactly when the collection holds it |
| FormBinding.RelatedSpec | libs/Kdyby/Doctrine/Forms/EntityMapper.php:226-241 | a to-many association raises InvalidState and a non-association InvalidArgument; otherwise the entity already in the field is returned unchanged exactly when it is an `instanceof` the target class (the class itself, a subclass or a proxy), and else a new target entity with its defaults is stored on the parent; no other object changes |
| FormBinding.RelatedIdempotent | libs/Kdyby/Doctrine/Forms/EntityMapper.php:226-241 | asking for the same related entity again returns it and changes nothing |
| FormBinding.CollectionOfSpec | libs/Kdyby/Doctrine/Forms/EntityMapper.php:251-264 | it fails with InvalidState exactly when the field is not a to-many association; otherwise an existing collection is returned as it is, or a new empty one is stored on the parent |
| FormBinding.FirstBoundTo | libs/Kdyby/Doctrine/Forms/EntityMapper.php:460-464 | the first bound entity, in binding order, whose container is the given parent, or none |
| FormBinding.MapperForSpec | libs/Kdyby/Doctrine/Forms/EntityMapper.php:404-433 | `setControlMapper` succeeds iff the control's container has an entity, the control's field is an association, and the items are a callable or a field of the target class; otherwise InvalidArgument; the closure uses the target class's DAO and the given key |
| Formulae.FirstLeafFromSpec | libs/Kdyby/Extension/Assets/FormulaeManager.php:189-195 | iterating a collection reaches the first file of the first part that holds one, and reaches none when no part holds a file |
| Formulae.FirstSourceSpec | libs/Kdyby/Extension/Assets/FormulaeManager.php:189-198 | the source path `getAssetInfo` reports for a collection is that of its first part holding a file; parts without files, empty collections among them, are skipped |
| Formulae.ExtensionSpec | libs/Kdyby/Extension/Assets/FormulaeManager.php:135 | `pathinfo(..., PATHINFO_EXTENSION)` is what follows the last dot of the last path segment: a dot-free tail preceded by a dot when that segment has one, and empty when it has none |
| Formulae.RegisterOptionsSpec | libs/Kdyby/Extension/Assets/FormulaeManager.php:131-135 | a given `output` becomes the target path; `type` is the lower-cased extension of the resulting target; no other option changes |
| Formulae.AppendEachSpec | libs/Kdyby/Extension/Assets/FormulaeManager.php:137-140 | each listed package's list becomes its old list (empty when missing) followed by the name once per time the package is listed, and no other package's list changes |
| Formulae.AppendNameSpec | libs/Kdyby/Extension/Assets/FormulaeManager.php:147 | `$componentTypes[$type][] = $name` appends to a list, and fails only on a non-empty version string |
| Formulae.Parts | libs/Kdyby/Extension/Assets/FormulaeManager.php:264-277 | the parts are drawn from the list |
| Formulae.Others | libs/Kdyby/Extension/Assets/FormulaeManager.php:264-277 | what is left is drawn from the list |
| Formulae.PartsSpec | libs/Kdyby/Extension/Assets/FormulaeManager.php:264-277 | `findPackageParts` returns exactly the names of the same package and type and leaves exactly the others; nothing is lost or duplicated |
| Formulae.OverrideAllOutput | libs/Kdyby/Extension/Assets/FormulaeManager.php:236-239 | in a merged package the `output` of the last part that gives one wins, and the first asset's `output` stays when no part gives one |
| Formulae.AssetsOf | libs/Kdyby/Extension/Assets/FormulaeManager.php:237 | one asset per listed name |
| Formulae.MergeOne | libs/Kdyby/Extension/Assets/FormulaeManager.php:232-248 | one round never lengthens the remaining list |
| Formulae.MergeRestPassThrough | libs/Kdyby/Extension/Assets/FormulaeManager.php:228-253 | without packaged assets, every name passes through in order and the asset manager gets nothing new |
| Formulae.MergePassThrough | libs/Kdyby/Extension/Assets/FormulaeManager.php:228-253 | a non-empty list without packages is returned as it is; the empty list gives the single NULL that the do-while shifted |
| Formulae.MergeOneFolds | libs/Kdyby/Extension/Assets/FormulaeManager.php:233-244 | a packaged name becomes a new collection: the first asset, then its parts in list order, with the first asset's target path and the parts' options merged in; the parts leave the list |
| Formulae.MergeHead | libs/Kdyby/Extension/Assets/FormulaeManager.php:228-253 | the first merged name is the first listed name, or the collection made from its package |
| Formulae.MergeRestGrows | libs/Kdyby/Extension/Assets/FormulaeManager.php:244 | merging only adds rows to the asset manager |
| Formulae.PublishListSpec | libs/Kdyby/Extension/Assets/FormulaeManager.php:212-215 | `publish` visits each asset name of the flattened lists exactly once, presenter assets first |
| Formulae.EnsuredSpec | libs/Kdyby/Extension/Assets/FormulaeManager.php:314-321 | every plain filter is ensured; a `?` filter is ensured with the `?` stripped, and only in debug mode; nothing else is ensured |
| Formulae.ResolveEachStops | libs/Kdyby/Extension/Assets/FormulaeManager.php:217-219 | after an exception the rest of the list is not visited |
| Formulae.FirstFilterErrorSpec | libs/Kdyby/Extension/Assets/FormulaeManager.php:314-321 | ensuring a list of filters raises nothing exactly when the filter manager knows every name; otherwise it raises the exception of the first unknown name |
| Formulae.FilterErrorStays | libs/Kdyby/Extension/Assets/FormulaeManager.php:314-321 | once a filter fails, the filters after it do not change the exception raised |
| Formulae.RecordSpec | libs/Kdyby/Extension/Assets/FormulaeManager.php:297-323 | the asset is recorded in the table of its extension under its package name or source path, before any filter is fetched; earlier records stay; a fresh asset is not written and raises nothing; any other one raises the first filter exception, and is written once with the ensured filters exactly when there is none |
| Formulae.ResolveGrows | libs/Kdyby/Extension/Assets/FormulaeManager.php:285-324 | resolving never drops a resolved key |
| Formulae.ResolveEachGrows | libs/Kdyby/Extension/Assets/FormulaeManager.php:292-294 | resolving a list never drops a resolved key |
| Formulae.ResolveSpec | libs/Kdyby/Extension/Assets/FormulaeManager.php:285-323 | a name resolves without an exception only after its required packages were resolved without one, and the record step, which may itself raise a filter exception, starts from their result |
| Formulae.ResolveUnknown | libs/Kdyby/Extension/Assets/FormulaeManager.php:287-288 | a name the asset manager does not know raises, and nothing changes |
| Formulae.ResolveRecords | libs/Kdyby/Extension/Assets/FormulaeManager.php:297-306 | a name that resolves is recorded |
| Formulae.RecordedGrows | libs/Kdyby/Extension/Assets/FormulaeManager.php:285-324 | resolving never forgets a recorded name |
| Formulae.ResolveEachRecordsAll | libs/Kdyby/Extension/Assets/FormulaeManager.php:217-219 | every name of a list that resolves is recorded afterwards |
| Formulae.DependenciesFirst | libs/Kdyby/Extension/Assets/FormulaeManager.php:290-306 | required packages come before the asset that needs them in its extension's table |
| Formulae.FormulaeManager.constructor | libs/Kdyby/Extension/Assets/FormulaeManager.php:53-96 | the presenter, component and resolved tables start with empty `css` and `js` entries; no repository; debug off |
| Formulae.FormulaeManager.SetJavascriptProvider | libs/Kdyby/Extension/Assets/FormulaeManager.php:103-106 | a repository is present from then on |
| Formulae.FormulaeManager.SetDebug | libs/Kdyby/Extension/Assets/FormulaeManager.php:113-116 | the debug flag is the given one |
| Formulae.FormulaeManager.Register | libs/Kdyby/Extension/Assets/FormulaeManager.php:129-152 | the asset is added with its options; with `requiredBy` the name goes to each listed package and to no type list; otherwise to the presenter list iff the component is a presenter, else to the component list |
| Formulae.FormulaeManager.FileUnderPackages | libs/Kdyby/Extension/Assets/FormulaeManager.php:138-140 | the loop appends the name under each listed package |
| Formulae.FormulaeManager.RequireAsset | libs/Kdyby/Extension/Assets/FormulaeManager.php:162-169 | without a repository it raises MissingService and changes nothing; otherwise the version is stored under the name |
| Formulae.FormulaeManager.GetAssets | libs/Kdyby/Extension/Assets/FormulaeManager.php:177-180 | a table is returned iff the extension has one |
| Formulae.FormulaeManager.GetAssetInfo | libs/Kdyby/Extension/Assets/FormulaeManager.php:188-203 | an unknown name raises; a known one gives its storage URL and its options |
| Formulae.FormulaeManager.FindPackageParts | libs/Kdyby/Extension/Assets/FormulaeManager.php:264-277 | the loop returns `Parts` and leaves `Others` in the list |
| Formulae.FormulaeManager.MergeName | libs/Kdyby/Extension/Assets/FormulaeManager.php:232-248 | one round of `mergeIntoPackages` computes `MergeOne` |
| Formulae.FormulaeManager.MergeIntoPackages | libs/Kdyby/Extension/Assets/FormulaeManager.php:228-253 | the do-while computes `Merge` |
| Formulae.FormulaeManager.EnsureFilters | libs/Kdyby/Extension/Assets/FormulaeManager.php:314-321 | the filter loop stops at the first filter `get` raises for, with that exception; without one it ensures `Ensured(filters, debug)` |
| Formulae.FormulaeManager.RecordResolved | libs/Kdyby/Extension/Assets/FormulaeManager.php:297-323 | the record, filter and write step computes `Record`, exception included |
| Formulae.FormulaeManager.PublishAndResolve | libs/Kdyby/Extension/Assets/FormulaeManager.php:285-324 | the recursion computes `Resolve` |
| Formulae.FormulaeManager.ResolveList | libs/Kdyby/Extension/Assets/FormulaeManager.php:292-294 | each name is resolved in turn, as `ResolveEach` describes |
| Formulae.FormulaeManager.Publish | libs/Kdyby/Extension/Assets/FormulaeManager.php:210-220 | `publish` merges the de-duplicated flattened lists and resolves each merged name, stopping at the first exception, an unknown filter's among them |
| AssetFilters.FilterManager.constructor | libs/Kdyby/Assets/FilterManager.php:37-40 | a new manager has no registered services |
| AssetFilters.FilterManager.RegisterFilterService | libs/Kdyby/Assets/FilterManager.php:48-51 | the filter name now maps to the service, and no other name's entry changes |
| AssetFilters.FilterManager.GetFilter | libs/Kdyby/Assets/FilterManager.php:59-66 | a registered service shadows the parent's filter; an unregistered name goes to the parent, which raises for an unknown name; `get` raises InvalidArgument iff `has` is false |
| AssetFilters.GetNamesSpec | libs/Kdyby/Assets/FilterManager.php:74-87 | registered names come first, then the parent's names they do not cover; each appears once; exactly the names `has` accepts appear |
| AssetFilters.ProvidesRegisteredService | tests/Kdyby/Tests/Assets/FilterManagerTest.php:43-58 | the test's sequence gives `has` false then true, `get` the service, and the names `['foo']` then `['foo', 'bar']` |
| DoctrineRegistry.ServiceContainer.GetService | libs/Kdyby/Doctrine/Registry.php:100 | an id the container knows gives its service, and any other id raises |
| DoctrineRegistry.ServiceContainer.RemoveService | libs/Kdyby/Doctrine/Registry.php:214 | the dropped service gets a new instance next time, and the others keep theirs |
| DoctrineRegistry.Registry.constructor | libs/Kdyby/Doctrine/Registry.php:58-66 | the registry keeps the configured maps and defaults |
| DoctrineRegistry.Registry.Lookup | libs/Kdyby/Doctrine/Registry.php:96-100 | a name absent from the map raises InvalidArgument before the container is asked |
| DoctrineRegistry.Registry.GetConnection | libs/Kdyby/Doctrine/Registry.php:90-101 | NULL means the default connection; an unknown name raises InvalidArgument; otherwise the service of its id |
| DoctrineRegistry.Registry.GetEntityManager | libs/Kdyby/Doctrine/Registry.php:154-165 | NULL means the default entity manager; an unknown name raises InvalidArgument |
| DoctrineRegistry.Registry.GetAuditManager | libs/Kdyby/Doctrine/Registry.php:321-332 | NULL means the default entity manager's name; an unknown name raises InvalidArgument |
| DoctrineRegistry.Registry.ServicesOf | libs/Kdyby/Doctrine/Registry.php:112-117 | the loop succeeds iff the container knows every id, and then gives `Instances` |
| DoctrineRegistry.Registry.GetConnections | libs/Kdyby/Doctrine/Registry.php:110-118 | the result has exactly the configured connection names as keys; it fails, with MissingService, exactly when a configured service is missing |
| DoctrineRegistry.Registry.GetEntityManagers | libs/Kdyby/Doctrine/Registry.php:174-182 | the result has exactly the configured entity manager names as keys |
| DoctrineRegistry.Registry.ResetEntityManager | libs/Kdyby/Doctrine/Registry.php:202-215 | NULL means the default; an unknown name raises and drops nothing; otherwise only that manager's instance is dropped |
| DoctrineRegistry.Registry.GetEntityNamespace | libs/Kdyby/Doctrine/Registry.php:230-239 | the managers are asked in map order, as `FirstNamespace` describes |
| DoctrineRegistry.Registry.GetDao | libs/Kdyby/Doctrine/Registry.php:284-291 | a name that is not a class raises InvalidArgument before any entity manager is asked |
| DoctrineRegistry.Registry.GetRepository | libs/Kdyby/Doctrine/Registry.php:264-271 | the same class check, then `getDao` |
| DoctrineRegistry.Registry.GetClassMetadata | libs/Kdyby/Doctrine/Registry.php:304-311 | the class check, then the entity manager's metadata |
| DoctrineRegistry.Registry.GetAuditReader | libs/Kdyby/Doctrine/Registry.php:345-352 | the class check, then the audit manager's reader |
| DoctrineRegistry.InstancesKeys | libs/Kdyby/Doctrine/Registry.php:110-182 | the built maps have exactly the configured names as keys |
| DoctrineRegistry.NullNamesDefault | libs/Kdyby/Doctrine/Registry.php:92-94 | a NULL name behaves exactly like the default name, and for audit managers that default is the entity manager's |
| DoctrineRegistry.FirstNamespaceSpec | libs/Kdyby/Doctrine/Registry.php:230-239 | the namespace of the first manager that knows the alias; `unknownEntityNamespace` only when none does |
| Sandbox.MockStore | libs/Kdyby/Tests/ORM/SandboxRegistry.php:140-147 | a stored mock reads back under the same keys, and every other pair of keys is unchanged |
| Sandbox.SandboxRegistry.constructor | libs/Kdyby/Tests/ORM/SandboxRegistry.php:34-38 | a sandbox starts with no mocks |
| Sandbox.SandboxRegistry.GetDao | libs/Kdyby/Tests/ORM/SandboxRegistry.php:117-128 | the class check, then the mock for the exact EM key and lower-cased class, else the registry's DAO |
| Sandbox.SandboxRegistry.GetRepository | libs/Kdyby/Tests/ORM/SandboxRegistry.php:74-85 | it reads the same table as `getDao` and agrees with it |
| Sandbox.SandboxRegistry.GetClassMetadata | libs/Kdyby/Tests/ORM/SandboxRegistry.php:160-171 | the class check, then the metadata mock, else the entity manager's metadata |
| Sandbox.SandboxRegistry.SetDao | libs/Kdyby/Tests/ORM/SandboxRegistry.php:140-147 | a non-class name raises and changes nothing; otherwise the DAO is stored and returned |
| Sandbox.SandboxRegistry.SetRepository | libs/Kdyby/Tests/ORM/SandboxRegistry.php:97-104 | the same as `setDao`, on the same table |
| Sandbox.SandboxRegistry.SetClassMetadata | libs/Kdyby/Tests/ORM/SandboxRegistry.php:183-190 | a non-class name raises and changes nothing; otherwise the metadata is stored and returned |
| Sandbox.SetThenGetDao | libs/Kdyby/Tests/ORM/SandboxRegistry.php:74-147 | after `setDao`/`setRepository`, both `getDao` and `getRepository` return that DAO for any spelling of the class that differs only in case |
| Sandbox.NullKeyIsNotDefault | libs/Kdyby/Tests/ORM/SandboxRegistry.php:80-103 | a mock set for a NULL EM name is found under "" and not under the default entity manager's name |
| Sandbox.SetThenGetClassMetadata | libs/Kdyby/Tests/ORM/SandboxRegistry.php:160-190 | after `setClassMetadata`, `getClassMetadata` returns it for any spelling of the class that differs only in case |
| Html.CharsetFromContentType | libs/Kdyby/Curl/HtmlResponse.php:87-93 | this is the function the lemmas below state the charset extraction about |
| Html.FirstSemicolon | libs/Kdyby/Curl/HtmlResponse.php:26 | the type part ends at the first `;` |
| Html.ParamsOf | libs/Kdyby/Curl/HtmlResponse.php:26 | only tabs and spaces, then `charset=` in any case, may follow the `;` |
| Html.CharsetComplete | libs/Kdyby/Curl/HtmlResponse.php:26-93 | every value of the shape `type;<blanks>charset=value` yields `value` verbatim, even when it contains `;` |
| Html.CharsetSound | libs/Kdyby/Curl/HtmlResponse.php:26-93 | a charset is only ever read out of a value of that shape |
| Html.CharsetFinalNewline | libs/Kdyby/Curl/HtmlResponse.php:26 | a final newline does not change the charset, because `$` matches before it |
| Html.NoSemicolonNoCharset | libs/Kdyby/Curl/HtmlResponse.php:26-93 | a value without `;` gives NULL |
| Html.MetaAtSound | libs/Kdyby/Curl/HtmlResponse.php:108 | a match is a tag of the shape `<meta[^>]+Content-Type[^>]+>`, in any case |
| Html.MetaAtComplete | libs/Kdyby/Curl/HtmlResponse.php:108 | a tag of that shape is matched whole, neither shorter nor longer |
| Html.NoMetaUnchanged | libs/Kdyby/Curl/HtmlResponse.php:105-111 | a document without such a tag is unchanged |
| Html.TagReplaced | libs/Kdyby/Curl/HtmlResponse.php:105-111 | a matching tag is replaced by the fixed http-equiv tag with the given charset, and the rest is rewritten on its own |
| Html.MetaStartsWithLt | libs/Kdyby/Curl/HtmlResponse.php:108 | a match starts with `<` |
| Html.PlainPrefixKept | libs/Kdyby/Curl/HtmlResponse.php:105-111 | text before the first `<` is kept as it is |
| Presenters.IsInPackageSpec | libs/Kdyby/Application/UI/Presenter.php:180-184 | a class is in a package iff `Package\` occurs in its name and `Module\` does not, in any case |
| Presenters.ShortName | libs/Kdyby/Application/UI/Presenter.php:128 | the short name is the suffix after the last `:`, or the whole name when it has none |
| Presenters.FormatLayoutTemplateFiles | libs/Kdyby/Application/UI/Presenter.php:122-143 | outside a package, the parent's list is returned unchanged; in a package, exactly six paths |
| Presenters.FormatTemplateFiles | libs/Kdyby/Application/UI/Presenter.php:150-170 | outside a package, the parent's list is returned unchanged; in a package, exactly four paths |
| Presenters.CandidateInDirectory | libs/Kdyby/Application/UI/Presenter.php:131-137 | every candidate is a `.latte` file under its directory |
| Presenters.LayoutCandidatesSpec | libs/Kdyby/Application/UI/Presenter.php:131-142 | three layout files under the package's view directory, then the same three under the application's, each ending in the directory's `@layout` |
| Presenters.TemplateCandidatesSpec | libs/Kdyby/Application/UI/Presenter.php:159-169 | two view files under the package's view directory, then two under the application's |
| Templates.BaseUriSpec | Kdyby/Templates/TemplateFactory.php:99 | `baseUri` is the configured URI less exactly its trailing slashes |
| Templates.SchemeLength | Kdyby/Templates/TemplateFactory.php:100 | the anchored `https?://` is matched case-sensitively at the start, or not at all |
| Templates.BasePathPlain | Kdyby/Templates/TemplateFactory.php:100 | a URI that does not start with `http://` or `https://` is its own base path |
| Templates.BasePathStrips | Kdyby/Templates/TemplateFactory.php:100 | the scheme and the whole host, the longest run without `/`, are removed and nothing more |
| Templates.BasePathSound | Kdyby/Templates/TemplateFactory.php:100 | whatever is removed is a scheme and a host |
| Templates.TemplateFactory.constructor | Kdyby/Templates/TemplateFactory.php:20-35 | the configured URI is kept, the class is `Nette\Templates\FileTemplate`, and there is no translator |
| Templates.TemplateFactory.ValidateTemplateClass | Kdyby/Templates/TemplateFactory.php:129-141 | the class is accepted iff it exists and implements `ITemplate`; otherwise InvalidArgument |
| Templates.TemplateFactory.SetTemplateClass | Kdyby/Templates/TemplateFactory.php:42-45 | a rejected class leaves the stored one as it was |
| Templates.TemplateFactory.SetTranslator | Kdyby/Templates/TemplateFactory.php:62-65 | the translator is stored |
| Templates.TemplateFactory.CreateTemplate | Kdyby/Templates/TemplateFactory.php:84-121 | a truthy invalid class argument raises; a presenter with a flash session fails on the missing `getParamId`; otherwise the template has the chosen class, the component, the presenter, the trimmed `baseUri`, its `basePath`, the translator and empty flashes |
| Templates.SiteRootHasEmptyBasePath | Kdyby/Templates/TemplateFactory.php:99-100 | `https://host/` gives `baseUri` `https://host` and an empty `basePath` |
| Users.PutEntry | libs/Kdyby/Domain/Users/IdentityInfo.php:88 | writing an entry succeeds iff `data` is an array, NULL or "" |
| Users.RemoveEntry | libs/Kdyby/Domain/Users/IdentityInfo.php:117 | removing an entry succeeds iff `data` is an array or NULL |
| Users.PutEntrySpec | libs/Kdyby/Domain/Users/IdentityInfo.php:88 | a written entry reads back, and no other entry changes |
| Users.RemoveEntrySpec | libs/Kdyby/Domain/Users/IdentityInfo.php:117 | a removed entry reads as NULL, and no other entry changes |
| Users.IdentityInfo.constructor | libs/Kdyby/Domain/Users/IdentityInfo.php:31-38 | no identity, no phone, and an empty `data` array |
| Users.IdentityInfo.SetIdentity | libs/Kdyby/Domain/Users/IdentityInfo.php:47-55 | accepted only from the identity that owns this info; otherwise InvalidArgument, and the identity is unchanged |
| Users.IdentityInfo.Get | libs/Kdyby/Domain/Users/IdentityInfo.php:63-70 | a declared name gives its property when set and its `data` entry otherwise; a public property PHP created is read directly; any other name reads as NULL, and when it has a `data` entry a NULL public property is created as a side effect |
| Users.IdentityInfo.Set | libs/Kdyby/Domain/Users/IdentityInfo.php:78-89 | a created public property is written directly; otherwise a value that cannot be serialized raises NotImplemented before any change, a set declared property is overwritten, an undeclared name with a set `data` entry becomes a public property holding the value, and everything else goes into `data`; the value reads back except for an undeclared name written into `data`, which reads as NULL; other names are untouched |
| Users.IdentityInfo.Unset | libs/Kdyby/Domain/Users/IdentityInfo.php:111-118 | a created public property is removed; a set declared property becomes NULL, which lets the `data` entry show through; an undeclared name with a set `data` entry becomes a NULL public property, through `__set` and its serializability test; otherwise the `data` entry is removed; the name then reads as NULL unless a `data` entry shows through, and other names are untouched |
| Users.IsSetIffGetNotNull | libs/Kdyby/Domain/Users/IdentityInfo.php:63-104 | `isset` holds exactly when the read is not NULL, except for a name that is neither declared nor a created property but has a `data` entry |
| Users.UndeclaredReadsNull | libs/Kdyby/Domain/Users/IdentityInfo.php:63-104 | a name that is neither declared nor a created property reads as NULL whatever `data` holds, while `isset` answers from `data` |
| Users.NicknameReadsNull | libs/Kdyby/Domain/Users/IdentityInfo.php:63-89 | setting then reading an undeclared name on a new object gives NULL |
| Users.IntendedIsSetIffGetNotNull | libs/Kdyby/Domain/Users/IdentityInfo.php:63-104 | under the intended reading, `__isset` holds exactly when `__get` is not NULL |
| Users.IntendedUndeclaredReadsData | libs/Kdyby/Domain/Users/IdentityInfo.php:63-104 | under the intended reading, an undeclared name is served by `data` alone, so a value written there reads back |
| Users.PhoneGoesToData | libs/Kdyby/Domain/Users/IdentityInfo.php:84-88 | setting the NULL phone of a new object fills `data['phone']`, and the value reads back |
| People.Fullname | Data/Person.php:63-69 | the full name's length is the sum of its parts |
| People.LastnameEnds | Data/Person.php:68 | the last name always ends the full name, with no space after it |
| People.FalsyPartsVanish | Data/Person.php:65-67 | a falsy part (NULL, "", "0") contributes nothing, not even its space |
| People.OnlyLastname | Data/Person.php:63-69 | with only a last name, the full name is the last name |
| People.TruthyPartsInOrder | Data/Person.php:65-67 | each truthy part appears followed by one space, after the truthy parts before it |
| People.Person.constructor | Data/Person.php:29-45 | every field starts NULL |
| People.Person.SetSalutation | Data/Person.php:49 | only the salutation changes, and the getter returns it |
| People.Person.SetFirstname | Data/Person.php:52 | only the first name changes, and the getter returns it |
| People.Person.SetSecondname | Data/Person.php:55 | only the second name changes, and the getter returns it |
| People.Person.SetLastname | Data/Person.php:58 | only the last name changes, and the getter returns it |
| People.Person.SetAddress | Data/Person.php:61 | only the address changes, and the getter returns it |
| People.Person.GetFullname | Data/Person.php:63-69 | `getFullname()` is `Fullname` of the four fields |
| People.FullnameOfLastnameOnly | Data/Person.php:63-69 | a person with only a last name has that full name, even after a salutation "0" is set |
| Responder.AssetResponder.constructor | libs/Kdyby/Extension/Assets/Responder/AssetResponder.php:33-36 | the storage is the only state |
| Responder.AssetResponder.Invoke | libs/Kdyby/Extension/Assets/Responder/AssetResponder.php:46-49 | the response gets the constructor's storage and the joined path |
| Responder.AssetPathSpec | libs/Kdyby/Extension/Assets/Responder/AssetResponder.php:48 | the prefix and the name lose exactly their leading and trailing `/`, and exactly one `/` joins them |
| Responder.CleanPartsJoined | libs/Kdyby/Extension/Assets/Responder/AssetResponder.php:48 | parts without outer slashes are joined as they are, inner slashes included |
| Responder.CssExample | libs/Kdyby/Extension/Assets/Responder/AssetResponder.php:48 | `("/css/", "/a.css")` gives `css/a.css` |
| Common.IndexOfIgnoreCaseSpec | libs/Kdyby/Application/UI/Presenter.php:182-183 | `stripos` finds the first case-insensitive occurrence, and fails only when there is none |
| Common.ContainsIgnoreCaseIff | libs/Kdyby/Application/UI/Presenter.php:182-183 | `stripos(...) !== FALSE` holds iff there is an occurrence |
| Common.RTrimSpec | Kdyby/Templates/TemplateFactory.php:99 | `rtrim` removes exactly the trailing run of the character |
| Common.TrimSpec | libs/Kdyby/Extension/Assets/Responder/AssetResponder.php:48 | `trim` removes exactly the leading and the trailing run of the character |
| Common.TrimNoop | libs/Kdyby/Extension/Assets/Responder/AssetResponder.php:48 | `trim` leaves a string with no outer occurrence of the character as it is |
| Common.UniqueSpec | libs/Kdyby/Extension/Assets/FormulaeManager.php:212 | `array_unique` keeps exactly the values of its input, each once |
| Common.UniqueOfDistinct | libs/Kdyby/Assets/FilterManager.php:86 | a list without duplicates is its own `array_unique` |
| Common.UniqueAppend | libs/Kdyby/Assets/FilterManager.php:86 | `array_unique(array_merge(a, b))` is all of a duplicate-free `a`, then the new values of `b`, first occurrences only |
| Common.AfterLastSpec | libs/Kdyby/Application/UI/Presenter.php:128 | the part after the last `:` is a `:`-free suffix, preceded by `:` when the name has one |
| Common.EqualsIgnoreCaseLower | libs/Kdyby/Tests/ORM/SandboxRegistry.php:80 | two class names are equal ignoring case iff their `strtolower` forms are equal |
| OrderedMap.Get | libs/Kdyby/Assets/FilterManager.php:61 | `isset($a[$k])` fails exactly for a missing key, and otherwise the value is the key's entry |
| OrderedMap.Put | libs/Kdyby/Assets/FilterManager.php:50 | assigning an existing key keeps the keys in place; a new key goes last |
| OrderedMap.GetPutSame | libs/Kdyby/Assets/FilterManager.php:50 | after an assignment, the key reads back the new value |
| OrderedMap.GetPutOther | libs/Kdyby/Assets/FilterManager.php:50 | an assignment leaves every other key's value alone |
| OrderedMap.PutDistinct | libs/Kdyby/Assets/FilterManager.php:50 | an assignment keeps the keys distinct |
| OrderedMap.PutNew | libs/Kdyby/Extension/Assets/FormulaeManager.php:302-305 | a key the array lacks goes last |
| OrderedMap.PutKeepsPositions | libs/Kdyby/Extension/Assets/FormulaeManager.php:302-305 | an assignment never moves a key that was already there |

## Left out

- I/O, the network and the DOM:
  - `HtmlResponse::convertEncoding` and `getDocument` (iconv, cURL, DOM) are not part of this model;
  - the asset storage's writes are recorded as a log of written names and filters;
  - the contents of a written asset are not modelled.
- Html.CharsetFromContentType: a value with a newline anywhere other than at its very end is outside the stated lemmas. The function still follows PCRE there, where `.` stops at a newline.
- Html.FixContentTypeMeta: the replacement charset is inserted as plain text. PCRE would also interpret `$0` or `\1` inside it.
- `EntityMapper::registerAliasMethod` and `registerMapperMethod` are not part of this model. They add methods to Nette's control classes globally.
- EntityMapping: Nette and Doctrine are replaced by data:
  - Doctrine reflection becomes a `ClassSchema` per class;
  - Nette's component tree becomes a world of containers with their direct children and controls;
  - `instanceof` checks on control classes become an exact `ControlKind`;
  - the hook handlers are not run, so they cannot change the staged values, and each hook call is recorded as an event.
- EntityMapping.EntityMapper.Load: a bound entity that is missing from the world, has no schema or has no container is skipped by the model, where the source raises from Doctrine or Nette.
- EntityMapping.EntityMapper.Save: the same entities are skipped by the model, where the source raises.
- FormBinding.Submitted: submit buttons (Nette's `ISubmitterControl`, which `getValues()` also leaves out) are not among the modelled control kinds.
- FormBinding.RequestOf: a field-name closure is given the entity that the load loop is visiting. The source reads `$control->getParent()->getEntity()`, the container's own entity. The two differ only when two bound entities share one container.
- FormBinding.Related: a name that is neither a field nor an association gives InvalidArgument. The source fails earlier, inside Doctrine's `getFieldValue`, with a PHP error about the missing reflection field.
- FormBinding.SetValues: a sub-container is left untouched. Nette's `setValues` recurses into a sub-container whose name is a key of the values, and throws InvalidArgumentException when that entry is not an array.
- FormBinding.SetValues: the staged values (`Stage`) are a map without order. The source's `ArrayHash` is in control order, which only the `onLoad` handlers could observe, and those are not run.
- FormBinding.Blank: a constructor that creates new objects (a collection, say) is not modelled. The values `new` leaves are a per-class map of plain values or handles.
- EntityMapping.EntityMapper.SetControlMapper: the closures are stored as descriptions (DAO, field, key, callback). Their results come from a `fetch` parameter, because `ItemPairsQuery`/`fetchPairs` and user callbacks are not part of this model.
- The collection rows of `addMany`/`CollectionContainer` are not part of this model.
- Mapping/EntityFormMapper.php is not part of this model:
  - its `toEntity` is a stub;
  - its `toArray` uses names the class does not define.
- Formulae: the Assetic asset manager becomes a table whose k-th row is the asset named `k`, and the storage becomes two fixed functions, `url` and `isFresh`. Option keys other than `output`, `name`, `type` and `requiredBy` are not modelled, and a NULL option counts as a missing one.
- Formulae.Extension: `pathinfo` is modelled on the last `/`-separated segment. PHP's handling of trailing slashes and of `.` directories is not modelled.
- Formulae.PublishListSpec: PHP's `array_unique` compares loosely, so NULL and "" would count as one value. The model compares values exactly.
- Formulae.FormulaeManager.PublishAndResolve: the recursion has no cycle guard in the source. The model bounds it with `fuel` and reports `Diverges` when the fuel runs out. A cyclic `requiredBy` recurses forever in the source.
- Formulae.FormulaeManager.RequireAsset: a NULL version is stored as `Version(None)`. Appending a name to it afterwards makes a new list.
- AssetFilters: the alias check that Assetic's own `set` applies to names is not modelled.
- DoctrineRegistry.ServiceContainer.RemoveService: only its effect on the next `getService` is modelled, as a new instance generation.
- `Registry::getEntityManagerForClass` is not part of this model, because it depends on proxy reflection and metadata drivers.
- `SandboxRegistry::loadFixtures` is not part of this model, because fixture executors are external services.
- Presenters: `realpath`, `context->expand` and the parent presenter's lists are parameters.
- Presenters: `sendPayload`, component creation, requirement checks and startup are not part of this model.
- Templates: these parts of `createTemplate` are not part of this model:
  - helper and filter registration;
  - the Latte filter;
  - `user`, `baseTemplatesPath` (`APP_DIR`) and `themePath`.
- Templates.TemplateFactory.CreateTemplate: the flash-session branch calls `$this->getParamId`, which the factory does not define, so it is modelled as an `UndefinedMethod` error. The flashes it would read are not modelled.
- Templates: `getTranslator` is not modelled. The translator is the `translator` field.
- Users.IdentityInfo.Get: `__get` returns `$this->data[$name]` by reference, which creates a missing entry as NULL (and turns a NULL `data` into an array). The model leaves `data` as it is; the created entry reads exactly as a missing one.
- Users: PHP's notices and deprecation warnings for created public properties are not modelled.
- Users.PutEntry: `data` holding a number, an object or a non-empty string is reported as `InvalidState`. PHP would warn, or write a string offset.
- Users.RemoveEntry: `data` holding a non-array value other than NULL is reported as `InvalidState`.
- The `id` of the identified entities (`IdentifiedEntity`) is not part of this model.
- People.Person.SetAddress: the address is an object handle, and its class is not modelled.
- Responder.AssetResponder.Invoke: the response object is reduced to its storage and path.

## Findings

| source | as written | input that shows it | evidently intended | confidence | as-written member | corrected member |
|---|---|---|---|---|---|---|
| libs/Kdyby/Domain/Users/IdentityInfo.php:63-104 | inside `__get`, `__set` and `__unset`, `isset($this->{$name})` on an undeclared name re-enters `__isset`, which answers from `data`; the accessor then reads or writes `$this->{$name}` itself and creates a public property | on a new object, `$info->nickname = 'Bob'` stores `data['nickname']`; `$info->nickname` then gives NULL and leaves a NULL public property `nickname` that hides the entry | an undeclared name is served by `data` alone, and `isset` agrees with the read | not executed | Users.NicknameReadsNull | Users.IntendedUndeclaredReadsData |
