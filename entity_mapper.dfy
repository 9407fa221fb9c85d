/** `Kdyby\Doctrine\Forms\EntityMapper`: binds entities and collections to
    form containers, moves values between entities and controls, and keeps
    the item closures of choice controls. Its own tables are fields of the
    class; the entities, containers and controls it reaches are a `World`
    value that its methods take and return. */
module EntityMapping {
  import opened Common
  import opened FormBinding

  class EntityMapper {
    /** The class metadata the Doctrine registry hands out. */
    const doctrine: map<string, ClassSchema>
    /** The entity storage: bound entities in attach order ... */
    var entities: seq<EntityRef>
    /** ... and the container each one is bound to. */
    var components: map<EntityRef, ContainerRef>
    /** The collection storage. */
    var collections: map<EntityRef, ContainerRef>
    /** Field aliases, by control. */
    var aliases: map<ControlRef, string>
    /** Item closures, by control. */
    var mappers: map<ControlRef, ItemsMapper>
    /** The metadata cache `getMeta` fills. */
    var meta: map<string, ClassSchema>

    ghost predicate Valid()
      reads this
    {
      && (forall i, j :: 0 <= i < j < |entities| ==> entities[i] != entities[j])
      && (forall e :: e in components <==> e in entities)
      && (forall cls :: cls in meta ==> cls in doctrine && meta[cls] == doctrine[cls])
    }

    constructor (doctrine: map<string, ClassSchema>)
      ensures Valid()
      ensures this.doctrine == doctrine
      ensures entities == [] && components == map[] && collections == map[]
      ensures aliases == map[] && mappers == map[] && meta == map[]
    {
      this.doctrine := doctrine;
      entities := [];
      components := map[];
      collections := map[];
      aliases := map[];
      mappers := map[];
      meta := map[];
    }

    /** `assign($entity, $component)`: attaching again rebinds the entity
        without moving it in the storage order. */
    method Assign(e: EntityRef, c: ContainerRef)
      requires Valid()
      modifies this`entities, this`components
      ensures Valid()
      ensures entities == if e in old(entities) then old(entities) else old(entities) + [e]
      ensures components == old(components)[e := c]
      ensures Component(e) == Some(c)
    {
      if e !in components {
        entities := entities + [e];
      }
      components := components[e := c];
    }

    /** `assignCollection($collection, $component)`. */
    method AssignCollection(coll: EntityRef, c: ContainerRef)
      modifies this`collections
      ensures collections == old(collections)[coll := c]
      ensures coll !in components ==> Component(coll) == Some(c)
    {
      collections := collections[coll := c];
    }

    /** `getEntities()`. */
    method GetEntities() returns (es: seq<EntityRef>)
      ensures es == entities
    {
      es := [];
      var i := 0;
      while i < |entities|
        invariant 0 <= i <= |entities|
        invariant es == entities[..i]
      {
        es := es + [entities[i]];
        i := i + 1;
      }
    }

    /** `getComponent($object)`: an entity's container first, then a
        collection's, else NULL. */
    function Component(o: EntityRef): (r: Option<ContainerRef>)
      reads this
      ensures r.Some? <==> o in components || o in collections
      ensures o in components ==> r == Some(components[o])
      ensures o !in components && o in collections ==> r == Some(collections[o])
    {
      if o in components then Some(components[o])
      else if o in collections then Some(collections[o])
      else None
    }

    /** `getMeta($class)`: the class's metadata, cached on first use. */
    method GetMeta(cls: string) returns (schema: ClassSchema)
      requires Valid() && cls in doctrine
      modifies this`meta
      ensures Valid()
      ensures schema == doctrine[cls]
      ensures meta == old(meta)[cls := doctrine[cls]]
    {
      if cls !in meta {
        meta := meta[cls := doctrine[cls]];
      }
      schema := meta[cls];
    }

    /** `setControlAlias($control, $alias)`. */
    method SetControlAlias(k: ControlRef, alias: string)
      modifies this`aliases
      ensures aliases == old(aliases)[k := alias]
      ensures forall name :: GetControlField(k, name) == alias
      ensures forall j, name :: j != k ==> GetControlField(j, name) == old(GetControlField(j, name))
    {
      aliases := aliases[k := alias];
    }

    /** `getControlField($control)` for a control named `name`. */
    function GetControlField(k: ControlRef, name: string): (f: string)
      reads this
      ensures k in aliases ==> f == aliases[k]
      ensures k !in aliases ==> f == name
    {
      FieldOf(aliases, k, name)
    }

    /** `getControlMapper($control)`. */
    function GetControlMapper(k: ControlRef): (m: Option<ItemsMapper>)
      reads this
      ensures m.Some? <==> k in mappers
      ensures m.Some? ==> m.value == mappers[k]
    {
      if k in mappers then Some(mappers[k]) else None
    }

    /** The entity loop of `getControlEntityClass`. */
    method FindBoundTo(parent: Option<ContainerRef>) returns (r: Option<nat>)
      requires Valid()
      ensures r == FirstBoundTo(entities, components, parent)
    {
      var i := 0;
      while i < |entities|
        invariant 0 <= i <= |entities|
        invariant FirstBoundFrom(entities, components, parent, i) == FirstBoundTo(entities, components, parent)
      {
        if parent == Some(components[entities[i]]) {
          return Some(i);
        }
        i := i + 1;
      }
      return None;
    }

    /** The checks of `setControlMapper($control, $items, $key)`: the
        closure it would store, or the exception it throws. */
    method ResolveMapper(w: World, k: ControlRef, items: ItemsArg, key: string) returns (r: Result<ItemsMapper>)
      requires Valid() && Bound(w, doctrine, components, entities) && DoctrineValid(doctrine) && k in w.controls
      modifies this`meta
      ensures Valid()
      ensures r == old(MapperFor(w, doctrine, entities, components, aliases, k, items, key))
    {
      ghost var m := MapperFor(w, doctrine, entities, components, aliases, k, items, key);
      var found := FindBoundTo(w.controls[k].parent);
      if found.None? {
        return Err(InvalidArgument);
      }
      var cls := w.objects[entities[found.value]].cls;
      var field := GetControlField(k, w.controls[k].name);
      assert field == ControlField(w, aliases, k);
      var owner := GetMeta(cls);
      var target := TargetClass(owner, field);
      if target.Err? {
        return Err(target.error);
      }
      assert ControlEntityClass(w, doctrine, entities, components, aliases, k) == Ok(Some(target.value));
      match items {
        case FieldName(name) =>
          var targetMeta := GetMeta(target.value);
          if name !in targetMeta.fields {
            return Err(InvalidArgument);
          }
          r := Ok(PairsMapper(target.value, name, key));
        case Callable(cb) =>
          r := Ok(CallbackMapper(cb, target.value, key));
        case Unusable =>
          r := Err(InvalidArgument);
      }
    }

    /** `setControlMapper($control, $items, $key)`: stores the closure
        `MapperFor` describes, or throws and stores nothing. */
    method SetControlMapper(w: World, k: ControlRef, items: ItemsArg, key: string) returns (err: Option<Error>)
      requires Valid() && Bound(w, doctrine, components, entities) && DoctrineValid(doctrine) && k in w.controls
      modifies this`mappers, this`meta
      ensures Valid()
      ensures var m := old(MapperFor(w, doctrine, entities, components, aliases, k, items, key));
        && (err.None? <==> m.Ok?)
        && (err.Some? ==> err.value == m.error)
        && mappers == if m.Ok? then old(mappers)[k := m.value] else old(mappers)
    {
      var r := ResolveMapper(w, k, items, key);
      if r.Err? {
        return Some(r.error);
      }
      mappers := mappers[k := r.value];
      return None;
    }

    /** `loadControlItems()`: for every bound entity and every class of
        `$itemControls`, each direct child of that class with a stored
        closure gets the closure's items. */
    method LoadControlItems(w: World, fetch: ItemsRequest -> Items) returns (w': World)
      requires Valid()
      ensures w' == LoadItemsAll(w, mappers, aliases, components, fetch, entities)
    {
      w' := w;
      var i := 0;
      while i < |entities|
        invariant 0 <= i <= |entities|
        invariant w' == LoadItemsFirst(w, mappers, aliases, components, fetch, entities, i)
      {
        var e := entities[i];
        var container := Component(e);
        if container.value in w'.containers {
          var ms := w'.containers[container.value].members;
          var controls := LoadEntityControlItems(w'.controls, fetch, e, ms);
          w' := w'.(controls := controls);
        }
        i := i + 1;
      }
    }

    /** The `$itemControls` loop of `loadControlItems()` for one entity. */
    method LoadEntityControlItems(controls: map<ControlRef, Control>, fetch: ItemsRequest -> Items,
                                  e: EntityRef, ms: seq<Child>)
      returns (r: map<ControlRef, Control>)
      ensures r == LoadEntityItems(controls, mappers, aliases, fetch, e, ItemControls, ms)
    {
      r := controls;
      var j := 0;
      while j < |ItemControls|
        invariant 0 <= j <= |ItemControls|
        invariant r == LoadEntityItems(controls, mappers, aliases, fetch, e, ItemControls[..j], ms)
      {
        assert ItemControls[..j + 1][..j] == ItemControls[..j];
        r := LoadContainerItems(r, fetch, e, ItemControls[j], ms);
        j := j + 1;
      }
      assert ItemControls[..j] == ItemControls;
    }

    /** `loadContainerControlItems($entity, $controlClass)` on the entity's
        direct children `ms`. */
    method LoadContainerItems(controls: map<ControlRef, Control>, fetch: ItemsRequest -> Items,
                              e: EntityRef, kind: ControlKind, ms: seq<Child>)
      returns (r: map<ControlRef, Control>)
      ensures r == LoadKindItems(controls, mappers, aliases, fetch, e, kind, ms)
    {
      r := controls;
      var m := 0;
      while m < |ms|
        invariant 0 <= m <= |ms|
        invariant r == LoadKindItems(controls, mappers, aliases, fetch, e, kind, ms[..m])
      {
        assert ms[..m + 1][..m] == ms[..m];
        match ms[m] {
          case ControlChild(k) =>
            if k in controls && controls[k].kind == kind {
              var mapper := GetControlMapper(k);
              if mapper.Some? {
                var field := GetControlField(k, controls[k].name);
                r := r[k := controls[k].(items := fetch(RequestOf(mapper.value, e, field)))];
              }
            }
          case SubContainer(_, _) =>
        }
        m := m + 1;
      }
      assert ms[..m] == ms;
    }

    /** The staging loop of `load()`: the values array for one entity. */
    method StageValues(w: World, schema: ClassSchema, fields: map<string, Value>, ks: seq<ControlRef>)
      returns (staged: map<string, Value>)
      ensures staged == Stage(w, schema, aliases, fields, ks)
    {
      staged := map[];
      var j := 0;
      while j < |ks|
        invariant 0 <= j <= |ks|
        invariant staged == Stage(w, schema, aliases, fields, ks[..j])
      {
        assert ks[..j + 1][..j] == ks[..j];
        if ks[j] in w.controls {
          var field := GetControlField(ks[j], w.controls[ks[j]].name);
          if field in schema.fields {
            staged := staged[field := FieldValue(fields, field)];
          }
        }
        j := j + 1;
      }
      assert ks[..j] == ks;
    }

    /** The body of `load()` for one bound entity: stage its mapped
        fields, fire `onLoad` and set the values into its container. */
    method LoadEntity(w: World, e: EntityRef) returns (w': World)
      requires Valid() && e in components
      requires e in w.objects && w.objects[e].Entity? && w.objects[e].cls in doctrine
      modifies this`meta
      ensures Valid()
      ensures w' == LoadOne(w, doctrine[w.objects[e].cls], aliases, e, components[e])
    {
      var schema := GetMeta(w.objects[e].cls);
      var c := components[e];
      if c !in w.containers {
        return w;
      }
      var cont := w.containers[c];
      var staged := StageValues(w, schema, w.objects[e].fields, cont.controls);
      w' := World(w.objects,
                  w.containers[c := cont.(log := cont.log + [Loaded(staged, e)])],
                  SetValues(w.controls, cont.members, staged),
                  w.next);
    }

    /** `load()`: every bound entity in binding order. */
    method Load(w: World) returns (w': World)
      requires Valid()
      modifies this`meta
      ensures Valid()
      ensures w' == LoadAll(w, doctrine, aliases, components, entities)
    {
      w' := w;
      var i := 0;
      while i < |entities|
        invariant 0 <= i <= |entities|
        invariant Valid()
        invariant w' == LoadFirst(w, doctrine, aliases, components, entities, i)
      {
        var e := entities[i];
        if e in w'.objects && w'.objects[e].Entity? && w'.objects[e].cls in doctrine {
          w' := LoadEntity(w', e);
        }
        i := i + 1;
      }
    }

    /** The write loop of `save()`: each submitted control value whose field
        is mapped goes into the entity's properties. */
    method WriteValues(controls: map<ControlRef, Control>, schema: ClassSchema,
                       fields: map<string, Value>, ms: seq<Child>)
      returns (r: map<string, Value>)
      ensures r == Write(controls, schema, aliases, fields, ms)
    {
      r := fields;
      var j := 0;
      while j < |ms|
        invariant 0 <= j <= |ms|
        invariant r == Write(controls, schema, aliases, fields, ms[..j])
      {
        assert ms[..j + 1][..j] == ms[..j];
        if ms[j].ControlChild? && ms[j].control in controls && !controls[ms[j].control].disabled {
          var k := ms[j].control;
          var field := GetControlField(k, controls[k].name);
          if field in schema.fields {
            r := r[field := controls[k].value];
          }
        }
        j := j + 1;
      }
      assert ms[..j] == ms;
    }

    /** The body of `save()` for one bound entity: fire `onSave` with the
        container's values and write the mapped ones into the entity. */
    method SaveEntity(w: World, e: EntityRef) returns (w': World)
      requires Valid() && e in components
      requires e in w.objects && w.objects[e].Entity? && w.objects[e].cls in doctrine
      modifies this`meta
      ensures Valid()
      ensures w' == SaveOne(w, doctrine[w.objects[e].cls], aliases, e, components[e])
    {
      var ent := w.objects[e];
      var schema := GetMeta(ent.cls);
      var c := components[e];
      if c !in w.containers {
        return w;
      }
      var cont := w.containers[c];
      var submitted := Submitted(w.controls, cont.members);
      var fields := WriteValues(w.controls, schema, ent.fields, cont.members);
      w' := World(w.objects[e := Entity(ent.cls, fields)],
                  w.containers[c := cont.(log := cont.log + [Saved(submitted, c)])],
                  w.controls,
                  w.next);
    }

    /** `save()`: every bound entity in binding order. */
    method Save(w: World) returns (w': World)
      requires Valid()
      modifies this`meta
      ensures Valid()
      ensures w' == SaveAll(w, doctrine, aliases, components, entities)
    {
      w' := w;
      var i := 0;
      while i < |entities|
        invariant 0 <= i <= |entities|
        invariant Valid()
        invariant w' == SaveFirst(w, doctrine, aliases, components, entities, i)
      {
        var e := entities[i];
        if e in w'.objects && w'.objects[e].Entity? && w'.objects[e].cls in doctrine {
          w' := SaveEntity(w', e);
        }
        i := i + 1;
      }
    }

    /** `getRelated($container, $field)` for the container's entity `e`. */
    method GetRelated(w: World, e: EntityRef, field: string) returns (r: Result<(World, EntityRef)>)
      requires Valid() && WorldValid(w, doctrine) && DoctrineValid(doctrine)
      requires e in w.objects && w.objects[e].Entity?
      modifies this`meta
      ensures Valid()
      ensures r == Related(w, doctrine, e, field)
    {
      var ent := w.objects[e];
      var schema := GetMeta(ent.cls);
      if IsCollectionValued(schema, field) {
        return Err(InvalidState);
      }
      var related := FieldValue(ent.fields, field);
      var target := TargetClass(schema, field);
      if target.Err? {
        return Err(target.error);
      }
      if related.Ref? && related.obj in w.objects && w.objects[related.obj].Entity?
         && InstanceOf(doctrine, w.objects[related.obj].cls, target.value) {
        return Ok((w, related.obj));
      }
      var targetMeta := GetMeta(target.value);
      var n := w.next;
      var objects := w.objects[n := Entity(target.value, Blank(targetMeta))];
      objects := objects[e := Entity(ent.cls, ent.fields[field := Ref(n)])];
      return Ok((World(objects, w.containers, w.controls, n + 1), n));
    }

    /** `getCollection($entity, $field)`. */
    method GetCollection(w: World, e: EntityRef, field: string) returns (r: Result<(World, EntityRef)>)
      requires Valid() && WorldValid(w, doctrine)
      requires e in w.objects && w.objects[e].Entity?
      modifies this`meta
      ensures Valid()
      ensures r == CollectionOf(w, doctrine, e, field)
    {
      var ent := w.objects[e];
      var schema := GetMeta(ent.cls);
      if !IsCollectionValued(schema, field) {
        return Err(InvalidState);
      }
      var related := FieldValue(ent.fields, field);
      if related.Ref? && related.obj in w.objects && w.objects[related.obj].Collection? {
        return Ok((w, related.obj));
      }
      var n := w.next;
      var objects := w.objects[n := Collection([])];
      objects := objects[e := Entity(ent.cls, ent.fields[field := Ref(n)])];
      return Ok((World(objects, w.containers, w.controls, n + 1), n));
    }

    /** The loop of `getValuesIds`: the identifier fields with a non-empty
        submitted value. */
    method ValuesIds(identifiers: seq<string>, values: map<string, Value>) returns (ids: map<string, Value>)
      ensures ids == NonEmptyIds(identifiers, values)
    {
      ids := map[];
      var j := 0;
      while j < |identifiers|
        invariant 0 <= j <= |identifiers|
        invariant ids == NonEmptyIds(identifiers[..j], values)
      {
        assert identifiers[..j + 1] == identifiers[..j] + [identifiers[j]];
        var f := identifiers[j];
        if f in values && !IsEmptyValue(values[f]) {
          ids := ids[f := values[f]];
        }
        j := j + 1;
      }
      assert identifiers[..j] == identifiers;
    }

    /** `getCollectionEntry($container, $values)` for a collection container
        whose parent holds entity `parent` and which shows collection `coll`;
        `find` stands for the DAO's `find`. */
    method GetCollectionEntry(w: World, parent: EntityRef, coll: EntityRef, values: map<string, Value>,
                              find: (string, map<string, Value>) -> Option<EntityRef>)
      returns (r: Option<EntityRef>)
      requires Valid() && WorldValid(w, doctrine)
      requires parent in w.objects && w.objects[parent].Entity?
      requires coll in w.objects && w.objects[coll].Collection?
      modifies this`meta
      ensures Valid()
      ensures r == CollectionEntry(doctrine[w.objects[parent].cls], w.objects[parent].cls,
                                   w.objects[coll].members, values, find)
    {
      var cls := w.objects[parent].cls;
      var schema := GetMeta(cls);
      var ids := ValuesIds(schema.identifiers, values);
      if ids == map[] {
        return None;
      }
      var found := find(cls, ids);
      if found.Some? && found.value in w.objects[coll].members {
        return found;
      }
      return None;
    }
  }
}
