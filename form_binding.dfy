/** The world EntityMapper works on, and what its load, save and item
    loading do to it, as functions.

    PHP object identity is modelled by handles: an entity or a collection is
    an `EntityRef` into `World.objects`, a form container a `ContainerRef`,
    a form control a `ControlRef`. Doctrine's class metadata is an explicit
    `ClassSchema` per class name. The Nette component tree is given by each
    container's ordered direct children (`members`) and by the list of
    controls that `getControls()` enumerates for it (`controls`). The
    `onLoad`/`onSave` hooks are recorded as events in the container's log. */
module FormBinding {
  import opened Common

  type EntityRef = nat
  type ContainerRef = nat
  type ControlRef = nat

  /** A field value, a control value, or an entry of the values array. */
  datatype Value =
    | Null
    | Text(text: string)
    | Number(n: int)
    | Ref(obj: EntityRef)             // an entity or a collection object
    | Group(container: ContainerRef)  // the nested values of a sub-container

  /** One association mapping of a Doctrine class. */
  datatype Association = ToOne(target: string) | ToMany(target: string)

  /** What Doctrine's ClassMetadata tells the mapper about one class:
      `hasField`, `getIdentifierFieldNames`, `isCollectionValuedAssociation`
      and `getAssociationTargetClass`; besides, the classes and interfaces
      an instance of it is also an `instanceof` (its ancestors, or the
      entity a Doctrine proxy class stands for), and the property values
      `new` leaves set by the constructor and the property defaults. */
  datatype ClassSchema = ClassSchema(
    fields: set<string>,
    identifiers: seq<string>,
    associations: map<string, Association>,
    parents: set<string>,
    defaults: map<string, Value>)

  /** A PHP object the mapper can see: an entity of some class with its
      properties, or a Doctrine collection. */
  datatype Obj =
    | Entity(cls: string, fields: map<string, Value>)
    | Collection(members: seq<EntityRef>)

  /** The control classes the mapper distinguishes; the last three are
      `EntityMapper::$itemControls`. */
  datatype ControlKind = TextInput | SelectBox | RadioList | CheckboxList

  /** The key to label pairs of a choice control. */
  type Items = map<Value, Value>

  /** A form control: its name, class, value, items, the container it
      was added to, and whether it is disabled (`setDisabled()`), which
      keeps its value out of `getValues()`. */
  datatype Control = Control(name: string, kind: ControlKind, value: Value, items: Items,
                             parent: Option<ContainerRef>, disabled: bool)

  /** A direct child of a container: a control or a nested container. */
  datatype Child =
    | ControlChild(control: ControlRef)
    | SubContainer(name: string, container: ContainerRef)

  /** A call of one of the container's hooks, with its arguments. */
  datatype Event =
    | Loaded(staged: map<string, Value>, entity: EntityRef)
    | Saved(submitted: seq<(string, Value)>, container: ContainerRef)

  datatype Container = Container(members: seq<Child>, controls: seq<ControlRef>, log: seq<Event>)

  /** Every object the mapper can reach. `next` is the handle `new` hands
      out next. */
  datatype World = World(
    objects: map<EntityRef, Obj>,
    containers: map<ContainerRef, Container>,
    controls: map<ControlRef, Control>,
    next: nat)

  /** The controls `EntityMapper::$itemControls` lists, in its order. */
  const ItemControls: seq<ControlKind> := [SelectBox, RadioList, CheckboxList]

  /** Doctrine's mapping is closed: association targets are mapped classes. */
  ghost predicate DoctrineValid(doctrine: map<string, ClassSchema>)
  {
    forall cls, f :: cls in doctrine && f in doctrine[cls].associations ==>
      doctrine[cls].associations[f].target in doctrine
  }

  /** Handles point at existing objects, and every entity is an instance of
      a mapped class carrying all of its mapped fields. */
  ghost predicate WorldValid(w: World, doctrine: map<string, ClassSchema>)
  {
    && (forall r :: r in w.objects ==> r < w.next)
    && (forall r :: r in w.objects && w.objects[r].Entity? ==>
          w.objects[r].cls in doctrine && doctrine[w.objects[r].cls].fields <= w.objects[r].fields.Keys)
    && (forall c, i :: c in w.containers && 0 <= i < |w.containers[c].controls| ==>
          w.containers[c].controls[i] in w.controls)
    && (forall c :: c in w.containers ==> MembersIn(w.controls, w.containers[c].members))
    && (forall c :: c in w.containers ==> DistinctNames(w.controls, w.containers[c].members))
  }

  /** The name a direct child is registered under in its container. */
  function ChildName(controls: map<ControlRef, Control>, ch: Child): string
  {
    match ch
    case SubContainer(name, _) => name
    case ControlChild(c) => if c in controls then controls[c].name else ""
  }

  /** Nette registers a container's children under distinct names, so the
      keys `getValues()` produces are distinct. */
  ghost predicate DistinctNames(controls: map<ControlRef, Control>, ms: seq<Child>)
  {
    forall i, j :: 0 <= i < j < |ms| ==> ChildName(controls, ms[i]) != ChildName(controls, ms[j])
  }

  /** Two worlds have the same objects, containers and controls, and differ
      at most in property values (entities may gain properties), control
      values and items, and hook logs. */
  ghost predicate SameShape(w: World, w': World)
  {
    && w'.next == w.next
    && w'.objects.Keys == w.objects.Keys
    && (forall r :: r in w.objects ==>
          w'.objects[r].Entity? == w.objects[r].Entity? &&
          (w.objects[r].Entity? ==> w'.objects[r].cls == w.objects[r].cls &&
                                    w.objects[r].fields.Keys <= w'.objects[r].fields.Keys))
    && (forall r :: r in w.objects && w.objects[r].Collection? ==> w'.objects[r] == w.objects[r])
    && w'.containers.Keys == w.containers.Keys
    && (forall c :: c in w.containers ==>
          w'.containers[c].members == w.containers[c].members &&
          w'.containers[c].controls == w.containers[c].controls)
    && w'.controls.Keys == w.controls.Keys
    && (forall k :: k in w.controls ==>
          w'.controls[k] == w.controls[k].(value := w'.controls[k].value, items := w'.controls[k].items))
  }

  lemma SameShapeKeepsValid(w: World, w': World, doctrine: map<string, ClassSchema>)
    requires WorldValid(w, doctrine) && SameShape(w, w')
    ensures WorldValid(w', doctrine)
  {
  }

  lemma SameShapeTrans(w1: World, w2: World, w3: World)
    requires SameShape(w1, w2) && SameShape(w2, w3)
    ensures SameShape(w1, w3)
  {
  }

  /** The entities in `es` are bound (to a container of the world) and are
      entities of the world. */
  ghost predicate Bound(w: World, doctrine: map<string, ClassSchema>, components: map<EntityRef, ContainerRef>, es: seq<EntityRef>)
  {
    && WorldValid(w, doctrine)
    && forall i :: 0 <= i < |es| ==>
         es[i] in components && components[es[i]] in w.containers &&
         es[i] in w.objects && w.objects[es[i]].Entity?
  }

  /** `ClassMetadata::getFieldValue`: an unset property reads as NULL. */
  function FieldValue(fields: map<string, Value>, f: string): Value
  {
    if f in fields then fields[f] else Null
  }

  /** `getControlField`: the alias registered for this very control, else
      the control's own name. */
  function FieldOf(aliases: map<ControlRef, string>, k: ControlRef, name: string): (f: string)
    ensures k in aliases ==> f == aliases[k]
    ensures k !in aliases ==> f == name
  {
    if k in aliases then aliases[k] else name
  }

  /** The field a control of the world maps to. */
  function ControlField(w: World, aliases: map<ControlRef, string>, k: ControlRef): string
    requires k in w.controls
  {
    FieldOf(aliases, k, w.controls[k].name)
  }

  /************************ load ************************/

  // The functions below skip a handle that does not resolve; in a world
  // satisfying `WorldValid` every handle they meet resolves.

  /** Some control among `ks` maps to the field `f`. */
  ghost predicate SomeControlMapsTo(w: World, aliases: map<ControlRef, string>, ks: seq<ControlRef>, f: string)
  {
    exists i :: 0 <= i < |ks| && ks[i] in w.controls && ControlField(w, aliases, ks[i]) == f
  }

  /** The values array `load` builds for one entity: for each control whose
      field is a mapped field of the class, that field's current value. */
  function Stage(w: World, schema: ClassSchema, aliases: map<ControlRef, string>,
                 fields: map<string, Value>, ks: seq<ControlRef>): (staged: map<string, Value>)
    ensures forall f :: f in staged <==> f in schema.fields && SomeControlMapsTo(w, aliases, ks, f)
    ensures forall f :: f in staged ==> staged[f] == FieldValue(fields, f)
  {
    if ks == [] then map[]
    else
      var init := ks[..|ks| - 1];
      var k := ks[|ks| - 1];
      var prev := Stage(w, schema, aliases, fields, init);
      assert forall g :: SomeControlMapsTo(w, aliases, ks, g) <==>
        SomeControlMapsTo(w, aliases, init, g) || (k in w.controls && ControlField(w, aliases, k) == g) by {
        forall g | SomeControlMapsTo(w, aliases, ks, g)
          ensures SomeControlMapsTo(w, aliases, init, g) || (k in w.controls && ControlField(w, aliases, k) == g) {
          var i :| 0 <= i < |ks| && ks[i] in w.controls && ControlField(w, aliases, ks[i]) == g;
          if i < |init| {
            assert init[i] == ks[i];
          }
        }
        forall g | SomeControlMapsTo(w, aliases, init, g)
          ensures SomeControlMapsTo(w, aliases, ks, g) {
          var i :| 0 <= i < |init| && init[i] in w.controls && ControlField(w, aliases, init[i]) == g;
          assert init[i] == ks[i];
        }
      }
      if k in w.controls && ControlField(w, aliases, k) in schema.fields
      then prev[ControlField(w, aliases, k) := FieldValue(fields, ControlField(w, aliases, k))]
      else prev
  }

  /** A control child of a container. */
  predicate IsMemberControl(ms: seq<Child>, k: ControlRef)
  {
    exists i :: 0 <= i < |ms| && ms[i] == ControlChild(k)
  }

  lemma IsMemberControlSnoc(ms: seq<Child>, k: ControlRef)
    requires ms != []
    ensures IsMemberControl(ms, k) <==> IsMemberControl(ms[..|ms| - 1], k) || ms[|ms| - 1] == ControlChild(k)
  {
    var init := ms[..|ms| - 1];
    if IsMemberControl(ms, k) {
      var i :| 0 <= i < |ms| && ms[i] == ControlChild(k);
      if i < |init| { assert init[i] == ms[i]; }
    }
    if IsMemberControl(init, k) {
      var i :| 0 <= i < |init| && init[i] == ControlChild(k);
      assert ms[i] == ControlChild(k);
    }
  }

  /** Every control child of the container resolves. */
  ghost predicate MembersIn(controls: map<ControlRef, Control>, ms: seq<Child>)
  {
    forall i :: 0 <= i < |ms| && ms[i].ControlChild? ==> ms[i].control in controls
  }

  /** Nette's `Container::setValues($values)`: every control child whose
      name is a key of the array takes that value; nothing else changes. */
  function SetValues(controls: map<ControlRef, Control>, ms: seq<Child>, values: map<string, Value>):
    (r: map<ControlRef, Control>)
    ensures r.Keys == controls.Keys
    ensures forall k :: k in controls ==>
      r[k] == (if IsMemberControl(ms, k) && controls[k].name in values
               then controls[k].(value := values[controls[k].name]) else controls[k])
  {
    if ms == [] then controls
    else
      var prev := SetValues(controls, ms[..|ms| - 1], values);
      assert forall k :: IsMemberControl(ms, k) <==>
        IsMemberControl(ms[..|ms| - 1], k) || ms[|ms| - 1] == ControlChild(k) by {
        forall k ensures IsMemberControl(ms, k) <==>
          IsMemberControl(ms[..|ms| - 1], k) || ms[|ms| - 1] == ControlChild(k) {
          IsMemberControlSnoc(ms, k);
        }
      }
      match ms[|ms| - 1]
      case ControlChild(k) =>
        if k in controls && controls[k].name in values
        then prev[k := controls[k].(value := values[controls[k].name])]
        else prev
      case SubContainer(_, _) => prev
  }

  /** `load()` for one bound entity: stage the values, fire `onLoad(values,
      entity)`, then `setValues(values)` on the entity's container. */
  function LoadOne(w: World, schema: ClassSchema, aliases: map<ControlRef, string>,
                   e: EntityRef, c: ContainerRef): (w': World)
  {
    if e in w.objects && w.objects[e].Entity? && c in w.containers then
      var cont := w.containers[c];
      var staged := Stage(w, schema, aliases, w.objects[e].fields, cont.controls);
      World(w.objects,
            w.containers[c := cont.(log := cont.log + [Loaded(staged, e)])],
            SetValues(w.controls, cont.members, staged),
            w.next)
    else w
  }

  /** The first `n` iterations of `load()`'s loop over `es`. */
  function LoadFirst(w: World, doctrine: map<string, ClassSchema>, aliases: map<ControlRef, string>,
                     components: map<EntityRef, ContainerRef>, es: seq<EntityRef>, n: nat): (w': World)
    requires n <= |es|
  {
    if n == 0 then w
    else
      var prev := LoadFirst(w, doctrine, aliases, components, es, n - 1);
      var e := es[n - 1];
      if e in components && e in prev.objects && prev.objects[e].Entity? && prev.objects[e].cls in doctrine
      then LoadOne(prev, doctrine[prev.objects[e].cls], aliases, e, components[e])
      else prev
  }

  /** `load()`: every bound entity in binding order. */
  function LoadAll(w: World, doctrine: map<string, ClassSchema>, aliases: map<ControlRef, string>,
                   components: map<EntityRef, ContainerRef>, es: seq<EntityRef>): (w': World)
  {
    LoadFirst(w, doctrine, aliases, components, es, |es|)
  }

  /** Loading one entity changes only control values and one hook log. */
  lemma LoadOneShape(w: World, schema: ClassSchema, aliases: map<ControlRef, string>, e: EntityRef, c: ContainerRef)
    ensures var w' := LoadOne(w, schema, aliases, e, c);
      SameShape(w, w') && w'.objects == w.objects &&
      forall k :: k in w.controls ==> w'.controls[k].items == w.controls[k].items
  {
  }

  /** The first `n` iterations of `load()` change no object and no
      structure. */
  lemma {:induction false} LoadFirstShape(w: World, doctrine: map<string, ClassSchema>, aliases: map<ControlRef, string>,
                                          components: map<EntityRef, ContainerRef>, es: seq<EntityRef>, n: nat)
    requires n <= |es|
    ensures var w' := LoadFirst(w, doctrine, aliases, components, es, n);
      SameShape(w, w') && w'.objects == w.objects &&
      forall k :: k in w.controls ==> w'.controls[k].items == w.controls[k].items
  {
    if n != 0 {
      LoadFirstShape(w, doctrine, aliases, components, es, n - 1);
      var prev := LoadFirst(w, doctrine, aliases, components, es, n - 1);
      var e := es[n - 1];
      if e in components && e in prev.objects && prev.objects[e].Entity? && prev.objects[e].cls in doctrine {
        LoadOneShape(prev, doctrine[prev.objects[e].cls], aliases, e, components[e]);
        SameShapeTrans(w, prev, LoadOne(prev, doctrine[prev.objects[e].cls], aliases, e, components[e]));
      }
    }
  }

  /** `load()` changes no object and no structure: only control values and
      hook logs. */
  lemma LoadAllShape(w: World, doctrine: map<string, ClassSchema>, aliases: map<ControlRef, string>,
                     components: map<EntityRef, ContainerRef>, es: seq<EntityRef>)
    ensures var w' := LoadAll(w, doctrine, aliases, components, es);
      SameShape(w, w') && w'.objects == w.objects &&
      forall k :: k in w.controls ==> w'.controls[k].items == w.controls[k].items
  {
    LoadFirstShape(w, doctrine, aliases, components, es, |es|);
  }

  /************************ save ************************/

  /** No control child among `ms` is disabled. */
  ghost predicate NoneDisabled(controls: map<ControlRef, Control>, ms: seq<Child>)
  {
    forall i :: 0 <= i < |ms| && ms[i].ControlChild? && ms[i].control in controls ==>
      !controls[ms[i].control].disabled
  }

  /** Nette's `Container::getValues()`: each enabled direct control's name
      with its value, and each nested container with its own values array;
      a disabled control is left out. */
  function Submitted(controls: map<ControlRef, Control>, ms: seq<Child>): (r: seq<(string, Value)>)
    ensures |r| <= |ms|
    ensures MembersIn(controls, ms) && NoneDisabled(controls, ms) ==> |r| == |ms|
  {
    if ms == [] then []
    else
      var prev := Submitted(controls, ms[..|ms| - 1]);
      assert MembersIn(controls, ms) ==> MembersIn(controls, ms[..|ms| - 1]);
      assert NoneDisabled(controls, ms) ==> NoneDisabled(controls, ms[..|ms| - 1]);
      match ms[|ms| - 1]
      case ControlChild(k) =>
        if k in controls && !controls[k].disabled then prev + [(controls[k].name, controls[k].value)] else prev
      case SubContainer(n, sub) => prev + [(n, Group(sub))]
  }

  /** The pair the child `ch` puts into `getValues()`: an enabled control
      gives its name and value, a nested container its values array. */
  predicate Gives(controls: map<ControlRef, Control>, ch: Child, p: (string, Value))
  {
    match ch
    case ControlChild(k) => k in controls && !controls[k].disabled && p == (controls[k].name, controls[k].value)
    case SubContainer(n, sub) => p == (n, Group(sub))
  }

  /** `getValues()` holds exactly the pairs some direct child gives, so a
      disabled control's value is never among them. */
  lemma {:induction false} SubmittedSpec(controls: map<ControlRef, Control>, ms: seq<Child>)
    ensures forall p :: p in Submitted(controls, ms) <==> exists i :: 0 <= i < |ms| && Gives(controls, ms[i], p)
  {
    if ms != [] {
      var init := ms[..|ms| - 1];
      SubmittedSpec(controls, init);
      assert forall i :: 0 <= i < |init| ==> init[i] == ms[i];
      forall p ensures p in Submitted(controls, ms) <==> exists i :: 0 <= i < |ms| && Gives(controls, ms[i], p) {
        if p in Submitted(controls, ms) && p !in Submitted(controls, init) {
          assert Gives(controls, ms[|ms| - 1], p);
        }
        if exists i :: 0 <= i < |ms| && Gives(controls, ms[i], p) {
          var i :| 0 <= i < |ms| && Gives(controls, ms[i], p);
          if i < |init| {
            assert Gives(controls, init[i], p);
          }
        }
      }
    }
  }

  /** The control child `ch` writes the mapped field `f`: it is enabled, so
      its value is submitted, and its field is a mapped field. */
  predicate WritesOne(controls: map<ControlRef, Control>, schema: ClassSchema,
                      aliases: map<ControlRef, string>, ch: Child, f: string)
  {
    ch.ControlChild? && ch.control in controls && !controls[ch.control].disabled && f in schema.fields &&
    FieldOf(aliases, ch.control, controls[ch.control].name) == f
  }

  /** Some control child among `ms` writes the mapped field `f`. */
  ghost predicate Writes(controls: map<ControlRef, Control>, schema: ClassSchema,
                         aliases: map<ControlRef, string>, ms: seq<Child>, f: string)
  {
    exists i :: 0 <= i < |ms| && WritesOne(controls, schema, aliases, ms[i], f)
  }

  lemma WritesSnoc(controls: map<ControlRef, Control>, schema: ClassSchema,
                   aliases: map<ControlRef, string>, ms: seq<Child>, f: string)
    requires ms != []
    ensures Writes(controls, schema, aliases, ms, f) <==>
      Writes(controls, schema, aliases, ms[..|ms| - 1], f) || WritesOne(controls, schema, aliases, ms[|ms| - 1], f)
  {
    var init := ms[..|ms| - 1];
    assert forall i :: 0 <= i < |init| ==> init[i] == ms[i];
    if Writes(controls, schema, aliases, ms, f) {
      var i :| 0 <= i < |ms| && WritesOne(controls, schema, aliases, ms[i], f);
      if i < |init| {
        assert WritesOne(controls, schema, aliases, init[i], f);
      }
    }
  }

  /** The `save()` write loop: every submitted control value whose field is
      a mapped field goes into the entity; a later control wins. */
  function Write(controls: map<ControlRef, Control>, schema: ClassSchema, aliases: map<ControlRef, string>,
                 fields: map<string, Value>, ms: seq<Child>): (r: map<string, Value>)
    ensures fields.Keys <= r.Keys
  {
    if ms == [] then fields
    else
      var last := ms[|ms| - 1];
      var prev := Write(controls, schema, aliases, fields, ms[..|ms| - 1]);
      if last.ControlChild? && last.control in controls && !controls[last.control].disabled &&
         FieldOf(aliases, last.control, controls[last.control].name) in schema.fields
      then prev[FieldOf(aliases, last.control, controls[last.control].name) := controls[last.control].value]
      else prev
  }

  /** The write loop adds exactly the written fields, leaves every field no
      enabled control writes as it was (a disabled control's field among
      them), and gives a written field the value of an enabled control that
      maps to it. */
  lemma {:induction false} WriteSpec(controls: map<ControlRef, Control>, schema: ClassSchema,
                                     aliases: map<ControlRef, string>, fields: map<string, Value>, ms: seq<Child>)
    ensures var r := Write(controls, schema, aliases, fields, ms);
      && (forall f :: f in r <==> f in fields || Writes(controls, schema, aliases, ms, f))
      && (forall f :: f in fields && !Writes(controls, schema, aliases, ms, f) ==> r[f] == fields[f])
      && (forall f :: Writes(controls, schema, aliases, ms, f) ==>
            exists i :: 0 <= i < |ms| && WritesOne(controls, schema, aliases, ms[i], f) &&
              r[f] == controls[ms[i].control].value)
  {
    if ms != [] {
      var init := ms[..|ms| - 1];
      var last := ms[|ms| - 1];
      WriteSpec(controls, schema, aliases, fields, init);
      var prev := Write(controls, schema, aliases, fields, init);
      var r := Write(controls, schema, aliases, fields, ms);
      assert forall i :: 0 <= i < |init| ==> init[i] == ms[i];
      forall f ensures Writes(controls, schema, aliases, ms, f) <==>
          Writes(controls, schema, aliases, init, f) || WritesOne(controls, schema, aliases, last, f) {
        WritesSnoc(controls, schema, aliases, ms, f);
      }
      forall f | Writes(controls, schema, aliases, ms, f)
        ensures exists i :: (0 <= i < |ms| && WritesOne(controls, schema, aliases, ms[i], f) &&
              r[f] == controls[ms[i].control].value)
      {
        if WritesOne(controls, schema, aliases, last, f) {
          assert ms[|ms| - 1] == last;
        } else {
          var i :| 0 <= i < |init| && WritesOne(controls, schema, aliases, init[i], f) &&
              prev[f] == controls[init[i].control].value;
          assert ms[i] == init[i];
        }
      }
    }
  }

  /** `save()` for one bound entity: fire `onSave(values, container)`, then
      write the mapped values into the entity. */
  function SaveOne(w: World, schema: ClassSchema, aliases: map<ControlRef, string>,
                   e: EntityRef, c: ContainerRef): (w': World)
  {
    if e in w.objects && w.objects[e].Entity? && c in w.containers then
      var cont := w.containers[c];
      var ent := w.objects[e];
      World(w.objects[e := Entity(ent.cls, Write(w.controls, schema, aliases, ent.fields, cont.members))],
            w.containers[c := cont.(log := cont.log + [Saved(Submitted(w.controls, cont.members), c)])],
            w.controls,
            w.next)
    else w
  }

  /** The first `n` iterations of `save()`'s loop over `es`. */
  function SaveFirst(w: World, doctrine: map<string, ClassSchema>, aliases: map<ControlRef, string>,
                     components: map<EntityRef, ContainerRef>, es: seq<EntityRef>, n: nat): (w': World)
    requires n <= |es|
  {
    if n == 0 then w
    else
      var prev := SaveFirst(w, doctrine, aliases, components, es, n - 1);
      var e := es[n - 1];
      if e in components && e in prev.objects && prev.objects[e].Entity? && prev.objects[e].cls in doctrine
      then SaveOne(prev, doctrine[prev.objects[e].cls], aliases, e, components[e])
      else prev
  }

  /** `save()`: every bound entity in binding order. */
  function SaveAll(w: World, doctrine: map<string, ClassSchema>, aliases: map<ControlRef, string>,
                   components: map<EntityRef, ContainerRef>, es: seq<EntityRef>): (w': World)
  {
    SaveFirst(w, doctrine, aliases, components, es, |es|)
  }

  /** Saving one entity changes no control and no structure, and no object
      other than that entity. */
  lemma SaveOneFrame(w: World, schema: ClassSchema, aliases: map<ControlRef, string>, e: EntityRef, c: ContainerRef)
    ensures var w' := SaveOne(w, schema, aliases, e, c);
      && SameShape(w, w')
      && w'.controls == w.controls
      && forall r :: r in w.objects && r != e ==> w'.objects[r] == w.objects[r]
  {
  }

  /** The first `n` iterations of `save()` change no control, no
      structure and no object other than the first `n` entities. */
  lemma {:induction false} SaveFirstFrame(w: World, doctrine: map<string, ClassSchema>, aliases: map<ControlRef, string>,
                                          components: map<EntityRef, ContainerRef>, es: seq<EntityRef>, n: nat)
    requires n <= |es|
    ensures var w' := SaveFirst(w, doctrine, aliases, components, es, n);
      && SameShape(w, w')
      && w'.controls == w.controls
      && forall r :: r in w.objects && (forall i :: 0 <= i < n ==> es[i] != r) ==> w'.objects[r] == w.objects[r]
  {
    if n != 0 {
      SaveFirstFrame(w, doctrine, aliases, components, es, n - 1);
      var prev := SaveFirst(w, doctrine, aliases, components, es, n - 1);
      var e := es[n - 1];
      if e in components && e in prev.objects && prev.objects[e].Entity? && prev.objects[e].cls in doctrine {
        var schema := doctrine[prev.objects[e].cls];
        SaveOneFrame(prev, schema, aliases, e, components[e]);
        SameShapeTrans(w, prev, SaveOne(prev, schema, aliases, e, components[e]));
      }
    }
  }

  /** `save()` changes no control and no structure, and no object other
      than the bound entities. */
  lemma SaveAllFrame(w: World, doctrine: map<string, ClassSchema>, aliases: map<ControlRef, string>,
                     components: map<EntityRef, ContainerRef>, es: seq<EntityRef>)
    ensures var w' := SaveAll(w, doctrine, aliases, components, es);
      && SameShape(w, w')
      && w'.controls == w.controls
      && forall r :: r in w.objects && r !in es ==> w'.objects[r] == w.objects[r]
  {
    SaveFirstFrame(w, doctrine, aliases, components, es, |es|);
  }

  /************************ load and save together ************************/

  /** Every direct control child of the container is among the controls
      `getControls()` enumerates, and none of them has an alias. */
  ghost predicate PlainContainer(w: World, aliases: map<ControlRef, string>, c: ContainerRef)
    requires c in w.containers
  {
    forall k :: IsMemberControl(w.containers[c].members, k) ==>
      k !in aliases && k in w.containers[c].controls
  }

  /** After `load`, each direct control child without an alias shows the
      current value of the mapped field it is named after. */
  lemma LoadShowsFields(w: World, schema: ClassSchema, aliases: map<ControlRef, string>,
                        e: EntityRef, c: ContainerRef, k: ControlRef)
    requires e in w.objects && w.objects[e].Entity? && c in w.containers
    requires IsMemberControl(w.containers[c].members, k) && k in w.containers[c].controls && k !in aliases
    requires k in w.controls && w.controls[k].name in schema.fields
    ensures LoadOne(w, schema, aliases, e, c).controls[k].value == FieldValue(w.objects[e].fields, w.controls[k].name)
  {
    var ks := w.containers[c].controls;
    var i :| 0 <= i < |ks| && ks[i] == k;
    assert SomeControlMapsTo(w, aliases, ks, w.controls[k].name) by {
      assert ks[i] in w.controls && ControlField(w, aliases, ks[i]) == w.controls[k].name;
    }
  }

  /** Loading an entity into a plain container and saving the container
      back leaves every object as it was: the form shows the entity's
      values, and saving them writes the same values back. */
  lemma LoadThenSaveKeepsObjects(w: World, schema: ClassSchema, aliases: map<ControlRef, string>,
                                 e: EntityRef, c: ContainerRef)
    requires e in w.objects && w.objects[e].Entity? && c in w.containers
    requires schema.fields <= w.objects[e].fields.Keys
    requires PlainContainer(w, aliases, c)
    ensures SaveOne(LoadOne(w, schema, aliases, e, c), schema, aliases, e, c).objects == w.objects
  {
    var w1 := LoadOne(w, schema, aliases, e, c);
    var ms := w.containers[c].members;
    var fields := w.objects[e].fields;
    assert w1.containers[c].members == ms;
    assert w1.objects == w.objects;
    var r := Write(w1.controls, schema, aliases, fields, ms);
    WriteSpec(w1.controls, schema, aliases, fields, ms);
    forall f | Writes(w1.controls, schema, aliases, ms, f) ensures f in fields && r[f] == fields[f] {
      var i :| 0 <= i < |ms| && WritesOne(w1.controls, schema, aliases, ms[i], f) &&
        r[f] == w1.controls[ms[i].control].value;
      var k := ms[i].control;
      assert IsMemberControl(ms, k);
      LoadShowsFields(w, schema, aliases, e, c, k);
    }
    assert r == fields;
  }

  /** An aliased control breaks the round trip: `load` stages the value
      under the alias but `setValues` matches controls by name, so the
      control keeps its old value and `save` writes that over the field.
      Here control 0, named "name" and aliased to "title", turns the title
      "Kdyby" into NULL. */
  lemma AliasedControlLosesValue()
    ensures var schema := ClassSchema({"title"}, ["id"], map[], {}, map[]);
      var w := World(map[0 := Entity("Article", map["title" := Text("Kdyby")])],
                     map[0 := Container([ControlChild(0)], [0], [])],
                     map[0 := Control("name", TextInput, Null, map[], Some(0), false)],
                     1);
      var aliases := map[0 := "title"];
      SaveOne(LoadOne(w, schema, aliases, 0, 0), schema, aliases, 0, 0).objects[0]
        == Entity("Article", map["title" := Null])
  {
    var schema := ClassSchema({"title"}, ["id"], map[], {}, map[]);
    var w := World(map[0 := Entity("Article", map["title" := Text("Kdyby")])],
                   map[0 := Container([ControlChild(0)], [0], [])],
                   map[0 := Control("name", TextInput, Null, map[], Some(0), false)],
                   1);
    var aliases := map[0 := "title"];
    var w1 := LoadOne(w, schema, aliases, 0, 0);
    assert [ControlChild(0)][..0] == [];
    assert [0][..0] == [];
    assert w1.controls[0].value == Null;
    var ms := [ControlChild(0)];
    assert Write(w1.controls, schema, aliases, map["title" := Text("Kdyby")], ms)
      == map["title" := Null];
  }

  /** Loading and saving only fire the hooks: each appends one event to
      the entity's container and leaves the other logs alone. */
  lemma HooksFireOnce(w: World, schema: ClassSchema, aliases: map<ControlRef, string>,
                      e: EntityRef, c: ContainerRef, d: ContainerRef)
    requires e in w.objects && w.objects[e].Entity? && c in w.containers && d in w.containers
    ensures var l := LoadOne(w, schema, aliases, e, c).containers[d].log;
      if d == c then |l| == |w.containers[d].log| + 1 && l[..|l| - 1] == w.containers[d].log && l[|l| - 1].Loaded? && l[|l| - 1].entity == e
      else l == w.containers[d].log
    ensures var l := SaveOne(w, schema, aliases, e, c).containers[d].log;
      if d == c then |l| == |w.containers[d].log| + 1 && l[..|l| - 1] == w.containers[d].log && l[|l| - 1].Saved? && l[|l| - 1].container == c
      else l == w.containers[d].log
  {
  }

  /************************ item loading ************************/

  /** A closure `setControlMapper` stores for a choice control. */
  datatype ItemsMapper =
    | PairsMapper(dao: string, itemsField: string, key: string)  // `$dao->fetchPairs(new ItemPairsQuery(...))`
    | CallbackMapper(callback: nat, dao: string, key: string)     // `$items($dao, $key)`

  /** What calling a stored closure asks of the database or of user code:
      the DAO's class, and the query or the callback with its arguments. */
  datatype ItemsRequest =
    | FetchPairs(dao: string, entity: EntityRef, field: string, itemsField: string, key: string)
    | Invoke(callback: nat, dao: string, key: string)

  /** The call a stored closure makes when invoked for a control bound to
      `entity` whose field is now `field`. */
  function RequestOf(m: ItemsMapper, entity: EntityRef, field: string): (q: ItemsRequest)
    ensures q.dao == m.dao
    ensures m.PairsMapper? <==> q.FetchPairs?
    ensures q.FetchPairs? ==> q.entity == entity && q.field == field && q.itemsField == m.itemsField && q.key == m.key
    ensures q.Invoke? ==> q.callback == m.callback && q.key == m.key
  {
    match m
    case PairsMapper(dao, itemsField, key) => FetchPairs(dao, entity, field, itemsField, key)
    case CallbackMapper(cb, dao, key) => Invoke(cb, dao, key)
  }

  /** What `loadContainerControlItems` does to a control: a direct child of
      one of the given classes with a stored closure gets the closure's
      items; every other control stays as it is. */
  function ItemsUpdate(controls: map<ControlRef, Control>, mappers: map<ControlRef, ItemsMapper>,
                       aliases: map<ControlRef, string>, fetch: ItemsRequest -> Items,
                       e: EntityRef, kinds: seq<ControlKind>, ms: seq<Child>, k: ControlRef): Control
    requires k in controls
  {
    if IsMemberControl(ms, k) && controls[k].kind in kinds && k in mappers
    then controls[k].(items := fetch(RequestOf(mappers[k], e, FieldOf(aliases, k, controls[k].name))))
    else controls[k]
  }

  /** `loadContainerControlItems($entity, $controlClass)`: the direct
      children of one class, in order. */
  function LoadKindItems(controls: map<ControlRef, Control>, mappers: map<ControlRef, ItemsMapper>,
                         aliases: map<ControlRef, string>, fetch: ItemsRequest -> Items,
                         e: EntityRef, kind: ControlKind, ms: seq<Child>): (r: map<ControlRef, Control>)
  {
    if ms == [] then controls
    else
      var prev := LoadKindItems(controls, mappers, aliases, fetch, e, kind, ms[..|ms| - 1]);
      match ms[|ms| - 1]
      case ControlChild(k) =>
        if k in controls && controls[k].kind == kind && k in mappers
        then prev[k := controls[k].(items := fetch(RequestOf(mappers[k], e, FieldOf(aliases, k, controls[k].name))))]
        else prev
      case SubContainer(_, _) => prev
  }

  /** Loading the items of one control class updates exactly the direct
      children of that class that have a stored closure. */
  lemma {:induction false} LoadKindItemsSpec(controls: map<ControlRef, Control>, mappers: map<ControlRef, ItemsMapper>,
                                             aliases: map<ControlRef, string>, fetch: ItemsRequest -> Items,
                                             e: EntityRef, kind: ControlKind, ms: seq<Child>)
    ensures var r := LoadKindItems(controls, mappers, aliases, fetch, e, kind, ms);
      && r.Keys == controls.Keys
      && forall k :: k in controls ==> r[k] == ItemsUpdate(controls, mappers, aliases, fetch, e, [kind], ms, k)
  {
    if ms != [] {
      LoadKindItemsSpec(controls, mappers, aliases, fetch, e, kind, ms[..|ms| - 1]);
      forall k ensures IsMemberControl(ms, k) <==>
        IsMemberControl(ms[..|ms| - 1], k) || ms[|ms| - 1] == ControlChild(k) {
        IsMemberControlSnoc(ms, k);
      }
    }
  }

  /** The `foreach (static::$itemControls ...)` loop for one entity. */
  function LoadEntityItems(controls: map<ControlRef, Control>, mappers: map<ControlRef, ItemsMapper>,
                           aliases: map<ControlRef, string>, fetch: ItemsRequest -> Items,
                           e: EntityRef, kinds: seq<ControlKind>, ms: seq<Child>): (r: map<ControlRef, Control>)
  {
    if kinds == [] then controls
    else
      var prev := LoadEntityItems(controls, mappers, aliases, fetch, e, kinds[..|kinds| - 1], ms);
      LoadKindItems(prev, mappers, aliases, fetch, e, kinds[|kinds| - 1], ms)
  }

  /** Loading the items of several control classes updates exactly the
      direct children of those classes that have a stored closure. */
  lemma {:induction false} LoadEntityItemsSpec(controls: map<ControlRef, Control>, mappers: map<ControlRef, ItemsMapper>,
                                               aliases: map<ControlRef, string>, fetch: ItemsRequest -> Items,
                                               e: EntityRef, kinds: seq<ControlKind>, ms: seq<Child>)
    ensures var r := LoadEntityItems(controls, mappers, aliases, fetch, e, kinds, ms);
      && r.Keys == controls.Keys
      && forall k :: k in controls ==> r[k] == ItemsUpdate(controls, mappers, aliases, fetch, e, kinds, ms, k)
  {
    if kinds != [] {
      var init := kinds[..|kinds| - 1];
      LoadEntityItemsSpec(controls, mappers, aliases, fetch, e, init, ms);
      var prev := LoadEntityItems(controls, mappers, aliases, fetch, e, init, ms);
      LoadKindItemsSpec(prev, mappers, aliases, fetch, e, kinds[|kinds| - 1], ms);
      assert kinds == init + [kinds[|kinds| - 1]];
    }
  }

  /** The first `n` iterations of `loadControlItems()`'s outer loop over
      `es`. */
  function LoadItemsFirst(w: World, mappers: map<ControlRef, ItemsMapper>,
                          aliases: map<ControlRef, string>, components: map<EntityRef, ContainerRef>,
                          fetch: ItemsRequest -> Items, es: seq<EntityRef>, n: nat): (w': World)
    requires n <= |es|
  {
    if n == 0 then w
    else
      var prev := LoadItemsFirst(w, mappers, aliases, components, fetch, es, n - 1);
      var e := es[n - 1];
      if e in components && components[e] in prev.containers
      then prev.(controls := LoadEntityItems(prev.controls, mappers, aliases, fetch, e, ItemControls,
                                             prev.containers[components[e]].members))
      else prev
  }

  /** `loadControlItems()`: every bound entity in binding order. */
  function LoadItemsAll(w: World, mappers: map<ControlRef, ItemsMapper>,
                        aliases: map<ControlRef, string>, components: map<EntityRef, ContainerRef>,
                        fetch: ItemsRequest -> Items, es: seq<EntityRef>): (w': World)
  {
    LoadItemsFirst(w, mappers, aliases, components, fetch, es, |es|)
  }

  /** Item loading for one entity changes only the items of choice
      controls that have a stored closure. */
  lemma EntityItemsFrame(controls: map<ControlRef, Control>, mappers: map<ControlRef, ItemsMapper>,
                         aliases: map<ControlRef, string>, fetch: ItemsRequest -> Items,
                         e: EntityRef, ms: seq<Child>)
    ensures var r := LoadEntityItems(controls, mappers, aliases, fetch, e, ItemControls, ms);
      && r.Keys == controls.Keys
      && (forall k :: k in controls ==> r[k] == controls[k].(items := r[k].items))
      && (forall k :: k in controls && (k !in mappers || controls[k].kind !in ItemControls) ==> r[k] == controls[k])
  {
    LoadEntityItemsSpec(controls, mappers, aliases, fetch, e, ItemControls, ms);
  }

  /** `w'` differs from `w` only in the items of controls, and only in those
      of choice controls that have a stored closure. */
  ghost predicate ItemsOnlyChanged(w: World, w': World, mappers: map<ControlRef, ItemsMapper>)
  {
    && w'.objects == w.objects && w'.containers == w.containers && w'.next == w.next
    && w'.controls.Keys == w.controls.Keys
    && (forall k :: k in w.controls ==> w'.controls[k] == w.controls[k].(items := w'.controls[k].items))
    && (forall k :: k in w.controls && (k !in mappers || w.controls[k].kind !in ItemControls) ==>
          w'.controls[k] == w.controls[k])
  }

  /** Each iteration of the outer loop changes only the items of choice
      controls that have a closure, so the first `n` do too. */
  lemma {:induction false} LoadItemsFirstItemsOnly(w: World, mappers: map<ControlRef, ItemsMapper>,
                                                   aliases: map<ControlRef, string>, components: map<EntityRef, ContainerRef>,
                                                   fetch: ItemsRequest -> Items, es: seq<EntityRef>, n: nat)
    requires n <= |es|
    ensures ItemsOnlyChanged(w, LoadItemsFirst(w, mappers, aliases, components, fetch, es, n), mappers)
  {
    if n != 0 {
      var w' := LoadItemsFirst(w, mappers, aliases, components, fetch, es, n);
      var prev := LoadItemsFirst(w, mappers, aliases, components, fetch, es, n - 1);
      LoadItemsFirstItemsOnly(w, mappers, aliases, components, fetch, es, n - 1);
      var e := es[n - 1];
      if e in components && components[e] in prev.containers {
        EntityItemsFrame(prev.controls, mappers, aliases, fetch, e, prev.containers[components[e]].members);
        forall k | k in w.controls ensures w'.controls[k] == w.controls[k].(items := w'.controls[k].items) {
          assert w'.controls[k] == prev.controls[k].(items := w'.controls[k].items);
        }
      }
    }
  }

  /** The first `n` iterations of the outer loop change only the items of
      choice controls that have a closure. */
  lemma LoadItemsFirstFrame(w: World, mappers: map<ControlRef, ItemsMapper>,
                            aliases: map<ControlRef, string>, components: map<EntityRef, ContainerRef>,
                            fetch: ItemsRequest -> Items, es: seq<EntityRef>, n: nat)
    requires n <= |es|
    ensures var w' := LoadItemsFirst(w, mappers, aliases, components, fetch, es, n);
      && SameShape(w, w')
      && w'.objects == w.objects && w'.containers == w.containers
      && w'.controls.Keys == w.controls.Keys
      && (forall k :: k in w.controls ==> w'.controls[k] == w.controls[k].(items := w'.controls[k].items))
      && (forall k :: k in w.controls && (k !in mappers || w.controls[k].kind !in ItemControls) ==>
            w'.controls[k] == w.controls[k])
  {
    var w' := LoadItemsFirst(w, mappers, aliases, components, fetch, es, n);
    LoadItemsFirstItemsOnly(w, mappers, aliases, components, fetch, es, n);
    ItemsOnlyShape(w, w');
  }

  /** A world that differs from another only in control items has the same
      shape. */
  lemma ItemsOnlyShape(w: World, w': World)
    requires w'.objects == w.objects && w'.containers == w.containers && w'.next == w.next
    requires w'.controls.Keys == w.controls.Keys
    requires forall k :: k in w.controls ==> w'.controls[k] == w.controls[k].(items := w'.controls[k].items)
    ensures SameShape(w, w')
  {
  }

  /** `loadControlItems()` changes only the items of choice controls that
      have a stored closure; objects, containers and control values stay. */
  lemma LoadItemsAllFrame(w: World, mappers: map<ControlRef, ItemsMapper>,
                          aliases: map<ControlRef, string>, components: map<EntityRef, ContainerRef>,
                          fetch: ItemsRequest -> Items, es: seq<EntityRef>)
    ensures var w' := LoadItemsAll(w, mappers, aliases, components, fetch, es);
      && SameShape(w, w')
      && w'.objects == w.objects && w'.containers == w.containers
      && w'.controls.Keys == w.controls.Keys
      && (forall k :: k in w.controls ==> w'.controls[k] == w.controls[k].(items := w'.controls[k].items))
      && (forall k :: k in w.controls && (k !in mappers || w.controls[k].kind !in ItemControls) ==>
            w'.controls[k] == w.controls[k])
  {
    LoadItemsFirstFrame(w, mappers, aliases, components, fetch, es, |es|);
  }

  /** For a single bound entity, every choice control among its container's
      direct children that has a stored closure gets exactly the items of
      that closure's call. */
  lemma LoadItemsOneEntity(w: World, mappers: map<ControlRef, ItemsMapper>,
                           aliases: map<ControlRef, string>, components: map<EntityRef, ContainerRef>,
                           fetch: ItemsRequest -> Items, e: EntityRef, k: ControlRef)
    requires e in components && components[e] in w.containers && k in w.controls
    requires IsMemberControl(w.containers[components[e]].members, k)
    requires k in mappers && w.controls[k].kind in ItemControls
    ensures k in LoadItemsAll(w, mappers, aliases, components, fetch, [e]).controls
    ensures LoadItemsAll(w, mappers, aliases, components, fetch, [e]).controls[k].items ==
      fetch(RequestOf(mappers[k], e, FieldOf(aliases, k, w.controls[k].name)))
  {
    assert LoadItemsFirst(w, mappers, aliases, components, fetch, [e], 0) == w;
    LoadEntityItemsSpec(w.controls, mappers, aliases, fetch, e, ItemControls, w.containers[components[e]].members);
  }

  /************************ metadata queries ************************/

  /** `isTargetCollection`: the field is a to-many association. */
  predicate IsCollectionValued(schema: ClassSchema, field: string)
  {
    field in schema.associations && schema.associations[field].ToMany?
  }

  /** `getTargetClassName`: the target of an association; Doctrine's
      `getAssociationTargetClass` throws for anything else. */
  function TargetClass(schema: ClassSchema, field: string): (r: Result<string>)
    ensures r.Ok? <==> field in schema.associations
    ensures r.Ok? ==> r.value == schema.associations[field].target
    ensures r.Err? ==> r.error == InvalidArgument
  {
    if field in schema.associations then Ok(schema.associations[field].target) else Err(InvalidArgument)
  }

  /** PHP `empty()` of a value. */
  predicate IsEmptyValue(v: Value)
  {
    match v
    case Null => true
    case Text(s) => !Truthy(s)
    case Number(n) => n == 0
    case Ref(_) => false
    case Group(_) => false
  }

  /** `array_filter` of the identifier values: the identifier fields whose
      value is not empty, with their values. */
  function NonEmptyIds(identifiers: seq<string>, values: map<string, Value>): (ids: map<string, Value>)
  {
    map f | f in identifiers && f in values && !IsEmptyValue(values[f]) :: values[f]
  }

  /** `getIdentifierValues($entity)`. */
  function IdentifierValues(schema: ClassSchema, fields: map<string, Value>): (ids: map<string, Value>)
    ensures forall f :: f in ids <==> f in schema.identifiers && !IsEmptyValue(FieldValue(fields, f))
    ensures forall f :: f in ids ==> ids[f] == FieldValue(fields, f)
  {
    NonEmptyIds(schema.identifiers, fields)
  }

  /** Submitting an entity's own identifier values as form values finds
      the same identifiers again. */
  lemma IdentifierValuesRoundTrip(schema: ClassSchema, fields: map<string, Value>)
    ensures NonEmptyIds(schema.identifiers, IdentifierValues(schema, fields)) == IdentifierValues(schema, fields)
  {
  }

  /** `getCollectionEntry`: with no non-empty identifier among the values
      there is nothing to look up; otherwise the entity the parent class's
      DAO finds is returned when the collection contains it. */
  function CollectionEntry(parentSchema: ClassSchema, parentClass: string, members: seq<EntityRef>,
                           values: map<string, Value>,
                           find: (string, map<string, Value>) -> Option<EntityRef>): (r: Option<EntityRef>)
    ensures NonEmptyIds(parentSchema.identifiers, values) == map[] ==> r.None?
    ensures r.Some? ==> r.value in members && r == find(parentClass, NonEmptyIds(parentSchema.identifiers, values))
    ensures (NonEmptyIds(parentSchema.identifiers, values) != map[] &&
             find(parentClass, NonEmptyIds(parentSchema.identifiers, values)).Some? &&
             find(parentClass, NonEmptyIds(parentSchema.identifiers, values)).value in members) ==> r.Some?
  {
    var ids := NonEmptyIds(parentSchema.identifiers, values);
    if ids == map[] then None
    else
      match find(parentClass, ids)
      case Some(x) => if x in members then Some(x) else None
      case None => None
  }

  /************************ factory helpers ************************/

  /** A new instance of a mapped class: each mapped property holds the value
      the constructor or the property default gives it, else NULL. */
  function Blank(schema: ClassSchema): (fields: map<string, Value>)
    ensures fields.Keys == schema.fields
    ensures forall f :: f in fields && f in schema.defaults ==> fields[f] == schema.defaults[f]
    ensures forall f :: f in fields && f !in schema.defaults ==> fields[f] == Null
  {
    map f | f in schema.fields :: FieldValue(schema.defaults, f)
  }

  /** `$object instanceof $target` for an entity of class `cls`. */
  predicate InstanceOf(doctrine: map<string, ClassSchema>, cls: string, target: string)
  {
    cls == target || (cls in doctrine && target in doctrine[cls].parents)
  }

  /** `getRelated($container, $field)` on the container's entity `e`. */
  function Related(w: World, doctrine: map<string, ClassSchema>, e: EntityRef, field: string): (r: Result<(World, EntityRef)>)
    requires WorldValid(w, doctrine) && DoctrineValid(doctrine) && e in w.objects && w.objects[e].Entity?
  {
    var ent := w.objects[e];
    var schema := doctrine[ent.cls];
    if IsCollectionValued(schema, field) then Err(InvalidState)
    else match TargetClass(schema, field)
      case Err(err) => Err(err)
      case Ok(target) =>
        var v := FieldValue(ent.fields, field);
        if v.Ref? && v.obj in w.objects && w.objects[v.obj].Entity? && InstanceOf(doctrine, w.objects[v.obj].cls, target)
        then Ok((w, v.obj))
        else
          var n := w.next;
          Ok((World(w.objects[n := Entity(target, Blank(doctrine[target]))][e := Entity(ent.cls, ent.fields[field := Ref(n)])],
                    w.containers, w.controls, n + 1), n))
  }

  /** `getRelated` fails exactly on to-many associations (InvalidState) and
      on names that are no association (InvalidArgument); on success the
      parent's field holds an instance of the target class, which is the
      entity already there exactly when that one is such an instance, and
      otherwise a new entity of the target class; nothing else changes. */
  lemma RelatedSpec(w: World, doctrine: map<string, ClassSchema>, e: EntityRef, field: string)
    requires WorldValid(w, doctrine) && DoctrineValid(doctrine) && e in w.objects && w.objects[e].Entity?
    ensures var schema := doctrine[w.objects[e].cls];
      && (Related(w, doctrine, e, field) == Err(InvalidState) <==> IsCollectionValued(schema, field))
      && (Related(w, doctrine, e, field) == Err(InvalidArgument) <==> field !in schema.associations)
    ensures Related(w, doctrine, e, field).Ok? ==>
      var (w', r) := Related(w, doctrine, e, field).value;
      var target := doctrine[w.objects[e].cls].associations[field].target;
      && WorldValid(w', doctrine)
      && r in w'.objects && w'.objects[r].Entity? && InstanceOf(doctrine, w'.objects[r].cls, target)
      && FieldValue(w'.objects[e].fields, field) == Ref(r)
      && (r in w.objects <==>
            var v := FieldValue(w.objects[e].fields, field);
            v.Ref? && v.obj in w.objects && w.objects[v.obj].Entity? && InstanceOf(doctrine, w.objects[v.obj].cls, target))
      && (r in w.objects ==> w' == w)
      && (r !in w.objects ==> r == w.next && w'.objects[r] == Entity(target, Blank(doctrine[target])))
      && w'.objects[e] == w.objects[e].(fields := w.objects[e].fields[field := Ref(r)])
      && (forall o :: o in w.objects && o != e ==> w'.objects[o] == w.objects[o])
  {
    var ent := w.objects[e];
    var schema := doctrine[ent.cls];
    if Related(w, doctrine, e, field).Ok? {
      var (w', r) := Related(w, doctrine, e, field).value;
      if r in w.objects {
        assert FieldValue(ent.fields, field) == Ref(r);
        assert ent.fields[field := Ref(r)] == ent.fields;
      }
    }
  }

  /** Asking for the same related entity again returns it and changes
      nothing. */
  lemma RelatedIdempotent(w: World, doctrine: map<string, ClassSchema>, e: EntityRef, field: string)
    requires WorldValid(w, doctrine) && DoctrineValid(doctrine) && e in w.objects && w.objects[e].Entity?
    requires Related(w, doctrine, e, field).Ok?
    ensures var (w', r) := Related(w, doctrine, e, field).value;
      Related(w', doctrine, e, field) == Ok((w', r))
  {
    RelatedSpec(w, doctrine, e, field);
  }

  /** `getCollection($entity, $field)`. */
  function CollectionOf(w: World, doctrine: map<string, ClassSchema>, e: EntityRef, field: string): (r: Result<(World, EntityRef)>)
    requires WorldValid(w, doctrine) && e in w.objects && w.objects[e].Entity?
  {
    var ent := w.objects[e];
    if !IsCollectionValued(doctrine[ent.cls], field) then Err(InvalidState)
    else
      var v := FieldValue(ent.fields, field);
      if v.Ref? && v.obj in w.objects && w.objects[v.obj].Collection?
      then Ok((w, v.obj))
      else
        var n := w.next;
        Ok((World(w.objects[n := Collection([])][e := Entity(ent.cls, ent.fields[field := Ref(n)])],
                  w.containers, w.controls, n + 1), n))
  }

  /** `getCollection` fails exactly when the field is no to-many
      association; on success the field holds a collection, which is the one
      already there or a new empty one, and nothing else changes. */
  lemma CollectionOfSpec(w: World, doctrine: map<string, ClassSchema>, e: EntityRef, field: string)
    requires WorldValid(w, doctrine) && e in w.objects && w.objects[e].Entity?
    ensures CollectionOf(w, doctrine, e, field).Err? <==> !IsCollectionValued(doctrine[w.objects[e].cls], field)
    ensures CollectionOf(w, doctrine, e, field).Err? ==> CollectionOf(w, doctrine, e, field).error == InvalidState
    ensures CollectionOf(w, doctrine, e, field).Ok? ==>
      var (w', r) := CollectionOf(w, doctrine, e, field).value;
      && WorldValid(w', doctrine)
      && r in w'.objects && w'.objects[r].Collection?
      && FieldValue(w'.objects[e].fields, field) == Ref(r)
      && (r in w.objects ==> w' == w)
      && (r !in w.objects ==> r == w.next && w'.objects[r] == Collection([]))
      && (forall o :: o in w.objects && o != e ==> w'.objects[o] == w.objects[o])
  {
    var ent := w.objects[e];
    if CollectionOf(w, doctrine, e, field).Ok? {
      var (w', r) := CollectionOf(w, doctrine, e, field).value;
      if r in w.objects {
        assert ent.fields[field := Ref(r)] == ent.fields;
      }
    }
  }

  /************************ mappers ************************/

  /** What `setControlMapper` is given as `$items`. */
  datatype ItemsArg =
    | FieldName(name: string)  // a string
    | Callable(callback: nat)  // anything `is_callable` accepts that is no string
    | Unusable                 // anything else

  /** The first bound entity at or after `from`, in binding order, whose
      container is `parent`. */
  function FirstBoundFrom(entities: seq<EntityRef>, components: map<EntityRef, ContainerRef>,
                          parent: Option<ContainerRef>, from: nat): (r: Option<nat>)
    requires from <= |entities|
    requires forall i :: 0 <= i < |entities| ==> entities[i] in components
    ensures r.Some? ==> from <= r.value < |entities| && parent == Some(components[entities[r.value]])
    ensures r.Some? ==> forall j :: from <= j < r.value ==> parent != Some(components[entities[j]])
    ensures r.None? ==> forall j :: from <= j < |entities| ==> parent != Some(components[entities[j]])
    decreases |entities| - from
  {
    if from == |entities| then None
    else if parent == Some(components[entities[from]]) then Some(from)
    else FirstBoundFrom(entities, components, parent, from + 1)
  }

  /** The first bound entity, in binding order, whose container is `parent`. */
  function FirstBoundTo(entities: seq<EntityRef>, components: map<EntityRef, ContainerRef>,
                        parent: Option<ContainerRef>): (r: Option<nat>)
    requires forall i :: 0 <= i < |entities| ==> entities[i] in components
    ensures r.Some? ==> r.value < |entities| && parent == Some(components[entities[r.value]])
    ensures r.Some? ==> forall j :: 0 <= j < r.value ==> parent != Some(components[entities[j]])
    ensures r.None? ==> forall j :: 0 <= j < |entities| ==> parent != Some(components[entities[j]])
  {
    FirstBoundFrom(entities, components, parent, 0)
  }

  /** `getControlEntityClass`: the target class of the control's field on
      the first entity bound to the control's container; `None` when no
      entity is bound there. */
  function ControlEntityClass(w: World, doctrine: map<string, ClassSchema>, entities: seq<EntityRef>,
                              components: map<EntityRef, ContainerRef>, aliases: map<ControlRef, string>,
                              k: ControlRef): Result<Option<string>>
    requires Bound(w, doctrine, components, entities) && k in w.controls
  {
    match FirstBoundTo(entities, components, w.controls[k].parent)
    case None => Ok(None)
    case Some(i) =>
      match TargetClass(doctrine[w.objects[entities[i]].cls], ControlField(w, aliases, k))
      case Ok(t) => Ok(Some(t))
      case Err(err) => Err(err)
  }

  /** The closure `setControlMapper` stores, or the exception it throws. */
  function MapperFor(w: World, doctrine: map<string, ClassSchema>, entities: seq<EntityRef>,
                     components: map<EntityRef, ContainerRef>, aliases: map<ControlRef, string>,
                     k: ControlRef, items: ItemsArg, key: string): Result<ItemsMapper>
    requires Bound(w, doctrine, components, entities) && DoctrineValid(doctrine) && k in w.controls
  {
    match ControlEntityClass(w, doctrine, entities, components, aliases, k)
    case Err(err) => Err(err)
    case Ok(None) => Err(InvalidArgument)   // `getDao(NULL)`: not a class name
    case Ok(Some(target)) =>
      match items
      case FieldName(name) =>
        if name in doctrine[target].fields then Ok(PairsMapper(target, name, key)) else Err(InvalidArgument)
      case Callable(cb) => Ok(CallbackMapper(cb, target, key))
      case Unusable => Err(InvalidArgument)
  }

  /** `setControlMapper` succeeds exactly when the control's container has a
      bound entity whose field for the control is an association, and the
      items are a callable or a mapped field of the association's target;
      the closure then queries the target class's DAO with the given key. */
  lemma MapperForSpec(w: World, doctrine: map<string, ClassSchema>, entities: seq<EntityRef>,
                      components: map<EntityRef, ContainerRef>, aliases: map<ControlRef, string>,
                      k: ControlRef, items: ItemsArg, key: string)
    requires Bound(w, doctrine, components, entities) && DoctrineValid(doctrine) && k in w.controls
    ensures var r := MapperFor(w, doctrine, entities, components, aliases, k, items, key);
      var i := FirstBoundTo(entities, components, w.controls[k].parent);
      && (r.Ok? <==>
            i.Some? &&
            ControlField(w, aliases, k) in doctrine[w.objects[entities[i.value]].cls].associations &&
            (items.Callable? ||
             (items.FieldName? &&
              items.name in doctrine[doctrine[w.objects[entities[i.value]].cls].associations[ControlField(w, aliases, k)].target].fields)))
      && (r.Ok? ==>
            r.value.key == key &&
            r.value.dao == doctrine[w.objects[entities[i.value]].cls].associations[ControlField(w, aliases, k)].target &&
            (r.value.PairsMapper? <==> items.FieldName?))
      && (r.Err? ==> r.error == InvalidArgument)
  {
  }
}
