/** The extra information attached to a user identity. Its declared
    properties (`identity`, `phone`, `data`) are private, so reads and
    writes from outside go through the magic accessors, which give a
    declared property that is set (non-`NULL`) precedence over the entry
    of the same name in the `data` array.

    PHP guards each magic method against re-entry separately, per kind.
    Inside `__get`, `__set` and `__unset`, the test `isset($this->{$name})`
    therefore sees a declared property directly, but for any other name it
    calls `__isset`, which answers from `data`. When that answer is yes,
    the accessor reads or writes `$this->{$name}` under its own guard,
    which creates a public property of that name on the object. From then
    on that property is used directly and the magic methods are bypassed
    for the name. `dynamic` holds these properties. Objects are `nat`
    handles, and `Mixed::isSerializable` is a predicate given to the
    object. */
module Users {
  import opened Common

  /** A PHP value an info object can hold. */
  datatype Value = Null | Text(text: string) | Number(number: int) | Object(handle: nat) | Array(entries: map<string, Value>)

  // -------------------------------------------------- the `data` array

  /** `$data[$name]` read: the entry, or `NULL` when there is none. */
  function EntryOf(data: Value, name: string): Value
  {
    if data.Array? && name in data.entries then data.entries[name] else Null
  }

  /** `$data[$name] = $value`: an array gets the entry; `NULL` and "" turn
      into an array holding only it; on any other value the write fails. */
  function PutEntry(data: Value, name: string, value: Value): (r: Result<Value>)
    ensures r.Ok? <==> data.Array? || data == Null || data == Text("")
  {
    if data.Array? then Ok(Array(data.entries[name := value]))
    else if data == Null || data == Text("") then Ok(Array(map[name := value]))
    else Err(InvalidState)
  }

  /** `unset($data[$name])`: an array loses the entry, `NULL` stays `NULL`;
      on any other value the unset fails. */
  function RemoveEntry(data: Value, name: string): (r: Result<Value>)
    ensures r.Ok? <==> data.Array? || data == Null
  {
    if data.Array? then Ok(Array(data.entries - {name}))
    else if data == Null then Ok(Null)
    else Err(InvalidState)
  }

  /** A written entry reads back, and no other entry changes. */
  lemma PutEntrySpec(data: Value, name: string, value: Value, other: string)
    requires PutEntry(data, name, value).Ok?
    ensures EntryOf(PutEntry(data, name, value).value, name) == value
    ensures other != name ==> EntryOf(PutEntry(data, name, value).value, other) == EntryOf(data, other)
  {
  }

  /** A removed entry reads as `NULL`, and no other entry changes. */
  lemma RemoveEntrySpec(data: Value, name: string, other: string)
    requires RemoveEntry(data, name).Ok?
    ensures EntryOf(RemoveEntry(data, name).value, name) == Null
    ensures other != name ==> EntryOf(RemoveEntry(data, name).value, other) == EntryOf(data, other)
  {
  }

  // -------------------------------------------------------------- object

  /** One of the properties the class declares. */
  predicate Declared(name: string)
  {
    name == "identity" || name == "phone" || name == "data"
  }

  class IdentityInfo {
    /** This object, as the identity's `getInfo()` would return it. */
    const self: nat
    /** `Mixed::isSerializable`. */
    const isSerializable: Value -> bool
    var identity: Value
    var phone: Value
    var data: Value
    /** The public properties PHP created on the object at run time. */
    var dynamic: map<string, Value>

    /** A new info object: no identity, no phone, an empty `data` array,
        and no property beyond the declared ones. */
    constructor (self: nat, isSerializable: Value -> bool)
      ensures this.self == self && this.isSerializable == isSerializable
      ensures identity == Null && phone == Null && data == Array(map[]) && dynamic == map[]
    {
      this.self := self;
      this.isSerializable := isSerializable;
      identity, phone, data := Null, Null, Array(map[]);
      dynamic := map[];
    }

    /** The declared property called `name`, if there is one. */
    function Own(name: string): (r: Option<Value>)
      reads this
      ensures r.Some? <==> Declared(name)
    {
      if name == "identity" then Some(identity)
      else if name == "phone" then Some(phone)
      else if name == "data" then Some(data)
      else None
    }

    /** `isset($this->{$name})` on a declared property. */
    predicate OwnIsSet(name: string)
      reads this
    {
      Own(name).Some? && Own(name).value != Null
    }

    /** What the accessors evidently intend `__get` to give: the declared
        property when it is set, else the `data` entry. */
    function IntendedGet(name: string): Value
      reads this
    {
      if OwnIsSet(name) then Own(name).value else EntryOf(data, name)
    }

    /** What the accessors evidently intend `__isset` to answer. */
    predicate IntendedIsSet(name: string)
      reads this
    {
      OwnIsSet(name) || EntryOf(data, name) != Null
    }

    /** `$info->{$name}` read from outside. A declared property is served
        by `__get`, which gives it when it is set and the `data` entry
        otherwise. A public property PHP created is read directly. Any
        other name gives `NULL`: either `__isset` finds the `data` entry,
        and `__get` then returns the property it creates, which is `NULL`,
        or it does not, and the entry it returns is `NULL` too. */
    function Read(name: string): Value
      reads this
    {
      if Declared(name) then IntendedGet(name)
      else if name in dynamic then dynamic[name]
      else Null
    }

    /** `isset($info->{$name})` from outside. A public property PHP created
        is tested directly; every other name goes to `__isset`. */
    predicate IsSet(name: string)
      reads this
    {
      if Declared(name) then IntendedIsSet(name)
      else if name in dynamic then dynamic[name] != Null
      else EntryOf(data, name) != Null
    }

    /** `$info->{$name}` read from outside. For a name that is neither
        declared nor already a public property but has a `data` entry,
        `__get` creates the `NULL` property as a side effect. */
    method Get(name: string) returns (v: Value)
      modifies this`dynamic
      ensures v == old(Read(name)) && v == Read(name)
      ensures dynamic == (if !Declared(name) && name !in old(dynamic) && EntryOf(data, name) != Null
                          then old(dynamic)[name := Null] else old(dynamic))
    {
      if Declared(name) {
        if OwnIsSet(name) {
          return Own(name).value;
        }
        return EntryOf(data, name);
      }
      if name in dynamic {
        return dynamic[name];
      }
      if EntryOf(data, name) != Null {
        dynamic := dynamic[name := Null];
        return Null;
      }
      v := EntryOf(data, name);
    }

    /** `setIdentity($identity)`: accepted only from the identity whose
        `getInfo()` is this object; `infoOfIdentity` is that call's result. */
    method SetIdentity(identityHandle: nat, infoOfIdentity: nat) returns (r: Result<()>)
      modifies this`identity
      ensures infoOfIdentity != self ==> r == Err(InvalidArgument) && identity == old(identity)
      ensures infoOfIdentity == self ==> r == Ok(()) && identity == Object(identityHandle)
    {
      if infoOfIdentity != self {
        return Err(InvalidArgument);
      }
      identity := Object(identityHandle);
      r := Ok(());
    }

    /** `$info->{$name} = $value` from outside. A public property PHP
        created is written directly. Otherwise `__set` runs: a value that
        cannot be serialized is refused before anything changes. A declared
        property that is set is overwritten, and an unset one sends the
        value into `data`, so a `NULL` phone is written to `data['phone']`.
        An undeclared name whose `data` entry is set becomes a public
        property holding the value; any other name goes into `data`. */
    method Set(name: string, value: Value) returns (r: Result<()>)
      modifies this`identity, this`phone, this`data, this`dynamic
      ensures !Declared(name) && name in old(dynamic) ==>
        r == Ok(()) && dynamic == old(dynamic)[name := value] &&
        identity == old(identity) && phone == old(phone) && data == old(data)
      ensures (Declared(name) || name !in old(dynamic)) && !isSerializable(value) ==> r == Err(NotImplemented)
      ensures r.Err? ==> identity == old(identity) && phone == old(phone) && data == old(data) && dynamic == old(dynamic)
      ensures isSerializable(value) && old(OwnIsSet(name)) ==> (
        r == Ok(()) && dynamic == old(dynamic) &&
        identity == (if name == "identity" then value else old(identity)) &&
        phone == (if name == "phone" then value else old(phone)) &&
        data == (if name == "data" then value else old(data)))
      ensures isSerializable(value) && !Declared(name) && name !in old(dynamic) && old(EntryOf(data, name)) != Null ==>
        r == Ok(()) && dynamic == old(dynamic)[name := value] &&
        identity == old(identity) && phone == old(phone) && data == old(data)
      ensures isSerializable(value) && !old(OwnIsSet(name)) && (Declared(name) || (name !in old(dynamic) && old(EntryOf(data, name)) == Null)) ==> (
        r.Ok? == PutEntry(old(data), name, value).Ok? && identity == old(identity) && phone == old(phone) &&
        dynamic == old(dynamic) && (r.Ok? ==> data == PutEntry(old(data), name, value).value))
      ensures r.Ok? && value != Null && (name != "data" || old(OwnIsSet(name))) &&
              (Declared(name) || name in old(dynamic) || old(EntryOf(data, name)) != Null)
        ==> Read(name) == value
      ensures r.Ok? && !Declared(name) && name !in old(dynamic) && old(EntryOf(data, name)) == Null ==>
        Read(name) == Null && (IsSet(name) <==> value != Null)
      ensures r.Ok? && name != "data" ==> forall n :: n != name && n != "data" ==> Read(n) == old(Read(n)) && (IsSet(n) <==> old(IsSet(n)))
    {
      if !Declared(name) && name in dynamic {
        dynamic := dynamic[name := value];
        return Ok(());
      }
      if !isSerializable(value) {
        return Err(NotImplemented);
      }
      if Declared(name) && OwnIsSet(name) {
        if name == "identity" {
          identity := value;
        } else if name == "phone" {
          phone := value;
        } else {
          data := value;
        }
        return Ok(());
      }
      if !Declared(name) && EntryOf(data, name) != Null {
        dynamic := dynamic[name := value];
        return Ok(());
      }
      var put := PutEntry(data, name, value);
      if put.Err? {
        return Err(put.error);
      }
      forall n | n != name ensures EntryOf(put.value, n) == EntryOf(data, n) {
        PutEntrySpec(data, name, value, n);
      }
      PutEntrySpec(data, name, value, name);
      data := put.value;
      r := Ok(());
    }

    /** `unset($info->{$name})` from outside. A public property PHP created
        is removed directly. Otherwise `__unset` runs: a declared property
        that is set becomes `NULL`, which lets the `data` entry of that name
        show through, and an unset one has its `data` entry removed. For an
        undeclared name whose `data` entry is set, the `NULL` assignment
        re-enters `__set`, which refuses `NULL` when it cannot be serialized
        and otherwise creates a `NULL` public property, keeping the entry.
        Any other name has its `data` entry removed. */
    method Unset(name: string) returns (r: Result<()>)
      modifies this`identity, this`phone, this`data, this`dynamic
      ensures !Declared(name) && name in old(dynamic) ==>
        r == Ok(()) && dynamic == old(dynamic) - {name} &&
        identity == old(identity) && phone == old(phone) && data == old(data)
      ensures r.Err? ==> identity == old(identity) && phone == old(phone) && data == old(data) && dynamic == old(dynamic)
      ensures old(OwnIsSet(name)) ==> (
        r == Ok(()) && dynamic == old(dynamic) &&
        identity == (if name == "identity" then Null else old(identity)) &&
        phone == (if name == "phone" then Null else old(phone)) &&
        data == (if name == "data" then Null else old(data)))
      ensures !Declared(name) && name !in old(dynamic) && old(EntryOf(data, name)) != Null ==>
        (r.Ok? <==> isSerializable(Null)) &&
        (r.Err? ==> r.error == NotImplemented) &&
        (r.Ok? ==> dynamic == old(dynamic)[name := Null] && identity == old(identity) && phone == old(phone) && data == old(data))
      ensures !old(OwnIsSet(name)) && (Declared(name) || (name !in old(dynamic) && old(EntryOf(data, name)) == Null)) ==> (
        r.Ok? == RemoveEntry(old(data), name).Ok? && identity == old(identity) && phone == old(phone) &&
        dynamic == old(dynamic) && (r.Ok? ==> data == RemoveEntry(old(data), name).value))
      ensures r.Ok? && name != "data" ==>
        Read(name) == (if Declared(name) && old(OwnIsSet(name)) then old(EntryOf(data, name)) else Null)
      ensures r.Ok? && name != "data" ==> forall n :: n != name && n != "data" ==> Read(n) == old(Read(n)) && (IsSet(n) <==> old(IsSet(n)))
    {
      if !Declared(name) && name in dynamic {
        dynamic := dynamic - {name};
        return Ok(());
      }
      if Declared(name) && OwnIsSet(name) {
        if name == "identity" {
          identity := Null;
        } else if name == "phone" {
          phone := Null;
        } else {
          data := Null;
        }
        return Ok(());
      }
      if !Declared(name) && EntryOf(data, name) != Null {
        if !isSerializable(Null) {
          return Err(NotImplemented);
        }
        dynamic := dynamic[name := Null];
        return Ok(());
      }
      var removed := RemoveEntry(data, name);
      if removed.Err? {
        return Err(removed.error);
      }
      forall n | n != name ensures EntryOf(removed.value, n) == EntryOf(data, n) {
        RemoveEntrySpec(data, name, n);
      }
      RemoveEntrySpec(data, name, name);
      data := removed.value;
      r := Ok(());
    }
  }

  /** `__isset` and `__get` agree (isset exactly when the read is not
      `NULL`) for every name except one that is neither declared nor a
      public property yet but has a `data` entry: there `isset` is true
      while the read gives `NULL`. */
  lemma IsSetIffGetNotNull(info: IdentityInfo, name: string)
    ensures (info.IsSet(name) <==> info.Read(name) != Null) <==>
      (Declared(name) || name in info.dynamic || EntryOf(info.data, name) == Null)
  {
  }

  /** A name that is neither declared nor a public property reads as
      `NULL` whatever `data` holds, while `isset` answers from `data`. */
  lemma UndeclaredReadsNull(info: IdentityInfo, name: string)
    requires !Declared(name) && name !in info.dynamic
    ensures info.Read(name) == Null
    ensures info.IsSet(name) <==> EntryOf(info.data, name) != Null
  {
  }

  /** As written, a value set under an undeclared name on a new object
      goes into `data`, but reading it back gives `NULL` and leaves a
      `NULL` public property behind. */
  method NicknameReadsNull(serializable: Value -> bool) returns (got: Value)
    requires serializable(Text("Bob"))
    ensures got == Null
  {
    var info := new IdentityInfo(7, serializable);
    var r := info.Set("nickname", Text("Bob"));
    assert info.data == Array(map["nickname" := Text("Bob")]);
    got := info.Get("nickname");
  }

  /** With the intended reading, `__isset` holds exactly when `__get` gives
      something other than `NULL`. */
  lemma IntendedIsSetIffGetNotNull(info: IdentityInfo, name: string)
    ensures info.IntendedIsSet(name) <==> info.IntendedGet(name) != Null
  {
  }

  /** With the intended reading, an undeclared name is served by `data`
      alone, so a value written there reads back. */
  lemma IntendedUndeclaredReadsData(info: IdentityInfo, name: string, value: Value)
    requires !Declared(name)
    ensures info.IntendedGet(name) == EntryOf(info.data, name)
    ensures info.IntendedIsSet(name) <==> EntryOf(info.data, name) != Null
    ensures PutEntry(info.data, name, value).Ok? ==> EntryOf(PutEntry(info.data, name, value).value, name) == value
  {
  }

  /** The phone of a new object is `NULL`, so setting it fills
      `data['phone']` and leaves the property `NULL`; the value still
      reads back, from `data`. */
  method PhoneGoesToData(serializable: Value -> bool, number: string) returns (got: Value)
    requires serializable(Text(number))
    ensures got == Text(number)
  {
    var info := new IdentityInfo(7, serializable);
    var r := info.Set("phone", Text(number));
    assert info.phone == Null && info.data == Array(map["phone" := Text(number)]);
    got := info.Get("phone");
  }
}
