/** Asset package bookkeeping of the Assetic extension: assets are
    registered under the presenter, component or required-by lists, and
    publishing merges the parts of a package, resolves the packages an asset
    requires before the asset itself, records what was resolved per file
    extension and writes the assets that are not fresh.

    The asset manager is the table `assets`: the name it hands out for the
    k-th asset it was given is `k`. The storage is two fixed functions, the
    URL of an asset and whether its written copy is fresh; writes are
    recorded in a log. */
module Formulae {
  import opened Common
  import opened OrderedMap

  const Stylesheet: string := "css"
  const Javascript: string := "js"

  /** The name the asset manager returned for an asset. */
  type AssetName = nat

  /** An Assetic asset: a file, or a collection of assets written as one. */
  datatype Asset = Leaf(source: string, target: string) | Collection(parts: seq<Asset>, target: string)

  /** The options array of an asset; a missing key and a `NULL` value are the
      same here. */
  datatype Options = Options(output: Option<string>, name: Option<string>, assetType: Option<string>, requiredBy: Option<seq<string>>)

  const NoOptions := Options(None, None, None, None)

  /** One row of the asset manager: the asset, its filter names, its options. */
  datatype Entry = Entry(asset: Asset, filters: seq<string>, options: Options)

  /** What the presenter and component lists hold once flattened: an asset
      name, or a scalar that `requireAsset` stored in place of a list. */
  datatype Handle = Name(id: AssetName) | Raw(text: Option<string>)

  /** A value of `componentTypes`: a list of asset names, or the version
      string that `requireAsset` puts under an asset name. */
  datatype TypeEntry = Names(ids: seq<AssetName>) | Version(version: Option<string>)

  /** `getAssetInfo`: source path of the first file, storage URL, options. */
  datatype Info = Info(source: string, src: string, options: Options)

  /** A write to the storage, with the filters ensured on the asset before. */
  datatype Written = Written(id: AssetName, filters: seq<string>)

  /** What publishing changes: the resolved tables and the storage. */
  datatype Published = Published(resolved: Assoc<string, Assoc<string, Info>>, written: seq<Written>)

  /** A run that may stop on an exception, with the state it reached. */
  datatype Run = Run(pub: Published, error: Option<Error>)

  /** What publishing reads and does not change. `filterError` is the
      exception `filterManager->get($name)` raises for a name, if any. */
  datatype Context = Context(assets: seq<Entry>, requiredBy: Assoc<string, seq<AssetName>>, debug: bool,
                             url: Asset -> string, isFresh: Asset -> bool, filterError: string -> Option<Error>)

  // ---------------------------------------------------------------- paths

  /** `pathinfo($p, PATHINFO_EXTENSION)`: what follows the last `.` of the
      last path segment, or "" when that segment has no `.`. */
  function Extension(p: string): (r: string)
  {
    var base := AfterLast(p, '/');
    if '.' in base then AfterLast(base, '.') else ""
  }

  /** The extension is a dot-free tail of the path's last segment: when
      that segment has a dot it is everything after the last one, and it is
      empty when the segment has none. */
  lemma ExtensionSpec(p: string)
    ensures '.' !in Extension(p) && '/' !in Extension(p)
    ensures |Extension(p)| <= |p| && Extension(p) == p[|p| - |Extension(p)|..]
    ensures '.' !in AfterLast(p, '/') ==> Extension(p) == ""
    ensures '.' in AfterLast(p, '/') ==>
      var b := AfterLast(p, '/');
      |Extension(p)| < |b| && b[|b| - |Extension(p)| - 1] == '.'
  {
    ExtensionTail(p);
    if '.' in AfterLast(p, '/') {
      ExtensionAfterDot(p);
    }
  }

  /** The extension is a dot-free and slash-free tail of the path. */
  lemma ExtensionTail(p: string)
    ensures '.' !in Extension(p) && '/' !in Extension(p)
    ensures |Extension(p)| <= |p| && Extension(p) == p[|p| - |Extension(p)|..]
    ensures '.' !in AfterLast(p, '/') ==> Extension(p) == ""
  {
    var base := AfterLast(p, '/');
    AfterLastSpec(p, '/');
    if '.' in base {
      var e := AfterLast(base, '.');
      AfterLastSpec(base, '.');
      SuffixOfSuffix(p, base, e);
      assert Extension(p) == e;
    } else {
      assert Extension(p) == "";
    }
  }

  /** In a last segment with a dot, the extension is preceded by a dot. */
  lemma ExtensionAfterDot(p: string)
    requires '.' in AfterLast(p, '/')
    ensures var b := AfterLast(p, '/');
      |Extension(p)| < |b| && b[|b| - |Extension(p)| - 1] == '.'
  {
    var b := AfterLast(p, '/');
    assert Extension(p) == AfterLast(b, '.');
    AfterLastSpec(b, '.');
  }

  /** A suffix of a suffix is a suffix, and has no character the outer
      suffix lacks. */
  lemma SuffixOfSuffix(p: string, base: string, e: string)
    requires |base| <= |p| && base == p[|p| - |base|..]
    requires |e| <= |base| && e == base[|base| - |e|..]
    ensures e == p[|p| - |e|..]
    ensures forall c :: c in e ==> c in base
  {
    forall c | c in e ensures c in base {
      var i :| 0 <= i < |e| && e[i] == c;
      assert base[|base| - |e| + i] == c;
    }
  }

  /** `$asset->setTargetPath($options['output'])` when the option is set. */
  function Retarget(a: Asset, options: Options): Asset
  {
    if options.output.Some? then a.(target := options.output.value) else a
  }

  /** The options `register` hands to the asset manager. */
  function Typed(a: Asset, options: Options): Options
  {
    options.(assetType := Some(Lower(Extension(Retarget(a, options).target))))
  }

  /** `register` stores the output option as the target path and the
      lower-cased extension of the resulting target as the type. */
  lemma RegisterOptionsSpec(a: Asset, options: Options)
    ensures options.output.Some? ==> Retarget(a, options).target == options.output.value
    ensures options.output.None? ==> Retarget(a, options) == a
    ensures Typed(a, options).assetType == Some(Lower(Extension(Retarget(a, options).target)))
    ensures Typed(a, options).(assetType := options.assetType) == options
  {
  }

  // -------------------------------------------------------- registration

  /** `$this->packagesRequiredBy[$r][] = $name` for each `r` in turn. */
  function AppendEach(t: Assoc<string, seq<AssetName>>, rs: seq<string>, n: AssetName): Assoc<string, seq<AssetName>>
  {
    if rs == [] then t else AppendTo(AppendEach(t, rs[..|rs| - 1], n), rs[|rs| - 1], n)
  }

  /** Every listed package gets the name appended once per time it is
      listed, after what its list already held; other packages keep
      their list. */
  lemma {:induction false} AppendEachSpec(t: Assoc<string, seq<AssetName>>, rs: seq<string>, n: AssetName, key: string)
    ensures key in rs ==> Get(AppendEach(t, rs, n), key) == Some(GetOr(t, key, []) + seq(multiset(rs)[key], _ => n))
    ensures key !in rs ==> Get(AppendEach(t, rs, n), key) == Get(t, key)
  {
    if rs != [] {
      var p := rs[..|rs| - 1];
      var r := rs[|rs| - 1];
      AppendEachSpec(t, p, n, key);
      var before := AppendEach(t, p, n);
      CountLast(rs, key);
      if key == r {
        GetPutSame(before, r, GetOr(before, r, []) + [n]);
        if key !in p {
          assert multiset(p)[key] == 0;
          assert GetOr(t, key, []) + seq(0, _ => n) == GetOr(t, key, []);
        }
        RepeatOneMore(GetOr(t, key, []), multiset(p)[key], n);
      } else {
        GetPutOther(before, r, GetOr(before, r, []) + [n], key);
      }
    }
  }

  /** Counting in a list, split off its last element. */
  lemma CountLast(rs: seq<string>, key: string)
    requires rs != []
    ensures multiset(rs)[key] == multiset(rs[..|rs| - 1])[key] + (if rs[|rs| - 1] == key then 1 else 0)
    ensures key in rs <==> key in rs[..|rs| - 1] || rs[|rs| - 1] == key
  {
    assert rs == rs[..|rs| - 1] + [rs[|rs| - 1]];
  }

  /** One more copy of `n` at the end. */
  lemma RepeatOneMore(pre: seq<AssetName>, k: nat, n: AssetName)
    ensures pre + seq(k, _ => n) + [n] == pre + seq(k + 1, _ => n)
  {
    assert seq(k, _ => n) + [n] == seq(k + 1, _ => n);
  }

  /** `$this->componentTypes[$type][] = $name`: a list grows; a missing
      entry, `NULL` or "" becomes a new list; appending to a non-empty
      string is a fatal error (`None`). */
  function AppendName(e: Option<TypeEntry>, n: AssetName): (r: Option<TypeEntry>)
  {
    match e
    case None => Some(Names([n]))
    case Some(Names(ids)) => Some(Names(ids + [n]))
    case Some(Version(v)) => if v.None? || v == Some("") then Some(Names([n])) else None
  }

  /** The name is appended to a list of names, and only a version string
      that is not empty refuses it. */
  lemma AppendNameSpec(e: Option<TypeEntry>, n: AssetName)
    ensures AppendName(e, n).None? <==> e.Some? && e.value.Version? && e.value.version.Some? && e.value.version.value != ""
    ensures AppendName(e, n).Some? ==> AppendName(e, n).value.Names? && n == AppendName(e, n).value.ids[|AppendName(e, n).value.ids| - 1]
    ensures e.Some? && e.value.Names? ==> AppendName(e, n) == Some(Names(e.value.ids + [n]))
  {
  }

  /** `!empty($options['requiredBy'])`. */
  predicate HasRequiredBy(options: Options)
  {
    options.requiredBy.Some? && options.requiredBy.value != []
  }

  // ----------------------------------------------------- package merging

  /** `$this->assetManager->getOptions($name)`; an unknown name has none. */
  function OptionsOf(am: seq<Entry>, h: Handle): Options
  {
    if h.Name? && h.id < |am| then am[h.id].options else NoOptions
  }

  /** `$this->assetManager->get($name)` for a name known to it. */
  function AssetOf(am: seq<Entry>, h: Handle): Asset
  {
    if h.Name? && h.id < |am| then am[h.id].asset else Leaf("", "")
  }

  /** The options are non-empty and carry a non-empty package name. */
  predicate IsPackaged(o: Options)
  {
    TruthyOpt(o.name)
  }

  /** The asset is a part of package `pkg` of type `t`. */
  predicate InPackage(am: seq<Entry>, h: Handle, pkg: string, t: Option<string>)
  {
    var o := OptionsOf(am, h);
    IsPackaged(o) && o.name == Some(pkg) && o.assetType == t
  }

  /** The parts `findPackageParts` returns, in list order. */
  function Parts(am: seq<Entry>, pkg: string, t: Option<string>, hs: seq<Handle>): (r: seq<Handle>)
    ensures |r| <= |hs|
  {
    if hs == [] then []
    else Parts(am, pkg, t, hs[..|hs| - 1]) + (if InPackage(am, hs[|hs| - 1], pkg, t) then [hs[|hs| - 1]] else [])
  }

  /** What `findPackageParts` leaves in the list it was given by reference. */
  function Others(am: seq<Entry>, pkg: string, t: Option<string>, hs: seq<Handle>): (r: seq<Handle>)
    ensures |r| <= |hs|
  {
    if hs == [] then []
    else Others(am, pkg, t, hs[..|hs| - 1]) + (if InPackage(am, hs[|hs| - 1], pkg, t) then [] else [hs[|hs| - 1]])
  }

  /** `findPackageParts` splits the list: the parts are exactly the names of
      the same package and type, the rest exactly the others, and nothing is
      lost or duplicated. */
  lemma {:induction false} PartsSpec(am: seq<Entry>, pkg: string, t: Option<string>, hs: seq<Handle>)
    ensures multiset(Parts(am, pkg, t, hs)) + multiset(Others(am, pkg, t, hs)) == multiset(hs)
    ensures forall h :: h in Parts(am, pkg, t, hs) ==> InPackage(am, h, pkg, t) && h.Name? && h.id < |am|
    ensures forall h :: h in Others(am, pkg, t, hs) ==> !InPackage(am, h, pkg, t)
  {
    if hs != [] {
      var p := hs[..|hs| - 1];
      PartsSpec(am, pkg, t, p);
      assert hs == p + [hs[|hs| - 1]];
    }
  }

  /** `array_merge` of two options arrays: keys of the second win. */
  function Override(a: Options, b: Options): (r: Options)
  {
    Options(if b.output.Some? then b.output else a.output,
            if b.name.Some? then b.name else a.name,
            if b.assetType.Some? then b.assetType else a.assetType,
            if b.requiredBy.Some? then b.requiredBy else a.requiredBy)
  }

  /** The options of a package: the first part's, merged with each later
      part's in turn. */
  function OverrideAll(o: Options, am: seq<Entry>, parts: seq<Handle>): Options
  {
    if parts == [] then o else Override(OverrideAll(o, am, parts[..|parts| - 1]), OptionsOf(am, parts[|parts| - 1]))
  }

  /** In a merged package the output of the last part that gives one wins;
      when no part gives one, the first asset's output stays. */
  lemma {:induction false} OverrideAllOutput(o: Options, am: seq<Entry>, parts: seq<Handle>)
    ensures (forall h :: h in parts ==> OptionsOf(am, h).output.None?) ==> OverrideAll(o, am, parts).output == o.output
    ensures forall i :: 0 <= i < |parts| && OptionsOf(am, parts[i]).output.Some? &&
                        (forall j :: i < j < |parts| ==> OptionsOf(am, parts[j]).output.None?) ==>
                        OverrideAll(o, am, parts).output == OptionsOf(am, parts[i]).output
  {
    if parts != [] {
      var p := parts[..|parts| - 1];
      OverrideAllOutput(o, am, p);
      assert forall h :: h in p ==> h in parts;
      forall i | 0 <= i < |parts| - 1 && OptionsOf(am, parts[i]).output.Some? &&
                 (forall j :: i < j < |parts| ==> OptionsOf(am, parts[j]).output.None?)
        ensures OverrideAll(o, am, parts).output == OptionsOf(am, parts[i]).output
      {
        assert p[i] == parts[i];
        assert forall j :: i < j < |p| ==> p[j] == parts[j];
      }
    }
  }

  /** The assets of the given names, in order. */
  function AssetsOf(am: seq<Entry>, hs: seq<Handle>): (r: seq<Asset>)
    ensures |r| == |hs|
  {
    if hs == [] then [] else AssetsOf(am, hs[..|hs| - 1]) + [AssetOf(am, hs[|hs| - 1])]
  }

  /** The outcome of one round of `mergeIntoPackages`: the name put on the
      merged list, the asset manager's table, the names still to visit. */
  datatype Step = Step(out: Handle, assets: seq<Entry>, rest: seq<Handle>)

  /** One round of the do-while in `mergeIntoPackages` for the shifted
      name `h`: a packaged asset is folded with its parts into a new
      collection added to the asset manager, any other name passes. */
  function MergeOne(am: seq<Entry>, h: Handle, rest: seq<Handle>): (r: Step)
    ensures |r.rest| <= |rest|
  {
    var o := OptionsOf(am, h);
    if IsPackaged(o) then
      var parts := Parts(am, o.name.value, o.assetType, rest);
      var first := AssetOf(am, h);
      var coll := Collection([first] + AssetsOf(am, parts), first.target);
      Step(Name(|am|), am + [Entry(coll, [], OverrideAll(o, am, parts))], Others(am, o.name.value, o.assetType, rest))
    else Step(h, am, rest)
  }

  /** The merged list and the asset manager's table after it. */
  datatype Merged = Merged(names: seq<Handle>, assets: seq<Entry>)

  /** The rounds of `mergeIntoPackages` after the first. */
  function MergeRest(am: seq<Entry>, types: seq<Handle>): Merged
    decreases |types|
  {
    if types == [] then Merged([], am)
    else
      var st := MergeOne(am, types[0], types[1..]);
      var m := MergeRest(st.assets, st.rest);
      Merged([st.out] + m.names, m.assets)
  }

  /** `mergeIntoPackages`: a do-while, so an empty list still runs one round,
      on the `NULL` that `array_shift` returns. */
  function Merge(am: seq<Entry>, types: seq<Handle>): Merged
  {
    var st := if types == [] then MergeOne(am, Raw(None), []) else MergeOne(am, types[0], types[1..]);
    var m := MergeRest(st.assets, st.rest);
    Merged([st.out] + m.names, m.assets)
  }

  /** When no listed asset belongs to a package, every name passes through
      in order and the asset manager gets nothing new. */
  lemma {:induction false} MergeRestPassThrough(am: seq<Entry>, types: seq<Handle>)
    requires forall h :: h in types ==> !IsPackaged(OptionsOf(am, h))
    ensures MergeRest(am, types) == Merged(types, am)
    decreases |types|
  {
    if types != [] {
      assert forall h :: h in types[1..] ==> h in types;
      MergeRestPassThrough(am, types[1..]);
    }
  }

  /** `mergeIntoPackages` of a list without packages is that list, and of
      the empty list is the single `NULL` that the do-while shifted. */
  lemma MergePassThrough(am: seq<Entry>, types: seq<Handle>)
    requires forall h :: h in types ==> !IsPackaged(OptionsOf(am, h))
    ensures types != [] ==> Merge(am, types) == Merged(types, am)
    ensures types == [] ==> Merge(am, types) == Merged([Raw(None)], am)
  {
    if types != [] {
      assert forall h :: h in types[1..] ==> h in types;
      MergeRestPassThrough(am, types[1..]);
    }
  }

  /** A packaged name is replaced by a new collection: its first asset and
      then every later part of the same package and type, in list order,
      with the target path of the first and the parts' options merged in;
      those parts leave the list and everything else stays, in order. */
  lemma MergeOneFolds(am: seq<Entry>, h: Handle, rest: seq<Handle>)
    requires IsPackaged(OptionsOf(am, h))
    ensures var o := OptionsOf(am, h);
      var parts := Parts(am, o.name.value, o.assetType, rest);
      var st := MergeOne(am, h, rest);
      && h.Name? && h.id < |am|
      && st.out == Name(|am|) && |st.assets| == |am| + 1 && st.assets[..|am|] == am
      && st.assets[|am|].asset.parts == [am[h.id].asset] + AssetsOf(am, parts)
      && st.assets[|am|].asset.target == am[h.id].asset.target
      && st.assets[|am|].options == OverrideAll(o, am, parts)
      && multiset(parts) + multiset(st.rest) == multiset(rest)
      && (forall x :: x in parts ==> InPackage(am, x, o.name.value, o.assetType))
      && (forall x :: x in st.rest ==> !InPackage(am, x, o.name.value, o.assetType))
  {
    var o := OptionsOf(am, h);
    PartsSpec(am, o.name.value, o.assetType, rest);
  }

  /** The first name of the merged list stands for the first listed name:
      the name itself, or the collection made from its package. */
  lemma MergeHead(am: seq<Entry>, types: seq<Handle>)
    requires types != []
    ensures !IsPackaged(OptionsOf(am, types[0])) ==> Merge(am, types).names[0] == types[0]
    ensures IsPackaged(OptionsOf(am, types[0])) ==>
      Merge(am, types).names[0] == Name(|am|) && |am| < |Merge(am, types).assets|
  {
    var st := MergeOne(am, types[0], types[1..]);
    MergeRestGrows(st.assets, st.rest);
  }

  /** Merging only ever adds rows to the asset manager. */
  lemma {:induction false} MergeRestGrows(am: seq<Entry>, types: seq<Handle>)
    ensures |am| <= |MergeRest(am, types).assets| && MergeRest(am, types).assets[..|am|] == am
    decreases |types|
  {
    if types != [] {
      var st := MergeOne(am, types[0], types[1..]);
      MergeRestGrows(st.assets, st.rest);
    }
  }

  // ---------------------------------------------------------- publishing

  /** `Arrays::flatten($this->presenterTypes)`. */
  function FlattenNames(t: Assoc<string, seq<AssetName>>): (r: seq<Handle>)
  {
    if t == [] then [] else FlattenNames(t[..|t| - 1]) + Named(t[|t| - 1].1)
  }

  /** Asset names as list items. */
  function Named(ids: seq<AssetName>): (r: seq<Handle>)
    ensures |r| == |ids| && forall i :: 0 <= i < |ids| ==> r[i] == Name(ids[i])
  {
    seq(|ids|, i requires 0 <= i < |ids| => Name(ids[i]))
  }

  /** `Arrays::flatten($this->componentTypes)`: lists contribute their
      names, a version string contributes itself. */
  function FlattenEntries(t: Assoc<string, TypeEntry>): (r: seq<Handle>)
  {
    if t == [] then []
    else
      var last := match t[|t| - 1].1
        case Names(ids) => Named(ids)
        case Version(v) => [Raw(v)];
      FlattenEntries(t[..|t| - 1]) + last
  }

  /** The list `publish` hands to `mergeIntoPackages`. */
  function PublishList(presenterTypes: Assoc<string, seq<AssetName>>, componentTypes: Assoc<string, TypeEntry>): seq<Handle>
  {
    Unique(FlattenNames(presenterTypes) + FlattenEntries(componentTypes))
  }

  /** `publish` visits every listed name exactly once, presenter assets
      first. */
  lemma PublishListSpec(presenterTypes: Assoc<string, seq<AssetName>>, componentTypes: Assoc<string, TypeEntry>)
    ensures Distinct(PublishList(presenterTypes, componentTypes))
    ensures forall h :: h in PublishList(presenterTypes, componentTypes) <==>
      h in FlattenNames(presenterTypes) || h in FlattenEntries(componentTypes)
    ensures Distinct(FlattenNames(presenterTypes)) ==>
      PublishList(presenterTypes, componentTypes) ==
      FlattenNames(presenterTypes) + Without(Unique(FlattenEntries(componentTypes)), FlattenNames(presenterTypes))
  {
    UniqueSpec(FlattenNames(presenterTypes) + FlattenEntries(componentTypes));
    if Distinct(FlattenNames(presenterTypes)) {
      UniqueAppend(FlattenNames(presenterTypes), FlattenEntries(componentTypes));
    }
  }

  /** `getAssetInfo` of a known name: source path of the first file of the
      asset, its storage URL and its options. */
  function InfoOf(c: Context, k: AssetName): Info
    requires k < |c.assets|
  {
    var a := c.assets[k].asset;
    Info(FirstSource(a), c.url(a), c.assets[k].options)
  }

  /** The source path of the first file that iterating the asset visits,
      or "" (the unset source path of a collection) when it holds no file. */
  function FirstSource(a: Asset): string
  {
    match FirstLeaf(a)
    case Some(source) => source
    case None => ""
  }

  /** The first file of an asset in the order iterating a collection visits
      them: depth first, with an empty collection contributing nothing. */
  function FirstLeaf(a: Asset): Option<string>
    decreases a, 1
  {
    match a
    case Leaf(source, _) => Some(source)
    case Collection(_, _) => FirstLeafFrom(a, 0)
  }

  /** The first file among the parts of a collection from the `i`-th on. */
  function FirstLeafFrom(a: Asset, i: nat): Option<string>
    requires a.Collection? && i <= |a.parts|
    decreases a, 0, |a.parts| - i
  {
    if i == |a.parts| then None
    else
      var f := FirstLeaf(a.parts[i]);
      if f.Some? then f else FirstLeafFrom(a, i + 1)
  }

  /** From the `i`-th part on, a collection's first file is that of the
      first part holding a file, and there is none when no part holds one. */
  lemma {:induction false} FirstLeafFromSpec(a: Asset, i: nat)
    requires a.Collection? && i <= |a.parts|
    ensures FirstLeafFrom(a, i).None? <==> forall j :: i <= j < |a.parts| ==> FirstLeaf(a.parts[j]).None?
    ensures FirstLeafFrom(a, i).Some? ==>
      exists j :: (i <= j < |a.parts| && FirstLeafFrom(a, i) == FirstLeaf(a.parts[j]) &&
                   forall m :: i <= m < j ==> FirstLeaf(a.parts[m]).None?)
    decreases |a.parts| - i
  {
    if i < |a.parts| {
      FirstLeafFromSpec(a, i + 1);
      if FirstLeaf(a.parts[i]).None? && FirstLeafFrom(a, i + 1).Some? {
        var j :| i + 1 <= j < |a.parts| && FirstLeafFrom(a, i + 1) == FirstLeaf(a.parts[j]) &&
          forall m :: i + 1 <= m < j ==> FirstLeaf(a.parts[m]).None?;
        assert forall m :: i <= m < j ==> FirstLeaf(a.parts[m]).None?;
      }
    }
  }

  /** The source `getAssetInfo` reports for a collection is that of its
      first part holding a file: parts without files, empty collections
      among them, are skipped. */
  lemma FirstSourceSpec(parts: seq<Asset>, target: string, j: nat)
    requires j < |parts| && FirstLeaf(parts[j]).Some?
    requires forall m :: 0 <= m < j ==> FirstLeaf(parts[m]).None?
    ensures FirstSource(Collection(parts, target)) == FirstLeaf(parts[j]).value
  {
    var a := Collection(parts, target);
    FirstLeafFromSpec(a, 0);
    var i :| 0 <= i < |parts| && FirstLeafFrom(a, 0) == FirstLeaf(parts[i]) &&
      forall m :: 0 <= m < i ==> FirstLeaf(parts[m]).None?;
    assert i == j;
  }

  /** The extension table a resolved asset goes to: that of its URL when
      such a table exists, else that of its source path. */
  function ResolvedExt(resolved: Assoc<string, Assoc<string, Info>>, info: Info): string
  {
    var e := Extension(info.src);
    if e in Keys(resolved) then e else Extension(info.source)
  }

  /** The key of a resolved asset: its package name, else its source path. */
  function ResolvedKey(info: Info): string
  {
    if info.options.name.Some? then info.options.name.value else info.source
  }

  /** The filters ensured before writing: a plain name always, a name
      behind `?` without the `?` and only in debug mode. */
  function Ensured(filters: seq<string>, debug: bool): seq<string>
  {
    if filters == [] then []
    else
      var f := filters[|filters| - 1];
      Ensured(filters[..|filters| - 1], debug) +
        (if |f| == 0 || f[0] != '?' then [f] else if debug then [f[1..]] else [])
  }

  /** Which filters are ensured: every plain one; an optional one, stripped,
      exactly in debug mode; nothing else. */
  lemma {:induction false} EnsuredSpec(filters: seq<string>, debug: bool)
    ensures forall f :: f in filters && (|f| == 0 || f[0] != '?') ==> f in Ensured(filters, debug)
    ensures debug ==> forall f :: f in filters && |f| > 0 && f[0] == '?' ==> f[1..] in Ensured(filters, debug)
    ensures !debug ==> forall g :: g in Ensured(filters, debug) ==> g in filters && (|g| == 0 || g[0] != '?')
    ensures forall g :: g in Ensured(filters, debug) ==> g in filters || ['?'] + g in filters
  {
    if filters != [] {
      var p := filters[..|filters| - 1];
      var f := filters[|filters| - 1];
      EnsuredSpec(p, debug);
      assert filters == p + [f];
      if |f| > 0 && f[0] == '?' {
        assert ['?'] + f[1..] == f;
      }
    }
  }

  /** The first exception `filterManager->get` raises for the names, taken
      in order, or none. */
  function FirstFilterError(get: string -> Option<Error>, names: seq<string>): Option<Error>
  {
    if names == [] then None
    else
      var e := FirstFilterError(get, names[..|names| - 1]);
      if e.Some? then e else get(names[|names| - 1])
  }

  /** No exception exactly when every name is found; otherwise the exception
      is that of the first name that is not. */
  lemma {:induction false} FirstFilterErrorSpec(get: string -> Option<Error>, names: seq<string>)
    ensures FirstFilterError(get, names).None? <==> forall i :: 0 <= i < |names| ==> get(names[i]).None?
    ensures FirstFilterError(get, names).Some? ==>
      exists i :: (0 <= i < |names| && get(names[i]) == FirstFilterError(get, names) &&
                   forall j :: 0 <= j < i ==> get(names[j]).None?)
  {
    if names != [] {
      var init := names[..|names| - 1];
      FirstFilterErrorSpec(get, init);
      assert forall i :: 0 <= i < |init| ==> init[i] == names[i];
    }
  }

  /** Once a filter among the first `n` fails, ensuring more filters does
      not change which exception is raised. */
  lemma {:induction false} FilterErrorStays(get: string -> Option<Error>, filters: seq<string>, n: nat, m: nat, debug: bool)
    requires n <= m <= |filters|
    requires FirstFilterError(get, Ensured(filters[..n], debug)).Some?
    ensures FirstFilterError(get, Ensured(filters[..m], debug)) == FirstFilterError(get, Ensured(filters[..n], debug))
    decreases m
  {
    if m > n {
      FilterErrorStays(get, filters, n, m - 1, debug);
      var a := Ensured(filters[..m - 1], debug);
      assert filters[..m][..m - 1] == filters[..m - 1];
      var b := Ensured(filters[..m], debug);
      if |b| > |a| {
        assert b[..|b| - 1] == a;
      } else {
        assert b == a;
      }
    }
  }

  /** Records a resolved asset under its extension and key; then, unless the
      storage holds a fresh copy, ensures its filters and writes it. A filter
      the filter manager cannot give raises after the record and before the
      write. */
  function Record(c: Context, p: Published, k: AssetName): Run
    requires k < |c.assets|
  {
    var info := InfoOf(c, k);
    var ext := ResolvedExt(p.resolved, info);
    var resolved := Put(p.resolved, ext, Put(GetOr(p.resolved, ext, []), ResolvedKey(info), info));
    if c.isFresh(c.assets[k].asset) then Run(Published(resolved, p.written), None)
    else
      var ensured := Ensured(c.assets[k].filters, c.debug);
      match FirstFilterError(c.filterError, ensured)
      case Some(err) => Run(Published(resolved, p.written), Some(err))
      case None => Run(Published(resolved, p.written + [Written(k, ensured)]), None)
  }

  /** The names an asset's package requires, or none. */
  function Dependencies(c: Context, k: AssetName): seq<Handle>
    requires k < |c.assets|
  {
    var name := c.assets[k].options.name;
    if name.Some? && Get(c.requiredBy, name.value).Some? then Named(Get(c.requiredBy, name.value).value) else []
  }

  /** `publishAndResolve($name)` with at most `fuel` nested calls. */
  function Resolve(c: Context, p: Published, h: Handle, fuel: nat): Run
    decreases fuel, 0, 0
  {
    if fuel == 0 then Run(p, Some(Diverges))
    else if !(h.Name? && h.id < |c.assets|) then Run(p, Some(MissingAsset))
    else
      var d := ResolveEach(c, p, Dependencies(c, h.id), fuel - 1);
      if d.error.Some? then d else Record(c, d.pub, h.id)
  }

  /** `publishAndResolve` on each name in turn, stopping at an exception. */
  function ResolveEach(c: Context, p: Published, hs: seq<Handle>, fuel: nat): Run
    decreases fuel, 1, |hs|
  {
    if hs == [] then Run(p, None)
    else
      var r := ResolveEach(c, p, hs[..|hs| - 1], fuel);
      if r.error.Some? then r else Resolve(c, r.pub, hs[|hs| - 1], fuel)
  }

  /** After an exception the rest of the list is not visited. */
  lemma {:induction false} ResolveEachStops(c: Context, p: Published, hs: seq<Handle>, j: nat, fuel: nat)
    requires j <= |hs| && ResolveEach(c, p, hs[..j], fuel).error.Some?
    ensures ResolveEach(c, p, hs, fuel) == ResolveEach(c, p, hs[..j], fuel)
    decreases |hs| - j
  {
    if j < |hs| {
      assert hs[..|hs| - 1][..j] == hs[..j];
      ResolveEachStops(c, p, hs[..|hs| - 1], j, fuel);
    } else {
      assert hs[..j] == hs;
    }
  }

  /** The key `key` is resolved under the extension `ext`. */
  predicate HasResolved(p: Published, ext: string, key: string)
  {
    Get(p.resolved, ext).Some? && key in Keys(Get(p.resolved, ext).value)
  }

  /** Recording keeps every earlier record's key and its position, and
      adds the asset's own record under its extension and key. */
  lemma RecordSpec(c: Context, p: Published, k: AssetName)
    requires k < |c.assets|
    ensures var info := InfoOf(c, k); var q := Record(c, p, k).pub;
      Get(q.resolved, ResolvedExt(p.resolved, info)).Some? &&
      Get(Get(q.resolved, ResolvedExt(p.resolved, info)).value, ResolvedKey(info)) == Some(info)
    ensures forall e, key :: HasResolved(p, e, key) ==> HasResolved(Record(c, p, k).pub, e, key)
    ensures c.isFresh(c.assets[k].asset) ==> Record(c, p, k).pub.written == p.written && Record(c, p, k).error.None?
    ensures !c.isFresh(c.assets[k].asset) ==>
      var ensured := Ensured(c.assets[k].filters, c.debug);
      && Record(c, p, k).error == FirstFilterError(c.filterError, ensured)
      && Record(c, p, k).pub.written == if Record(c, p, k).error.None? then p.written + [Written(k, ensured)] else p.written
  {
    var info := InfoOf(c, k);
    var ext := ResolvedExt(p.resolved, info);
    var old_table := GetOr(p.resolved, ext, []);
    var table := Put(old_table, ResolvedKey(info), info);
    GetPutSame(p.resolved, ext, table);
    GetPutSame(old_table, ResolvedKey(info), info);
    forall e, key | HasResolved(p, e, key) ensures HasResolved(Record(c, p, k).pub, e, key) {
      if e == ext {
      } else {
        GetPutOther(p.resolved, ext, table, e);
      }
    }
  }

  /** Resolving never drops a resolved key. */
  lemma {:induction false} ResolveGrows(c: Context, p: Published, h: Handle, fuel: nat, e: string, key: string)
    requires HasResolved(p, e, key)
    ensures HasResolved(Resolve(c, p, h, fuel).pub, e, key)
    decreases fuel, 0, 0
  {
    if fuel > 0 && h.Name? && h.id < |c.assets| {
      ResolveEachGrows(c, p, Dependencies(c, h.id), fuel - 1, e, key);
      var d := ResolveEach(c, p, Dependencies(c, h.id), fuel - 1);
      if d.error.None? {
        RecordSpec(c, d.pub, h.id);
      }
    }
  }

  /** Resolving a list never drops a resolved key. */
  lemma {:induction false} ResolveEachGrows(c: Context, p: Published, hs: seq<Handle>, fuel: nat, e: string, key: string)
    requires HasResolved(p, e, key)
    ensures HasResolved(ResolveEach(c, p, hs, fuel).pub, e, key)
    decreases fuel, 1, |hs|
  {
    if hs != [] {
      ResolveEachGrows(c, p, hs[..|hs| - 1], fuel, e, key);
      var r := ResolveEach(c, p, hs[..|hs| - 1], fuel);
      if r.error.None? {
        ResolveGrows(c, r.pub, hs[|hs| - 1], fuel, e, key);
      }
    }
  }

  /** A name that resolves without an exception ends up recorded under its
      key, and the packages it requires were resolved without an exception
      first: they are what the record step starts from. */
  lemma ResolveSpec(c: Context, p: Published, k: AssetName, fuel: nat)
    requires k < |c.assets|
    ensures fuel == 0 ==> Resolve(c, p, Name(k), fuel) == Run(p, Some(Diverges))
    ensures fuel > 0 ==>
      var d := ResolveEach(c, p, Dependencies(c, k), fuel - 1);
      Resolve(c, p, Name(k), fuel) == if d.error.Some? then d else Record(c, d.pub, k)
    ensures Resolve(c, p, Name(k), fuel).error.None? ==>
      var d := ResolveEach(c, p, Dependencies(c, k), fuel - 1);
      d.error.None? && Resolve(c, p, Name(k), fuel) == Record(c, d.pub, k)
    ensures Resolve(c, p, Name(k), fuel).error.None? ==>
      var q := Resolve(c, p, Name(k), fuel).pub;
      Get(q.resolved, ResolvedExt(ResolveEach(c, p, Dependencies(c, k), fuel - 1).pub.resolved, InfoOf(c, k))).Some?
  {
    if fuel > 0 {
      var d := ResolveEach(c, p, Dependencies(c, k), fuel - 1);
      if d.error.None? {
        RecordSpec(c, d.pub, k);
      }
    }
  }

  /** A name the asset manager does not know raises, with nothing changed. */
  lemma ResolveUnknown(c: Context, p: Published, h: Handle, fuel: nat)
    requires fuel > 0 && !(h.Name? && h.id < |c.assets|)
    ensures Resolve(c, p, h, fuel) == Run(p, Some(MissingAsset))
  {
  }

  /** The name is known to the asset manager and its key is resolved
      under some extension. */
  ghost predicate Recorded(c: Context, p: Published, h: Handle)
  {
    h.Name? && h.id < |c.assets| && exists e :: HasResolved(p, e, ResolvedKey(InfoOf(c, h.id)))
  }

  /** A name that resolves without an exception is recorded. */
  lemma ResolveRecords(c: Context, p: Published, h: Handle, fuel: nat)
    requires Resolve(c, p, h, fuel).error.None?
    ensures Recorded(c, Resolve(c, p, h, fuel).pub, h)
  {
    var k := h.id;
    var d := ResolveEach(c, p, Dependencies(c, k), fuel - 1);
    RecordSpec(c, d.pub, k);
    var q := Record(c, d.pub, k).pub;
    var ext := ResolvedExt(d.pub.resolved, InfoOf(c, k));
    GetPutSame(Get(q.resolved, ext).value, ResolvedKey(InfoOf(c, k)), InfoOf(c, k));
    assert HasResolved(q, ext, ResolvedKey(InfoOf(c, k)));
  }

  /** Resolving never forgets a recorded name. */
  lemma RecordedGrows(c: Context, p: Published, h: Handle, x: Handle, fuel: nat)
    requires Recorded(c, p, h)
    ensures Recorded(c, Resolve(c, p, x, fuel).pub, h)
  {
    var e :| HasResolved(p, e, ResolvedKey(InfoOf(c, h.id)));
    ResolveGrows(c, p, x, fuel, e, ResolvedKey(InfoOf(c, h.id)));
  }

  /** Resolving the last name of a list keeps a name before it that is
      recorded so far, and records that name. */
  lemma RecordsStep(c: Context, p: Published, hs: seq<Handle>, fuel: nat, i: nat)
    requires i < |hs|
    requires i < |hs| - 1 ==> Recorded(c, p, hs[i])
    requires Resolve(c, p, hs[|hs| - 1], fuel).error.None?
    ensures Recorded(c, Resolve(c, p, hs[|hs| - 1], fuel).pub, hs[i])
  {
    if hs[i] == hs[|hs| - 1] {
      ResolveRecords(c, p, hs[i], fuel);
    } else {
      RecordedGrows(c, p, hs[i], hs[|hs| - 1], fuel);
    }
  }

  /** Every name of a list that resolves without an exception is recorded
      afterwards. */
  lemma {:induction false} ResolveEachRecordsAll(c: Context, p: Published, hs: seq<Handle>, fuel: nat)
    requires ResolveEach(c, p, hs, fuel).error.None?
    ensures forall h :: h in hs ==> Recorded(c, ResolveEach(c, p, hs, fuel).pub, h)
  {
    if hs != [] {
      var r := ResolveEach(c, p, hs[..|hs| - 1], fuel);
      ResolveEachRecordsAll(c, p, hs[..|hs| - 1], fuel);
      forall i | 0 <= i < |hs| ensures Recorded(c, ResolveEach(c, p, hs, fuel).pub, hs[i]) {
        if i < |hs| - 1 {
          assert hs[..|hs| - 1][i] == hs[i];
        }
        RecordsStep(c, r.pub, hs, fuel, i);
      }
    }
  }

  /** The packages an asset requires are resolved before the asset: when
      the asset's key is new to its extension table, every key that table
      held once the requirements were resolved, theirs among them, comes
      before it in `getAssets`. */
  lemma DependenciesFirst(c: Context, p: Published, k: AssetName, fuel: nat, key: string)
    requires k < |c.assets|
    requires Resolve(c, p, Name(k), fuel).error.None?
    requires var d := ResolveEach(c, p, Dependencies(c, k), fuel - 1).pub;
      var info := InfoOf(c, k);
      HasResolved(d, ResolvedExt(d.resolved, info), key) && !HasResolved(d, ResolvedExt(d.resolved, info), ResolvedKey(info))
    ensures var d := ResolveEach(c, p, Dependencies(c, k), fuel - 1).pub;
      var info := InfoOf(c, k);
      var table := Get(Resolve(c, p, Name(k), fuel).pub.resolved, ResolvedExt(d.resolved, info)).value;
      IndexOf(table, key).Some? && IndexOf(table, ResolvedKey(info)).Some? &&
      IndexOf(table, key).value < IndexOf(table, ResolvedKey(info)).value
  {
    var d := ResolveEach(c, p, Dependencies(c, k), fuel - 1).pub;
    var info := InfoOf(c, k);
    var ext := ResolvedExt(d.resolved, info);
    var old_table := Get(d.resolved, ext).value;
    var table := Put(old_table, ResolvedKey(info), info);
    ResolveSpec(c, p, k, fuel);
    GetPutSame(d.resolved, ext, table);
    PutKeepsPositions(old_table, ResolvedKey(info), info, key);
    assert Keys(table) == Keys(old_table) + [ResolvedKey(info)];
    assert table[|old_table|].0 == ResolvedKey(info) by {
      assert Keys(table)[|old_table|] == ResolvedKey(info);
    }
    assert forall i :: 0 <= i < |old_table| ==> table[i].0 != ResolvedKey(info) by {
      forall i | 0 <= i < |old_table| ensures table[i].0 != ResolvedKey(info) {
        assert Keys(table)[i] == Keys(old_table)[i];
      }
    }
  }

  // ---------------------------------------------------------- the class

  /** The manager and the state it shares with its asset manager. */
  class FormulaeManager {
    /** The storage: the URL of an asset and whether its copy is fresh. */
    const url: Asset -> string
    const isFresh: Asset -> bool
    /** The exception the filter manager's `get` raises for a name, if any. */
    const filterError: string -> Option<Error>
    var assets: seq<Entry>
    var hasRepository: bool
    var debug: bool
    var presenterTypes: Assoc<string, seq<AssetName>>
    var componentTypes: Assoc<string, TypeEntry>
    var packagesRequiredBy: Assoc<string, seq<AssetName>>
    var resolved: Assoc<string, Assoc<string, Info>>
    var written: seq<Written>

    /** A manager over a storage and an asset manager, with empty lists for
        stylesheets and scripts and no repository. */
    constructor (url: Asset -> string, isFresh: Asset -> bool, filterError: string -> Option<Error>, assets: seq<Entry>)
      ensures this.url == url && this.isFresh == isFresh && this.filterError == filterError && this.assets == assets
      ensures !hasRepository && !debug
      ensures presenterTypes == [(Stylesheet, []), (Javascript, [])]
      ensures componentTypes == [(Stylesheet, Names([])), (Javascript, Names([]))]
      ensures packagesRequiredBy == []
      ensures resolved == [(Stylesheet, []), (Javascript, [])]
      ensures written == []
    {
      this.url := url;
      this.isFresh := isFresh;
      this.filterError := filterError;
      this.assets := assets;
      hasRepository := false;
      debug := false;
      presenterTypes := [(Stylesheet, []), (Javascript, [])];
      componentTypes := [(Stylesheet, Names([])), (Javascript, Names([]))];
      packagesRequiredBy := [];
      resolved := [(Stylesheet, []), (Javascript, [])];
      written := [];
    }

    /** `setJavascriptProvider`: from now on a repository is present. */
    method SetJavascriptProvider()
      modifies this`hasRepository
      ensures hasRepository
    {
      hasRepository := true;
    }

    /** `setDebug`. */
    method SetDebug(debug: bool)
      modifies this`debug
      ensures this.debug == debug
    {
      this.debug := debug;
    }

    /** What publishing reads. */
    function CurrentContext(): Context
      reads this
    {
      Context(assets, packagesRequiredBy, debug, url, isFresh, filterError)
    }

    /** `register`: adds the asset to the asset manager with its target
        path and type set from the options, then files the new name under
        each package that requires it or, without such packages, under the
        presenter or component list of `assetType`. A fatal error (`Err`)
        when the component list of that type holds a version string. */
    method Register(asset: Asset, assetType: string, filters: seq<string>, options: Options, isPresenter: bool)
      returns (r: Result<AssetName>)
      modifies this`assets, this`packagesRequiredBy, this`presenterTypes, this`componentTypes
      ensures assets == old(assets) + [Entry(Retarget(asset, options), filters, Typed(asset, options))]
      ensures HasRequiredBy(options) ==>
        r == Ok(|old(assets)|) && packagesRequiredBy == AppendEach(old(packagesRequiredBy), options.requiredBy.value, |old(assets)|) &&
        presenterTypes == old(presenterTypes) && componentTypes == old(componentTypes)
      ensures !HasRequiredBy(options) && isPresenter ==>
        r == Ok(|old(assets)|) && presenterTypes == AppendTo<string, AssetName>(old(presenterTypes), assetType, |old(assets)|) &&
        packagesRequiredBy == old(packagesRequiredBy) && componentTypes == old(componentTypes)
      ensures !HasRequiredBy(options) && !isPresenter ==>
        packagesRequiredBy == old(packagesRequiredBy) && presenterTypes == old(presenterTypes) &&
        var e := AppendName(Get(old(componentTypes), assetType), |old(assets)|);
        (e.None? ==> r == Err(InvalidState)) &&
        (e.Some? ==> r == Ok(|old(assets)|) && componentTypes == Put(old(componentTypes), assetType, e.value))
    {
      var target := Retarget(asset, options);
      var name := |assets|;
      assets := assets + [Entry(target, filters, Typed(asset, options))];
      if HasRequiredBy(options) {
        FileUnderPackages(options.requiredBy.value, name);
        r := Ok(name);
      } else if isPresenter {
        presenterTypes := AppendTo<string, AssetName>(presenterTypes, assetType, name);
        r := Ok(name);
      } else {
        var e := AppendName(Get(componentTypes, assetType), name);
        if e.None? {
          r := Err(InvalidState);
        } else {
          componentTypes := Put(componentTypes, assetType, e.value);
          r := Ok(name);
        }
      }
    }

    /** The `requiredBy` loop of `register`. */
    method FileUnderPackages(rs: seq<string>, name: AssetName)
      modifies this`packagesRequiredBy
      ensures packagesRequiredBy == AppendEach(old(packagesRequiredBy), rs, name)
    {
      for i := 0 to |rs|
        invariant packagesRequiredBy == AppendEach(old(packagesRequiredBy), rs[..i], name)
      {
        assert rs[..i + 1][..i] == rs[..i];
        packagesRequiredBy := AppendTo<string, AssetName>(packagesRequiredBy, rs[i], name);
      }
      assert rs[..|rs|] == rs;
    }

    /** `requireAsset`: without a repository it raises and changes nothing;
        otherwise the version is stored under the asset name among the
        component lists. */
    method RequireAsset(name: string, version: Option<string>) returns (err: Option<Error>)
      modifies this`componentTypes
      ensures !hasRepository ==> err == Some(MissingService) && componentTypes == old(componentTypes)
      ensures hasRepository ==> err.None? && componentTypes == Put(old(componentTypes), name, Version(version))
    {
      if !hasRepository {
        return Some(MissingService);
      }
      componentTypes := Put(componentTypes, name, Version(version));
      err := None;
    }

    /** `getAssets($type)`: the resolved table of that extension. */
    function GetAssets(assetType: string): (r: Option<Assoc<string, Info>>)
      reads this
      ensures r.Some? <==> assetType in Keys(resolved)
    {
      Get(resolved, assetType)
    }

    /** `getAssetInfo($name)`, raising for a name the asset manager lacks. */
    function GetAssetInfo(h: Handle): (r: Result<Info>)
      reads this
      ensures r.Err? <==> !(h.Name? && h.id < |assets|)
      ensures r.Ok? ==> r.value.options == assets[h.id].options && r.value.src == url(assets[h.id].asset)
    {
      if h.Name? && h.id < |assets| then Ok(InfoOf(CurrentContext(), h.id)) else Err(MissingAsset)
    }

    /** `findPackageParts`: the parts of package `pkg` of type `t`, in list
        order, and the list without them. */
    method FindPackageParts(pkg: string, t: Option<string>, types: seq<Handle>) returns (parts: seq<Handle>, rest: seq<Handle>)
      ensures parts == Parts(assets, pkg, t, types)
      ensures rest == Others(assets, pkg, t, types)
    {
      parts, rest := [], [];
      for i := 0 to |types|
        invariant parts == Parts(assets, pkg, t, types[..i])
        invariant rest == Others(assets, pkg, t, types[..i])
      {
        assert types[..i + 1][..i] == types[..i];
        if InPackage(assets, types[i], pkg, t) {
          parts := parts + [types[i]];
        } else {
          rest := rest + [types[i]];
        }
      }
      assert types[..|types|] == types;
    }

    /** One round of `mergeIntoPackages` for the shifted name `h`. */
    method MergeName(h: Handle, types: seq<Handle>) returns (out: Handle, rest: seq<Handle>)
      modifies this`assets
      ensures Step(out, assets, rest) == MergeOne(old(assets), h, types)
    {
      var o := OptionsOf(assets, h);
      if IsPackaged(o) {
        var first := assets[h.id].asset;
        var parts;
        parts, rest := FindPackageParts(o.name.value, o.assetType, types);
        var gathered := [first];
        var options := o;
        for i := 0 to |parts|
          invariant gathered == [first] + AssetsOf(assets, parts[..i])
          invariant options == OverrideAll(o, assets, parts[..i])
        {
          assert parts[..i + 1][..i] == parts[..i];
          gathered := gathered + [AssetOf(assets, parts[i])];
          options := Override(options, OptionsOf(assets, parts[i]));
        }
        assert parts[..|parts|] == parts;
        out := Name(|assets|);
        assets := assets + [Entry(Collection(gathered, first.target), [], options)];
      } else {
        out, rest := h, types;
      }
    }

    /** `mergeIntoPackages`: shifts a name off the list, merges it, and goes
        on while names are left; the first round runs even on an empty
        list. */
    method MergeIntoPackages(types: seq<Handle>) returns (merged: seq<Handle>)
      modifies this`assets
      ensures Merged(merged, assets) == Merge(old(assets), types)
    {
      var out, rest;
      if types == [] {
        out, rest := MergeName(Raw(None), []);
      } else {
        out, rest := MergeName(types[0], types[1..]);
      }
      merged := [out];
      while rest != []
        invariant Merge(old(assets), types).names == merged + MergeRest(assets, rest).names
        invariant Merge(old(assets), types).assets == MergeRest(assets, rest).assets
        decreases |rest|
      {
        out, rest := MergeName(rest[0], rest[1..]);
        merged := merged + [out];
      }
    }

    /** The loop that ensures an asset's filters before it is written: each
        plain filter, and each `?` filter without its `?` in debug mode, is
        fetched from the filter manager, which raises for a filter it cannot
        give. */
    method EnsureFilters(filters: seq<string>) returns (ensured: seq<string>, err: Option<Error>)
      ensures err == FirstFilterError(filterError, Ensured(filters, debug))
      ensures err.None? ==> ensured == Ensured(filters, debug)
    {
      ensured := [];
      for i := 0 to |filters|
        invariant ensured == Ensured(filters[..i], debug)
        invariant FirstFilterError(filterError, ensured).None?
      {
        assert filters[..i + 1][..i] == filters[..i];
        var f := filters[i];
        var name := f;
        if |f| > 0 && f[0] == '?' {
          if !debug {
            continue;
          }
          name := f[1..];
        }
        assert (ensured + [name])[..|ensured|] == ensured;
        assert Ensured(filters[..i + 1], debug) == ensured + [name];
        err := filterError(name);
        if err.Some? {
          FilterErrorStays(filterError, filters, i + 1, |filters|, debug);
          assert filters[..|filters|] == filters;
          return;
        }
        ensured := ensured + [name];
      }
      assert filters[..|filters|] == filters;
      err := None;
    }

    /** The record step of `publishAndResolve` for a known name. */
    method RecordResolved(k: AssetName) returns (err: Option<Error>)
      requires k < |assets|
      modifies this`resolved, this`written
      ensures Run(Published(resolved, written), err) == Record(CurrentContext(), old(Published(resolved, written)), k)
    {
      var info := InfoOf(CurrentContext(), k);
      var ext := ResolvedExt(resolved, info);
      resolved := Put(resolved, ext, Put(GetOr(resolved, ext, []), ResolvedKey(info), info));
      err := None;
      if !isFresh(assets[k].asset) {
        var ensured;
        ensured, err := EnsureFilters(assets[k].filters);
        if err.None? {
          written := written + [Written(k, ensured)];
        }
      }
    }

    /** `publishAndResolve($name)`, nested at most `fuel` deep: resolves the
        packages the asset requires, records the asset and writes it when
        the storage copy is not fresh. */
    method PublishAndResolve(h: Handle, fuel: nat) returns (err: Option<Error>)
      modifies this`resolved, this`written
      ensures Run(Published(resolved, written), err) == Resolve(CurrentContext(), old(Published(resolved, written)), h, fuel)
      decreases fuel, 0
    {
      if fuel == 0 {
        return Some(Diverges);
      }
      if !(h.Name? && h.id < |assets|) {
        return Some(MissingAsset);
      }
      err := ResolveList(Dependencies(CurrentContext(), h.id), fuel - 1);
      if err.None? {
        err := RecordResolved(h.id);
      }
    }

    /** `publishAndResolve` on each name in turn, stopping at the first
        exception. */
    method ResolveList(hs: seq<Handle>, fuel: nat) returns (err: Option<Error>)
      modifies this`resolved, this`written
      ensures Run(Published(resolved, written), err) == ResolveEach(CurrentContext(), old(Published(resolved, written)), hs, fuel)
      decreases fuel, 1
    {
      var start := Published(resolved, written);
      for i := 0 to |hs|
        invariant Run(Published(resolved, written), None) == ResolveEach(CurrentContext(), start, hs[..i], fuel)
      {
        assert hs[..i + 1][..i] == hs[..i];
        err := PublishAndResolve(hs[i], fuel);
        if err.Some? {
          ResolveEachStops(CurrentContext(), start, hs, i + 1, fuel);
          return;
        }
      }
      assert hs[..|hs|] == hs;
      err := None;
    }

    /** `publish`: merges the listed names into packages and publishes each
        merged name in turn, stopping at the first exception. */
    method Publish(fuel: nat) returns (err: Option<Error>)
      modifies this`assets, this`resolved, this`written
      ensures var m := Merge(old(assets), PublishList(presenterTypes, componentTypes));
        assets == m.assets &&
        Run(Published(resolved, written), err) ==
          ResolveEach(CurrentContext(), old(Published(resolved, written)), m.names, fuel)
    {
      var merged := MergeIntoPackages(PublishList(presenterTypes, componentTypes));
      err := ResolveList(merged, fuel);
    }
  }
}
