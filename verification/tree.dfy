/**
 * The catalog objects. Each level owns an ordered list of child objects that
 * its methods update in place. The ghost field `model` is the value view of
 * module Catalog that `Valid()` ties to the children, and every mutator is
 * proved against the Catalog function that specifies it. `Repr` is the set
 * of objects a node owns (itself and its descendants); sibling footprints
 * are disjoint.
 */
module Tree {
  import opened Wrappers
  import opened Strings
  import opened Catalog

  /** No object occurs twice in the sequence. */
  predicate Distinct<T(==)>(s: seq<T>)
  {
    forall i, j :: 0 <= i < j < |s| ==> s[i] != s[j]
  }

  class Translation {
    /** The language tag (the object name); fixed at construction. */
    const lang: string
    var text: string

    constructor (lang: string, text: string)
      ensures Model() == TranslationV(lang, text)
    {
      this.lang := lang;
      this.text := text;
    }

    function Model(): TranslationV
      reads this
    {
      TranslationV(lang, text)
    }

    /** Translation::setString: replaces the text, the tag stays. */
    method SetString(s: string)
      modifies this
      ensures Model() == TranslationV(old(Model()).lang, s)
    {
      text := s;
    }

    /** Translation::string: the text last given to the constructor or to SetString. */
    function String(): (r: string)
      reads this
      ensures TranslationV(lang, r) == Model()
    {
      text
    }
  }

  /** The values of a list of translation objects, in order. */
  function TranslationsModel(ts: seq<Translation>): (r: seq<TranslationV>)
    reads ts
    ensures |r| == |ts|
    ensures forall i :: 0 <= i < |ts| ==> r[i] == ts[i].Model()
  {
    if ts == [] then [] else [ts[0].Model()] + TranslationsModel(ts[1..])
  }

  class Key {
    /** The key id (the object name). */
    const id: string
    var translations: seq<Translation>
    ghost var model: KeyV
    ghost var Repr: set<object>

    ghost predicate Valid()
      reads this, Repr
    {
      && this in Repr
      && model.id == id
      && |model.translations| == |translations|
      && (forall i :: 0 <= i < |translations| ==>
            translations[i] in Repr && translations[i].Model() == model.translations[i])
      && Distinct(translations)
    }

    constructor (id: string)
      ensures Valid() && fresh(Repr)
      ensures model == KeyV(id, [])
    {
      this.id := id;
      translations := [];
      model := KeyV(id, []);
      Repr := {this};
    }

    /** The value of the key, read from its objects. */
    function Value(): (r: KeyV)
      reads this, Repr
      requires Valid()
      ensures r == model
    {
      KeyV(id, TranslationsModel(translations))
    }

    /** findChild<Translation*>(lang, FindDirectChildrenOnly): the index of the first child with that tag. */
    method FindTranslation(lang: string) returns (i: nat)
      requires Valid()
      ensures i == LangIndex(model.translations, lang)
    {
      i := 0;
      while i < |translations| && translations[i].lang != lang
        invariant i <= |translations|
        invariant forall j :: 0 <= j < i ==> model.translations[j].lang != lang
      {
        i := i + 1;
      }
      ghost var m := LangIndex(model.translations, lang);
      assert m <= i;
    }

    /** Key::getTranslation. */
    method GetTranslation(lang: string) returns (r: Option<Translation>)
      requires Valid()
      ensures r.None? <==> KeyGet(model, lang).None?
      ensures r.Some? ==> r.value in Repr && r.value.Model() == TranslationV(lang, KeyGet(model, lang).value)
    {
      var i := FindTranslation(lang);
      if i < |translations| {
        r := Some(translations[i]);
      } else {
        r := None;
      }
    }

    /** Key::getAllTranslations: the children in order. */
    function GetAllTranslations(): (r: seq<Translation>)
      reads this, Repr
      requires Valid()
      ensures TranslationsModel(r) == model.translations
    {
      translations
    }

    /** Key::setTranslation: update in place, append a new child, or delete the first child with that tag. */
    method SetTranslation(lang: string, s: string)
      requires Valid()
      modifies Repr
      ensures Valid() && fresh(Repr - old(Repr))
      ensures model == KeySet(old(model), lang, s)
    {
      var i := FindTranslation(lang);
      if i < |translations| && s != "" {
        UpdateAt(i, s);
      } else if i == |translations| && s != "" {
        AddTranslation(lang, s);
      } else if i < |translations| {
        RemoveAt(i);
      }
    }

    /** Sets the text of the child at index `i`; the other children are distinct objects and keep theirs. */
    method UpdateAt(i: nat, s: string)
      requires Valid() && i < |translations|
      modifies this, translations[i]
      ensures Valid() && Repr == old(Repr)
      ensures model == KeyV(id, old(model).translations[i := TranslationV(old(model).translations[i].lang, s)])
    {
      var t := translations[i];
      t.SetString(s);
      model := KeyV(id, model.translations[i := t.Model()]);
    }

    /** Deletes the child at index `i`. */
    method RemoveAt(i: nat)
      requires Valid() && i < |translations|
      modifies this
      ensures Valid() && Repr == old(Repr)
      ensures model == KeyV(id, old(model).translations[..i] + old(model).translations[i + 1..])
    {
      translations := translations[..i] + translations[i + 1..];
      model := KeyV(id, model.translations[..i] + model.translations[i + 1..]);
    }

    /** Appends a new child translation without looking for an existing one with the same tag. */
    method AddTranslation(lang: string, s: string)
      requires Valid()
      modifies this
      ensures Valid() && fresh(Repr - old(Repr))
      ensures model == KeyV(id, old(model).translations + [TranslationV(lang, s)])
    {
      var t := new Translation(lang, s);
      translations := translations + [t];
      model := KeyV(id, model.translations + [t.Model()]);
      Repr := Repr + {t};
    }

    /** Appends a copy of every translation in `ts`, in order. */
    method AddTranslations(ts: seq<TranslationV>)
      requires Valid()
      modifies this
      ensures Valid() && fresh(Repr - old(Repr))
      ensures model == KeyV(id, old(model).translations + ts)
    {
      var n := 0;
      while n < |ts|
        invariant n <= |ts|
        invariant Valid() && fresh(Repr - old(Repr))
        invariant model == KeyV(id, old(model).translations + ts[..n])
      {
        AddTranslation(ts[n].lang, ts[n].text);
        assert ts[..n + 1] == ts[..n] + [ts[n]];
        n := n + 1;
      }
      assert ts[..n] == ts;
    }
  }

  class Container {
    /** The container name (the object name). */
    const name: string
    var keys: seq<Key>
    ghost var model: ContainerV
    ghost var Repr: set<object>

    ghost predicate Valid()
      reads this, Repr
    {
      && this in Repr
      && model.name == name
      && |model.keys| == |keys|
      && (forall i :: 0 <= i < |keys| ==>
            keys[i] in Repr && keys[i].Repr <= Repr && this !in keys[i].Repr
            && keys[i].Valid() && keys[i].model == model.keys[i])
      && (forall i, j :: 0 <= i < |keys| && 0 <= j < |keys| && i != j ==> keys[i].Repr !! keys[j].Repr)
    }

    constructor (name: string)
      ensures Valid() && fresh(Repr)
      ensures model == ContainerV(name, [])
    {
      this.name := name;
      keys := [];
      model := ContainerV(name, []);
      Repr := {this};
    }

    /** The first direct Key whose id contains `term`, ignoring case (the unanchored case-insensitive regex). */
    method FindKey(term: string) returns (i: nat)
      requires Valid() && NoMeta(term)
      ensures i == KeyIndex(model.keys, term)
    {
      i := 0;
      while i < |keys| && !ContainsIgnoreCase(keys[i].id, term)
        invariant i <= |keys|
        invariant forall j :: 0 <= j < i ==> !ContainsIgnoreCase(model.keys[j].id, term)
      {
        i := i + 1;
      }
      ghost var m := KeyIndex(model.keys, term);
      assert m <= i;
    }

    /** findChild<Key*>(id, FindDirectChildrenOnly): the first direct Key with exactly this id. */
    method FindKeyExact(id: string) returns (i: nat)
      requires Valid()
      ensures i == KeyIdIndex(model.keys, id)
    {
      i := 0;
      while i < |keys| && keys[i].id != id
        invariant i <= |keys|
        invariant forall j :: 0 <= j < i ==> model.keys[j].id != id
      {
        i := i + 1;
      }
      ghost var m := KeyIdIndex(model.keys, id);
      assert m <= i;
    }

    /** Container::getTranslation. */
    method GetTranslation(key: string, lang: string) returns (r: Option<Translation>)
      requires Valid() && NoMeta(key)
      ensures r.None? <==> ContainerGet(model, key, lang).None?
      ensures r.Some? ==> r.value.Model() == TranslationV(lang, ContainerGet(model, key, lang).value)
    {
      var i := FindKey(key);
      if i == |keys| {
        r := None;
      } else {
        r := keys[i].GetTranslation(lang);
      }
    }

    /** Container::getAllTranslations. */
    method GetAllTranslations(key: string) returns (r: seq<Translation>)
      requires Valid() && NoMeta(key)
      ensures TranslationsModel(r) == ContainerGetAll(model, key)
    {
      var i := FindKey(key);
      if i == |keys| {
        r := [];
      } else {
        r := keys[i].GetAllTranslations();
      }
    }

    /** The first key in this container whose id contains `term`, ignoring case, with the names that locate it. */
    method FindKeyLike(package: string, term: string) returns (r: Option<KeyHit>)
      requires Valid() && NoMeta(term)
      ensures r == (match FindInKeys(model.keys, term)
                    case Some(k) => Some(KeyHit(package, name, k))
                    case None => None)
    {
      var i := FindKey(term);
      if i == |keys| {
        r := None;
      } else {
        r := Some(KeyHit(package, name, keys[i].Value()));
      }
    }

    /** Container::setTranslation: the first matching key, created when none matches, receives the translation. */
    method SetTranslation(key: string, lang: string, s: string)
      requires Valid() && NoMeta(key)
      modifies Repr
      ensures Valid() && fresh(Repr - old(Repr))
      ensures model == ContainerSet(old(model), key, lang, s)
    {
      var i := FindKey(key);
      if i == |keys| {
        AddKey(key);
        UpdateKey(i, lang, s);
        assert model.keys == old(model).keys + [KeySet(KeyV(key, []), lang, s)];
      } else {
        UpdateKey(i, lang, s);
      }
    }

    /** Appends a new key without translations. */
    method AddKey(id: string)
      requires Valid()
      modifies this
      ensures Valid() && fresh(Repr - old(Repr))
      ensures model == ContainerV(name, old(model).keys + [KeyV(id, [])])
    {
      var k := new Key(id);
      AttachKey(k);
    }

    /** A key created with this container as its parent becomes its last child. */
    method AttachKey(k: Key)
      requires Valid() && k.Valid() && k.Repr !! Repr
      modifies this
      ensures Valid() && Repr == old(Repr) + k.Repr
      ensures model == ContainerV(name, old(model).keys + [k.model])
    {
      keys := keys + [k];
      model := ContainerV(name, model.keys + [k.model]);
      Repr := Repr + k.Repr;
    }

    /** Writes the translation into the key at index `i` and keeps every other key as it was. */
    method UpdateKey(i: nat, lang: string, s: string)
      requires Valid() && i < |keys|
      modifies Repr
      ensures Valid() && fresh(Repr - old(Repr))
      ensures model == ContainerV(name, old(model).keys[i := KeySet(old(model).keys[i], lang, s)])
    {
      var k := keys[i];
      k.SetTranslation(lang, s);
      Repr := Repr + k.Repr;
      model := ContainerV(name, model.keys[i := k.model]);
    }

    /** Appends copies of `ts` to the first key with exactly the id `id`; nothing when there is none. */
    method AppendToKey(id: string, ts: seq<TranslationV>)
      requires Valid()
      modifies Repr
      ensures Valid() && fresh(Repr - old(Repr))
      ensures model == ContainerAppend(old(model), id, ts)
    {
      var l := FindKeyExact(id);
      if l < |keys| {
        ExtendKey(l, ts);
      }
    }

    /** Appends copies of `ts` to the key at index `l` and keeps every other key as it was. */
    method ExtendKey(l: nat, ts: seq<TranslationV>)
      requires Valid() && l < |keys|
      modifies Repr
      ensures Valid() && fresh(Repr - old(Repr))
      ensures model == ContainerV(name, old(model).keys[l := KeyV(old(model).keys[l].id, old(model).keys[l].translations + ts)])
    {
      var k := keys[l];
      k.AddTranslations(ts);
      Repr := Repr + k.Repr;
      model := ContainerV(name, model.keys[l := k.model]);
    }
  }

  class Package {
    /** The package name (the object name). */
    const name: string
    var containers: seq<Container>
    ghost var model: PackageV
    ghost var Repr: set<object>

    ghost predicate Valid()
      reads this, Repr
    {
      && this in Repr
      && model.name == name
      && |model.containers| == |containers|
      && (forall i :: 0 <= i < |containers| ==>
            containers[i] in Repr && containers[i].Repr <= Repr && this !in containers[i].Repr
            && containers[i].Valid() && containers[i].model == model.containers[i])
      && (forall i, j :: 0 <= i < |containers| && 0 <= j < |containers| && i != j ==>
            containers[i].Repr !! containers[j].Repr)
    }

    constructor (name: string)
      ensures Valid() && fresh(Repr)
      ensures model == PackageV(name, [])
    {
      this.name := name;
      containers := [];
      model := PackageV(name, []);
      Repr := {this};
    }

    /** findChild<Container*>(name, FindDirectChildrenOnly): exact, case-sensitive name. */
    method FindContainer(container: string) returns (j: nat)
      requires Valid()
      ensures j == ContainerIndex(model.containers, container)
    {
      j := 0;
      while j < |containers| && containers[j].name != container
        invariant j <= |containers|
        invariant forall m :: 0 <= m < j ==> model.containers[m].name != container
      {
        j := j + 1;
      }
      ghost var m := ContainerIndex(model.containers, container);
      assert m <= j;
    }

    /** Package::getTranslation. */
    method GetTranslation(container: string, key: string, lang: string) returns (r: Option<Translation>)
      requires Valid() && NoMeta(key)
      ensures r.None? <==> PackageGet(model, container, key, lang).None?
      ensures r.Some? ==> r.value.Model() == TranslationV(lang, PackageGet(model, container, key, lang).value)
    {
      var j := FindContainer(container);
      if j == |containers| {
        r := None;
      } else {
        r := containers[j].GetTranslation(key, lang);
      }
    }

    /** Package::getAllTranslations. */
    method GetAllTranslations(container: string, key: string) returns (r: seq<Translation>)
      requires Valid() && NoMeta(key)
      ensures TranslationsModel(r) == PackageGetAll(model, container, key)
    {
      var j := FindContainer(container);
      if j == |containers| {
        r := [];
      } else {
        r := containers[j].GetAllTranslations(key);
      }
    }

    /** The first key in this package, container by container, whose id contains `term`, ignoring case. */
    method FindKeyLike(term: string) returns (r: Option<KeyHit>)
      requires Valid() && NoMeta(term)
      ensures r == FindInContainers(name, model.containers, term)
    {
      ghost var cs := model.containers;
      var j := 0;
      r := None;
      while j < |containers| && r.None?
        invariant j <= |containers|
        invariant FindInContainers(name, cs, term) == if r.None? then FindInContainers(name, cs[j..], term) else r
      {
        assert cs[j..][1..] == cs[j + 1..];
        r := containers[j].FindKeyLike(name, term);
        j := j + 1;
      }
      if r.None? {
        assert cs[j..] == [];
      }
    }

    /** Package::setTranslation: the container with that exact name, created when absent, receives the translation. */
    method SetTranslation(container: string, key: string, lang: string, s: string)
      requires Valid() && NoMeta(key)
      modifies Repr
      ensures Valid() && fresh(Repr - old(Repr))
      ensures model == PackageSet(old(model), container, key, lang, s)
    {
      var j := FindContainer(container);
      if j == |containers| {
        AddContainer(container);
        UpdateContainer(j, key, lang, s);
        assert model.containers == old(model).containers + [ContainerSet(ContainerV(container, []), key, lang, s)];
      } else {
        UpdateContainer(j, key, lang, s);
      }
    }

    /** Appends a new, empty container. */
    method AddContainer(container: string)
      requires Valid()
      modifies this
      ensures Valid() && fresh(Repr - old(Repr))
      ensures model == PackageV(name, old(model).containers + [ContainerV(container, [])])
    {
      var c := new Container(container);
      AttachContainer(c);
    }

    /** A container created with this package as its parent becomes its last child. */
    method AttachContainer(c: Container)
      requires Valid() && c.Valid() && c.Repr !! Repr
      modifies this
      ensures Valid() && Repr == old(Repr) + c.Repr
      ensures model == PackageV(name, old(model).containers + [c.model])
    {
      containers := containers + [c];
      model := PackageV(name, model.containers + [c.model]);
      Repr := Repr + c.Repr;
    }

    /** Writes the translation through the container at index `j`; the other containers stay as they were. */
    method UpdateContainer(j: nat, key: string, lang: string, s: string)
      requires Valid() && j < |containers| && NoMeta(key)
      modifies Repr
      ensures Valid() && fresh(Repr - old(Repr))
      ensures model == PackageV(name, old(model).containers[j := ContainerSet(old(model).containers[j], key, lang, s)])
    {
      var c := containers[j];
      c.SetTranslation(key, lang, s);
      Repr := Repr + c.Repr;
      model := PackageV(name, model.containers[j := c.model]);
    }

    /** Appends copies of `ts` to the key at the exact container name and key id, if both exist. */
    method AppendAt(container: string, key: string, ts: seq<TranslationV>)
      requires Valid()
      modifies Repr
      ensures Valid() && fresh(Repr - old(Repr))
      ensures model == PackageAppend(old(model), container, key, ts)
    {
      var j := FindContainer(container);
      if j < |containers| {
        ExtendContainer(j, key, ts);
      }
    }

    /** Appends through the container at index `j` and keeps every other container as it was. */
    method ExtendContainer(j: nat, key: string, ts: seq<TranslationV>)
      requires Valid() && j < |containers|
      modifies Repr
      ensures Valid() && fresh(Repr - old(Repr))
      ensures model == PackageV(name, old(model).containers[j := ContainerAppend(old(model).containers[j], key, ts)])
    {
      var c := containers[j];
      c.AppendToKey(key, ts);
      Repr := Repr + c.Repr;
      model := PackageV(name, model.containers[j := c.model]);
    }
  }

  class Project {
    /** The project name (the object name); the XLIFF reader renames the project. */
    var name: string
    var packages: seq<Package>
    ghost var model: ProjectV
    ghost var Repr: set<object>

    ghost predicate Valid()
      reads this, Repr
    {
      && this in Repr
      && model.name == name
      && |model.packages| == |packages|
      && (forall i :: 0 <= i < |packages| ==>
            packages[i] in Repr && packages[i].Repr <= Repr && this !in packages[i].Repr
            && packages[i].Valid() && packages[i].model == model.packages[i])
      && (forall i, j :: 0 <= i < |packages| && 0 <= j < |packages| && i != j ==>
            packages[i].Repr !! packages[j].Repr)
    }

    constructor (name: string)
      ensures Valid() && fresh(Repr)
      ensures model == ProjectV(name, [])
    {
      this.name := name;
      packages := [];
      model := ProjectV(name, []);
      Repr := {this};
    }

    /** setObjectName: renames the project and leaves its packages alone. */
    method SetName(n: string)
      requires Valid()
      modifies this
      ensures Valid() && Repr == old(Repr)
      ensures model == ProjectV(n, old(model).packages)
    {
      name := n;
      model := ProjectV(n, model.packages);
    }

    /** findChild<Package*>(name, FindDirectChildrenOnly): exact, case-sensitive name. */
    method FindPackage(package: string) returns (i: nat)
      requires Valid()
      ensures i == PackageIndex(model.packages, package)
    {
      i := 0;
      while i < |packages| && packages[i].name != package
        invariant i <= |packages|
        invariant forall m :: 0 <= m < i ==> model.packages[m].name != package
      {
        i := i + 1;
      }
      ghost var m := PackageIndex(model.packages, package);
      assert m <= i;
    }

    /** Project::getTranslation. */
    method GetTranslation(package: string, container: string, key: string, lang: string) returns (r: Option<Translation>)
      requires Valid() && NoMeta(key)
      ensures r.None? <==> ProjectGet(model, package, container, key, lang).None?
      ensures r.Some? ==> r.value.Model() == TranslationV(lang, ProjectGet(model, package, container, key, lang).value)
    {
      var i := FindPackage(package);
      if i == |packages| {
        r := None;
      } else {
        r := packages[i].GetTranslation(container, key, lang);
      }
    }

    /** Project::getAllTranslations. */
    method GetAllTranslations(package: string, container: string, key: string) returns (r: seq<Translation>)
      requires Valid() && NoMeta(key)
      ensures TranslationsModel(r) == ProjectGetAll(model, package, container, key)
    {
      var i := FindPackage(package);
      if i == |packages| {
        r := [];
      } else {
        r := packages[i].GetAllTranslations(container, key);
      }
    }

    /**
     * findChildren<Key*>(regex, FindChildrenRecursively).first(): the first
     * key in pre-order whose id contains `term`, ignoring case.
     */
    method FindKeyLike(term: string) returns (r: Option<KeyHit>)
      requires Valid() && NoMeta(term)
      ensures r == FindKeyRecursive(model, term)
    {
      ghost var ps := model.packages;
      var i := 0;
      r := None;
      while i < |packages| && r.None?
        invariant i <= |packages|
        invariant FindInPackages(ps, term) == if r.None? then FindInPackages(ps[i..], term) else r
      {
        FindInPackagesStep(ps, i, term);
        var p := packages[i];
        assert p.Valid() && p.model == ps[i];
        r := p.FindKeyLike(term);
        i := i + 1;
      }
      if r.None? {
        assert ps[i..] == [];
      }
      assert FindKeyRecursive(model, term) == FindInPackages(ps, term);
    }

    /** Project::setTranslation: the package with that exact name, created when absent, receives the translation. */
    method SetTranslation(package: string, container: string, key: string, lang: string, s: string)
      requires Valid() && NoMeta(key)
      modifies Repr
      ensures Valid() && fresh(Repr - old(Repr))
      ensures model == ProjectSet(old(model), package, container, key, lang, s)
    {
      var i := FindPackage(package);
      if i == |packages| {
        AddPackage(package);
        UpdatePackage(i, container, key, lang, s);
        assert model.packages == old(model).packages + [PackageSet(PackageV(package, []), container, key, lang, s)];
      } else {
        UpdatePackage(i, container, key, lang, s);
      }
    }

    /** Appends a new, empty package. */
    method AddPackage(package: string)
      requires Valid()
      modifies this
      ensures Valid() && fresh(Repr - old(Repr))
      ensures model == ProjectV(old(model).name, old(model).packages + [PackageV(package, [])])
    {
      var p := new Package(package);
      AttachPackage(p);
    }

    /** A package created with this project as its parent becomes its last child. */
    method AttachPackage(p: Package)
      requires Valid() && p.Valid() && p.Repr !! Repr
      modifies this
      ensures Valid() && Repr == old(Repr) + p.Repr
      ensures model == ProjectV(old(model).name, old(model).packages + [p.model])
    {
      packages := packages + [p];
      model := ProjectV(name, model.packages + [p.model]);
      Repr := Repr + p.Repr;
    }

    /** Writes the translation through the package at index `i`; the other packages stay as they were. */
    method UpdatePackage(i: nat, container: string, key: string, lang: string, s: string)
      requires Valid() && i < |packages| && NoMeta(key)
      modifies Repr
      ensures Valid() && fresh(Repr - old(Repr))
      ensures model == ProjectV(old(model).name, old(model).packages[i := PackageSet(old(model).packages[i], container, key, lang, s)])
    {
      var p := packages[i];
      p.SetTranslation(container, key, lang, s);
      Repr := Repr + p.Repr;
      model := ProjectV(name, model.packages[i := p.model]);
    }

    /** Appends copies of `ts` to the key at the exact package name, container name and key id, if all exist. */
    method AppendAt(package: string, container: string, key: string, ts: seq<TranslationV>)
      requires Valid()
      modifies Repr
      ensures Valid() && fresh(Repr - old(Repr))
      ensures model == AppendAtExactPath(old(model), package, container, key, ts)
    {
      var i := FindPackage(package);
      if i < |packages| {
        ExtendPackage(i, container, key, ts);
      }
    }

    /** Appends through the package at index `i` and keeps every other package as it was. */
    method ExtendPackage(i: nat, container: string, key: string, ts: seq<TranslationV>)
      requires Valid() && i < |packages|
      modifies Repr
      ensures Valid() && fresh(Repr - old(Repr))
      ensures model == ProjectV(old(model).name, old(model).packages[i := PackageAppend(old(model).packages[i], container, key, ts)])
    {
      var p := packages[i];
      p.AppendAt(container, key, ts);
      Repr := Repr + p.Repr;
      model := ProjectV(name, model.packages[i := p.model]);
    }
  }
}
