/**
 * The value view of the translation catalog: Project -> Package -> Container
 * -> Key -> Translation, each level an ordered sequence that may repeat
 * names. The operations here are the specifications the objects of module
 * Tree are proved against, and the lemmas state what the lookups and the
 * create/update/delete rule promise.
 */
module Catalog {
  import opened Wrappers
  import opened Strings

  /** A Translation object: its object name is the language tag. */
  datatype TranslationV = TranslationV(lang: string, text: string)
  /** A Key object: its object name is the key id. */
  datatype KeyV = KeyV(id: string, translations: seq<TranslationV>)
  datatype ContainerV = ContainerV(name: string, keys: seq<KeyV>)
  datatype PackageV = PackageV(name: string, containers: seq<ContainerV>)
  datatype ProjectV = ProjectV(name: string, packages: seq<PackageV>)

  /** The reserved tag of the untranslated source text. */
  const ORIGINAL: string := "Original"

  /** The project name both readers fall back to when the document names none. */
  const DEFAULT_PROJECT_NAME: string := "My Project"

  // ---------------------------------------------------------------------
  // Key: translations are found by exact tag, first in child order.

  /** Key::findChild<Translation*>(lang): the first translation with exactly this tag. */
  function LangIndex(ts: seq<TranslationV>, lang: string): (i: nat)
    ensures i <= |ts|
    ensures i < |ts| ==> ts[i].lang == lang
    ensures forall j :: 0 <= j < i ==> ts[j].lang != lang
  {
    if ts == [] || ts[0].lang == lang then 0 else 1 + LangIndex(ts[1..], lang)
  }

  predicate HasTag(ts: seq<TranslationV>, lang: string)
  {
    exists j :: 0 <= j < |ts| && ts[j].lang == lang
  }

  /** Key::getTranslation: the text of the first translation tagged `lang`. */
  function KeyGet(k: KeyV, lang: string): (r: Option<string>)
    ensures r.None? <==> !HasTag(k.translations, lang)
    ensures r.Some? ==> exists i :: 0 <= i < |k.translations| && k.translations[i] == TranslationV(lang, r.value)
                                    && forall j :: 0 <= j < i ==> k.translations[j].lang != lang
  {
    var i := LangIndex(k.translations, lang);
    if i < |k.translations| then Some(k.translations[i].text) else None
  }

  /** Key::setTranslation: update, create or delete the first translation tagged `lang`. */
  function KeySet(k: KeyV, lang: string, s: string): (r: KeyV)
    ensures r.id == k.id
  {
    var ts := k.translations;
    var i := LangIndex(ts, lang);
    if i < |ts| && s != "" then KeyV(k.id, ts[i := TranslationV(lang, s)])
    else if i == |ts| && s != "" then KeyV(k.id, ts + [TranslationV(lang, s)])
    else if i < |ts| && s == "" then KeyV(k.id, ts[..i] + ts[i + 1..])
    else k
  }

  /** The translations whose tag is not `lang`, in order. */
  function OtherTags(ts: seq<TranslationV>, lang: string): seq<TranslationV>
  {
    if ts == [] then []
    else (if ts[0].lang == lang then [] else [ts[0]]) + OtherTags(ts[1..], lang)
  }

  /** How many translations carry the tag `lang`. */
  function CountTag(ts: seq<TranslationV>, lang: string): nat
  {
    if ts == [] then 0
    else (if ts[0].lang == lang then 1 else 0) + CountTag(ts[1..], lang)
  }

  lemma {:induction false} OtherTagsAppend(a: seq<TranslationV>, b: seq<TranslationV>, lang: string)
    ensures OtherTags(a + b, lang) == OtherTags(a, lang) + OtherTags(b, lang)
    ensures CountTag(a + b, lang) == CountTag(a, lang) + CountTag(b, lang)
  {
    if a != [] {
      assert (a + b)[1..] == a[1..] + b;
      OtherTagsAppend(a[1..], b, lang);
    } else {
      assert a + b == b;
    }
  }

  lemma {:induction false} CountTagZero(ts: seq<TranslationV>, lang: string)
    requires CountTag(ts, lang) == 0
    ensures !HasTag(ts, lang)
  {
    if ts != [] {
      CountTagZero(ts[1..], lang);
      assert forall j :: 1 <= j < |ts| ==> ts[j] == ts[1..][j - 1];
    }
  }

  /** The lookup reads the first translation when it carries the tag, and the rest otherwise. */
  lemma {:induction false} KeyGetCons(id: string, ts: seq<TranslationV>, l: string)
    requires ts != []
    ensures KeyGet(KeyV(id, ts), l) == if ts[0].lang == l then Some(ts[0].text) else KeyGet(KeyV(id, ts[1..]), l)
  {
    if ts[0].lang != l {
      var i := LangIndex(ts[1..], l);
      assert LangIndex(ts, l) == 1 + i;
      assert i < |ts[1..]| ==> ts[1..][i] == ts[1 + i];
    }
  }

  /** Removing every `lang` translation does not change the lookup of another tag. */
  lemma {:induction false} KeyGetOtherTags(id: string, ts: seq<TranslationV>, lang: string, l: string)
    requires l != lang
    ensures KeyGet(KeyV(id, ts), l) == KeyGet(KeyV(id, OtherTags(ts, lang)), l)
  {
    if ts != [] {
      KeyGetOtherTags(id, ts[1..], lang, l);
      KeyGetCons(id, ts, l);
      var rest := OtherTags(ts[1..], lang);
      if ts[0].lang == lang {
        assert OtherTags(ts, lang) == rest;
      } else {
        var others := [ts[0]] + rest;
        assert OtherTags(ts, lang) == others;
        assert others[1..] == rest;
        KeyGetCons(id, others, l);
      }
    }
  }

  /**
   * The shape of Key::setTranslation: non-empty text updates the first
   * `lang` translation in place or appends one; empty text removes the first
   * `lang` translation, or changes nothing when there is none.
   */
  lemma KeySetShape(k: KeyV, lang: string, s: string)
    ensures var ts, r := k.translations, KeySet(k, lang, s).translations;
            var i := LangIndex(ts, lang);
            && (HasTag(ts, lang) && s != "" ==> |r| == |ts| && r == ts[i := TranslationV(lang, s)])
            && (!HasTag(ts, lang) && s != "" ==> r == ts + [TranslationV(lang, s)])
            && (HasTag(ts, lang) && s == "" ==> |r| == |ts| - 1 && r == ts[..i] + ts[i + 1..])
            && (!HasTag(ts, lang) && s == "" ==> KeySet(k, lang, s) == k)
  {
  }

  /** After setting non-empty text, the lookup of that tag yields it. */
  lemma KeySetThenGet(k: KeyV, lang: string, s: string)
    requires s != ""
    ensures KeyGet(KeySet(k, lang, s), lang) == Some(s)
  {
    var ts := k.translations;
    var i := LangIndex(ts, lang);
    var r := KeySet(k, lang, s).translations;
    if i == |ts| {
      assert r[|ts|] == TranslationV(lang, s);
      assert LangIndex(r, lang) == |ts|;
    } else {
      assert r[i] == TranslationV(lang, s);
      assert LangIndex(r, lang) == i;
    }
  }

  /**
   * Key::setTranslation never touches translations with another tag, and
   * changes the number of translations by at most one.
   */
  lemma KeySetKeepsOtherTags(k: KeyV, lang: string, s: string)
    ensures var r := KeySet(k, lang, s);
            && OtherTags(r.translations, lang) == OtherTags(k.translations, lang)
            && |k.translations| - 1 <= |r.translations| <= |k.translations| + 1
            && forall l :: l != lang ==> KeyGet(r, l) == KeyGet(k, l)
  {
    var ts := k.translations;
    var i := LangIndex(ts, lang);
    var r := KeySet(k, lang, s);
    if i < |ts| {
      assert ts == ts[..i] + [ts[i]] + ts[i + 1..];
      OtherTagsAppend(ts[..i] + [ts[i]], ts[i + 1..], lang);
      OtherTagsAppend(ts[..i], [ts[i]], lang);
      if s != "" {
        var x := TranslationV(lang, s);
        assert r.translations == ts[..i] + [x] + ts[i + 1..];
        OtherTagsAppend(ts[..i] + [x], ts[i + 1..], lang);
        OtherTagsAppend(ts[..i], [x], lang);
      } else {
        OtherTagsAppend(ts[..i], ts[i + 1..], lang);
      }
    } else if s != "" {
      OtherTagsAppend(ts, [TranslationV(lang, s)], lang);
    }
    assert OtherTags(r.translations, lang) == OtherTags(ts, lang);
    forall l | l != lang ensures KeyGet(r, l) == KeyGet(k, l) {
      KeyGetOtherTags(k.id, ts, lang, l);
      KeyGetOtherTags(k.id, r.translations, lang, l);
    }
  }

  /** Empty text deletes: when at most one translation has the tag, none is left afterwards. */
  lemma KeySetEmptyDeletes(k: KeyV, lang: string)
    requires CountTag(k.translations, lang) <= 1
    ensures KeyGet(KeySet(k, lang, ""), lang) == None
  {
    var ts := k.translations;
    var i := LangIndex(ts, lang);
    if i < |ts| {
      assert ts == ts[..i] + [ts[i]] + ts[i + 1..];
      OtherTagsAppend(ts[..i] + [ts[i]], ts[i + 1..], lang);
      OtherTagsAppend(ts[..i], [ts[i]], lang);
      OtherTagsAppend(ts[..i], ts[i + 1..], lang);
      CountTagZero(ts[..i] + ts[i + 1..], lang);
    }
  }

  // ---------------------------------------------------------------------
  // Container: keys are found by an unanchored case-insensitive regular
  // expression built from the search term; for a term without
  // metacharacters that is case-insensitive substring search.

  function KeyIndex(keys: seq<KeyV>, term: string): (i: nat)
    ensures i <= |keys|
    ensures i < |keys| ==> ContainsIgnoreCase(keys[i].id, term)
    ensures forall j :: 0 <= j < i ==> !ContainsIgnoreCase(keys[j].id, term)
  {
    if keys == [] || ContainsIgnoreCase(keys[0].id, term) then 0 else 1 + KeyIndex(keys[1..], term)
  }

  /** Container::setTranslation: write to the first matching key, or create one first. */
  function ContainerSet(c: ContainerV, key: string, lang: string, s: string): (r: ContainerV)
    requires NoMeta(key)
    ensures r.name == c.name
  {
    var i := KeyIndex(c.keys, key);
    if i == |c.keys| then ContainerV(c.name, c.keys + [KeySet(KeyV(key, []), lang, s)])
    else ContainerV(c.name, c.keys[i := KeySet(c.keys[i], lang, s)])
  }

  /** Container::getTranslation. */
  function ContainerGet(c: ContainerV, key: string, lang: string): (r: Option<string>)
    requires NoMeta(key)
    ensures KeyIndex(c.keys, key) == |c.keys| ==> r == None
  {
    var i := KeyIndex(c.keys, key);
    if i == |c.keys| then None else KeyGet(c.keys[i], lang)
  }

  /** Container::getAllTranslations. */
  function ContainerGetAll(c: ContainerV, key: string): (r: seq<TranslationV>)
    requires NoMeta(key)
    ensures KeyIndex(c.keys, key) == |c.keys| ==> r == []
  {
    var i := KeyIndex(c.keys, key);
    if i == |c.keys| then [] else c.keys[i].translations
  }

  /** Key lookup depends on ids only, so rewriting a key with the same id keeps every lookup. */
  lemma {:induction false} KeyIndexSameIds(a: seq<KeyV>, b: seq<KeyV>, term: string)
    requires |a| == |b|
    requires forall j :: 0 <= j < |a| ==> a[j].id == b[j].id
    ensures KeyIndex(a, term) == KeyIndex(b, term)
  {
    if a != [] {
      KeyIndexSameIds(a[1..], b[1..], term);
    }
  }

  lemma {:induction false} KeyIndexAppend(a: seq<KeyV>, k: KeyV, term: string)
    requires KeyIndex(a, term) == |a|
    requires ContainsIgnoreCase(k.id, term)
    ensures KeyIndex(a + [k], term) == |a|
  {
    if a != [] {
      assert (a + [k])[1..] == a[1..] + [k];
      KeyIndexAppend(a[1..], k, term);
    }
  }

  /**
   * The shape of Container::setTranslation: a key is created (even for empty
   * text, which leaves it without translations) only when no key id
   * contains the term; otherwise the first match is written and every other
   * key is left as it was.
   */
  lemma ContainerSetShape(c: ContainerV, key: string, lang: string, s: string)
    requires NoMeta(key)
    ensures var r, i := ContainerSet(c, key, lang, s), KeyIndex(c.keys, key);
            && (i == |c.keys| ==> r.keys == c.keys + [KeySet(KeyV(key, []), lang, s)])
            && (i == |c.keys| && s == "" ==> r.keys == c.keys + [KeyV(key, [])])
            && (i < |c.keys| ==>
                  && |r.keys| == |c.keys| && r.keys[i] == KeySet(c.keys[i], lang, s)
                  && forall j :: 0 <= j < |c.keys| && j != i ==> r.keys[j] == c.keys[j])
  {
  }

  /** A non-empty set through a container is found again by the same key term. */
  lemma ContainerSetThenGet(c: ContainerV, key: string, lang: string, s: string)
    requires NoMeta(key) && s != ""
    ensures ContainerGet(ContainerSet(c, key, lang, s), key, lang) == Some(s)
  {
    var i := KeyIndex(c.keys, key);
    var r := ContainerSet(c, key, lang, s);
    if i == |c.keys| {
      var nk := KeySet(KeyV(key, []), lang, s);
      ContainsIgnoreCaseSelf(key);
      KeyIndexAppend(c.keys, nk, key);
      KeySetThenGet(KeyV(key, []), lang, s);
    } else {
      KeyIndexSameIds(c.keys, r.keys, key);
      KeySetThenGet(c.keys[i], lang, s);
    }
  }

  // ---------------------------------------------------------------------
  // Package and Project: children are found by exact, case-sensitive name.

  /** Package::findChild<Container*>(name): the first container with exactly this name. */
  function ContainerIndex(cs: seq<ContainerV>, name: string): (i: nat)
    ensures i <= |cs|
    ensures i < |cs| ==> cs[i].name == name
    ensures forall j :: 0 <= j < i ==> cs[j].name != name
  {
    if cs == [] || cs[0].name == name then 0 else 1 + ContainerIndex(cs[1..], name)
  }

  /** Project::findChild<Package*>(name): the first package with exactly this name. */
  function PackageIndex(ps: seq<PackageV>, name: string): (i: nat)
    ensures i <= |ps|
    ensures i < |ps| ==> ps[i].name == name
    ensures forall j :: 0 <= j < i ==> ps[j].name != name
  {
    if ps == [] || ps[0].name == name then 0 else 1 + PackageIndex(ps[1..], name)
  }

  /** Package::setTranslation: the container with that exact name, created if absent. */
  function PackageSet(p: PackageV, container: string, key: string, lang: string, s: string): (r: PackageV)
    requires NoMeta(key)
    ensures r.name == p.name
  {
    var i := ContainerIndex(p.containers, container);
    if i == |p.containers| then PackageV(p.name, p.containers + [ContainerSet(ContainerV(container, []), key, lang, s)])
    else PackageV(p.name, p.containers[i := ContainerSet(p.containers[i], key, lang, s)])
  }

  function PackageGet(p: PackageV, container: string, key: string, lang: string): (r: Option<string>)
    requires NoMeta(key)
    ensures ContainerIndex(p.containers, container) == |p.containers| ==> r == None
  {
    var i := ContainerIndex(p.containers, container);
    if i == |p.containers| then None else ContainerGet(p.containers[i], key, lang)
  }

  function PackageGetAll(p: PackageV, container: string, key: string): (r: seq<TranslationV>)
    requires NoMeta(key)
    ensures ContainerIndex(p.containers, container) == |p.containers| ==> r == []
  {
    var i := ContainerIndex(p.containers, container);
    if i == |p.containers| then [] else ContainerGetAll(p.containers[i], key)
  }

  /** Project::setTranslation: the package with that exact name, created if absent. */
  function ProjectSet(p: ProjectV, package: string, container: string, key: string, lang: string, s: string): (r: ProjectV)
    requires NoMeta(key)
    ensures r.name == p.name
  {
    var i := PackageIndex(p.packages, package);
    if i == |p.packages| then ProjectV(p.name, p.packages + [PackageSet(PackageV(package, []), container, key, lang, s)])
    else ProjectV(p.name, p.packages[i := PackageSet(p.packages[i], container, key, lang, s)])
  }

  function ProjectGet(p: ProjectV, package: string, container: string, key: string, lang: string): (r: Option<string>)
    requires NoMeta(key)
    ensures PackageIndex(p.packages, package) == |p.packages| ==> r == None
  {
    var i := PackageIndex(p.packages, package);
    if i == |p.packages| then None else PackageGet(p.packages[i], container, key, lang)
  }

  function ProjectGetAll(p: ProjectV, package: string, container: string, key: string): (r: seq<TranslationV>)
    requires NoMeta(key)
    ensures PackageIndex(p.packages, package) == |p.packages| ==> r == []
  {
    var i := PackageIndex(p.packages, package);
    if i == |p.packages| then [] else PackageGetAll(p.packages[i], container, key)
  }

  lemma {:induction false} ContainerIndexSameNames(a: seq<ContainerV>, b: seq<ContainerV>, name: string)
    requires |a| == |b|
    requires forall j :: 0 <= j < |a| ==> a[j].name == b[j].name
    ensures ContainerIndex(a, name) == ContainerIndex(b, name)
  {
    if a != [] {
      ContainerIndexSameNames(a[1..], b[1..], name);
    }
  }

  lemma {:induction false} PackageIndexSameNames(a: seq<PackageV>, b: seq<PackageV>, name: string)
    requires |a| == |b|
    requires forall j :: 0 <= j < |a| ==> a[j].name == b[j].name
    ensures PackageIndex(a, name) == PackageIndex(b, name)
  {
    if a != [] {
      PackageIndexSameNames(a[1..], b[1..], name);
    }
  }

  lemma PackageSetThenGet(p: PackageV, container: string, key: string, lang: string, s: string)
    requires NoMeta(key) && s != ""
    ensures PackageGet(PackageSet(p, container, key, lang, s), container, key, lang) == Some(s)
  {
    var i := ContainerIndex(p.containers, container);
    var r := PackageSet(p, container, key, lang, s);
    if i == |p.containers| {
      ContainerSetThenGet(ContainerV(container, []), key, lang, s);
      assert ContainerIndex(r.containers, container) == i by {
        ContainerIndexSameNames(p.containers, r.containers[..i], container);
        assert r.containers == r.containers[..i] + [r.containers[i]];
        ContainerIndexAppend(r.containers[..i], r.containers[i], container);
      }
    } else {
      ContainerIndexSameNames(p.containers, r.containers, container);
      ContainerSetThenGet(p.containers[i], key, lang, s);
    }
  }

  lemma {:induction false} ContainerIndexAppend(a: seq<ContainerV>, c: ContainerV, name: string)
    requires ContainerIndex(a, name) == |a| && c.name == name
    ensures ContainerIndex(a + [c], name) == |a|
  {
    if a != [] {
      assert (a + [c])[1..] == a[1..] + [c];
      ContainerIndexAppend(a[1..], c, name);
    }
  }

  lemma {:induction false} PackageIndexAppend(a: seq<PackageV>, p: PackageV, name: string)
    requires PackageIndex(a, name) == |a| && p.name == name
    ensures PackageIndex(a + [p], name) == |a|
  {
    if a != [] {
      assert (a + [p])[1..] == a[1..] + [p];
      PackageIndexAppend(a[1..], p, name);
    }
  }

  /** Appending a container moves no earlier match; a miss stays a miss unless the new container has the name. */
  lemma {:induction false} ContainerIndexSnoc(a: seq<ContainerV>, c: ContainerV, name: string)
    ensures ContainerIndex(a + [c], name)
            == if ContainerIndex(a, name) < |a| then ContainerIndex(a, name)
               else if c.name == name then |a| else |a| + 1
  {
    if a != [] {
      assert (a + [c])[1..] == a[1..] + [c];
      ContainerIndexSnoc(a[1..], c, name);
    }
  }

  lemma {:induction false} PackageIndexSnoc(a: seq<PackageV>, p: PackageV, name: string)
    ensures PackageIndex(a + [p], name)
            == if PackageIndex(a, name) < |a| then PackageIndex(a, name)
               else if p.name == name then |a| else |a| + 1
  {
    if a != [] {
      assert (a + [p])[1..] == a[1..] + [p];
      PackageIndexSnoc(a[1..], p, name);
    }
  }

  /**
   * The shape of Package::setTranslation: a container is created only when
   * none has exactly that name; otherwise the first one with the name is
   * written and every other container is left as it was.
   */
  lemma PackageSetShape(p: PackageV, container: string, key: string, lang: string, s: string)
    requires NoMeta(key)
    ensures var r, i := PackageSet(p, container, key, lang, s), ContainerIndex(p.containers, container);
            && (i == |p.containers| ==> r.containers == p.containers + [ContainerSet(ContainerV(container, []), key, lang, s)])
            && (i < |p.containers| ==>
                  && |r.containers| == |p.containers| && r.containers[i] == ContainerSet(p.containers[i], key, lang, s)
                  && forall j :: 0 <= j < |p.containers| && j != i ==> r.containers[j] == p.containers[j])
  {
  }

  /**
   * The shape of Project::setTranslation: a package is created only when
   * none has exactly that name; otherwise the first one with the name is
   * written and every other package is left as it was.
   */
  lemma ProjectSetShape(p: ProjectV, package: string, container: string, key: string, lang: string, s: string)
    requires NoMeta(key)
    ensures var r, i := ProjectSet(p, package, container, key, lang, s), PackageIndex(p.packages, package);
            && (i == |p.packages| ==> r.packages == p.packages + [PackageSet(PackageV(package, []), container, key, lang, s)])
            && (i < |p.packages| ==>
                  && |r.packages| == |p.packages| && r.packages[i] == PackageSet(p.packages[i], container, key, lang, s)
                  && forall j :: 0 <= j < |p.packages| && j != i ==> r.packages[j] == p.packages[j])
  {
  }

  /** Package::setTranslation changes nothing that Package::getTranslation reads through another container name. */
  lemma {:induction false} PackageSetOtherContainer(p: PackageV, container: string, key: string, lang: string, s: string,
                                                    container2: string, key2: string, lang2: string)
    requires NoMeta(key) && NoMeta(key2) && container2 != container
    ensures PackageGet(PackageSet(p, container, key, lang, s), container2, key2, lang2) == PackageGet(p, container2, key2, lang2)
  {
    var i := ContainerIndex(p.containers, container);
    var r := PackageSet(p, container, key, lang, s);
    if i == |p.containers| {
      assert r.containers == p.containers + [r.containers[i]];
      ContainerIndexSnoc(p.containers, r.containers[i], container2);
    } else {
      ContainerIndexSameNames(p.containers, r.containers, container2);
    }
  }

  /**
   * Project::setTranslation changes nothing that Project::getTranslation
   * reads through another package name, or another container name in the
   * same package.
   */
  lemma {:induction false} ProjectSetOtherPath(p: ProjectV, package: string, container: string, key: string, lang: string, s: string,
                                               package2: string, container2: string, key2: string, lang2: string)
    requires NoMeta(key) && NoMeta(key2) && (package2 != package || container2 != container)
    ensures ProjectGet(ProjectSet(p, package, container, key, lang, s), package2, container2, key2, lang2)
            == ProjectGet(p, package2, container2, key2, lang2)
  {
    var i := PackageIndex(p.packages, package);
    var r := ProjectSet(p, package, container, key, lang, s);
    if package2 != package {
      if i == |p.packages| {
        assert r.packages == p.packages + [r.packages[i]];
        PackageIndexSnoc(p.packages, r.packages[i], package2);
      } else {
        PackageIndexSameNames(p.packages, r.packages, package2);
      }
    } else if i == |p.packages| {
      assert PackageIndex(r.packages, package) == i by {
        assert r.packages == p.packages + [r.packages[i]];
        PackageIndexAppend(p.packages, r.packages[i], package);
      }
      PackageSetOtherContainer(PackageV(package, []), container, key, lang, s, container2, key2, lang2);
    } else {
      PackageIndexSameNames(p.packages, r.packages, package);
      PackageSetOtherContainer(p.packages[i], container, key, lang, s, container2, key2, lang2);
    }
  }

  /**
   * After Project::setTranslation with non-empty text, Project::getTranslation
   * on the same path returns that text.
   */
  lemma ProjectSetThenGet(p: ProjectV, package: string, container: string, key: string, lang: string, s: string)
    requires NoMeta(key) && s != ""
    ensures ProjectGet(ProjectSet(p, package, container, key, lang, s), package, container, key, lang) == Some(s)
  {
    var i := PackageIndex(p.packages, package);
    var r := ProjectSet(p, package, container, key, lang, s);
    if i == |p.packages| {
      PackageSetThenGet(PackageV(package, []), container, key, lang, s);
      assert PackageIndex(r.packages, package) == i by {
        assert r.packages == p.packages + [r.packages[i]];
        PackageIndexAppend(p.packages, r.packages[i], package);
      }
    } else {
      PackageIndexSameNames(p.packages, r.packages, package);
      PackageSetThenGet(p.packages[i], container, key, lang, s);
    }
  }

  /** Setting one tag through a container leaves what every other tag reads on that key term. */
  lemma ContainerSetOtherTag(c: ContainerV, key: string, lang: string, s: string, other: string)
    requires NoMeta(key) && other != lang
    ensures ContainerGet(ContainerSet(c, key, lang, s), key, other) == ContainerGet(c, key, other)
  {
    var i := KeyIndex(c.keys, key);
    var r := ContainerSet(c, key, lang, s);
    if i == |c.keys| {
      var nk := KeySet(KeyV(key, []), lang, s);
      ContainsIgnoreCaseSelf(key);
      KeyIndexAppend(c.keys, nk, key);
      KeySetKeepsOtherTags(KeyV(key, []), lang, s);
    } else {
      KeyIndexSameIds(c.keys, r.keys, key);
      KeySetKeepsOtherTags(c.keys[i], lang, s);
    }
  }

  lemma PackageSetOtherTag(p: PackageV, container: string, key: string, lang: string, s: string, other: string)
    requires NoMeta(key) && other != lang
    ensures PackageGet(PackageSet(p, container, key, lang, s), container, key, other) == PackageGet(p, container, key, other)
  {
    var i := ContainerIndex(p.containers, container);
    var r := PackageSet(p, container, key, lang, s);
    ContainerSetOtherTag(if i == |p.containers| then ContainerV(container, []) else p.containers[i], key, lang, s, other);
    if i == |p.containers| {
      assert ContainerIndex(r.containers, container) == i by {
        assert r.containers == p.containers + [r.containers[i]];
        ContainerIndexAppend(p.containers, r.containers[i], container);
      }
    } else {
      ContainerIndexSameNames(p.containers, r.containers, container);
    }
  }

  /**
   * Project::setTranslation of one tag changes nothing that
   * Project::getTranslation reads for another tag on the same path.
   */
  lemma ProjectSetOtherTag(p: ProjectV, package: string, container: string, key: string, lang: string, s: string, other: string)
    requires NoMeta(key) && other != lang
    ensures ProjectGet(ProjectSet(p, package, container, key, lang, s), package, container, key, other)
            == ProjectGet(p, package, container, key, other)
  {
    var i := PackageIndex(p.packages, package);
    var r := ProjectSet(p, package, container, key, lang, s);
    PackageSetOtherTag(if i == |p.packages| then PackageV(package, []) else p.packages[i], container, key, lang, s, other);
    if i == |p.packages| {
      assert PackageIndex(r.packages, package) == i by {
        assert r.packages == p.packages + [r.packages[i]];
        PackageIndexAppend(p.packages, r.packages[i], package);
      }
    } else {
      PackageIndexSameNames(p.packages, r.packages, package);
    }
  }

  /** Total number of keys under a sequence of containers. */
  function KeysIn(cs: seq<ContainerV>): nat
  {
    if cs == [] then 0 else |cs[0].keys| + KeysIn(cs[1..])
  }

  function ContainersOf(ps: seq<PackageV>): nat
  {
    if ps == [] then 0 else |ps[0].containers| + ContainersOf(ps[1..])
  }

  function KeysOf(ps: seq<PackageV>): nat
  {
    if ps == [] then 0 else KeysIn(ps[0].containers) + KeysOf(ps[1..])
  }

  lemma {:induction false} KeysInUpdate(cs: seq<ContainerV>, i: nat, c: ContainerV)
    requires i < |cs|
    ensures KeysIn(cs[i := c]) == KeysIn(cs) - |cs[i].keys| + |c.keys|
  {
    if i > 0 {
      assert cs[i := c][1..] == cs[1..][i - 1 := c];
      KeysInUpdate(cs[1..], i - 1, c);
    }
  }

  lemma {:induction false} KeysInAppend(cs: seq<ContainerV>, c: ContainerV)
    ensures KeysIn(cs + [c]) == KeysIn(cs) + |c.keys|
  {
    if cs != [] {
      assert (cs + [c])[1..] == cs[1..] + [c];
      KeysInAppend(cs[1..], c);
    }
  }

  lemma {:induction false} PackagesUpdate(ps: seq<PackageV>, i: nat, p: PackageV)
    requires i < |ps|
    ensures ContainersOf(ps[i := p]) == ContainersOf(ps) - |ps[i].containers| + |p.containers|
    ensures KeysOf(ps[i := p]) == KeysOf(ps) - KeysIn(ps[i].containers) + KeysIn(p.containers)
  {
    if i > 0 {
      assert ps[i := p][1..] == ps[1..][i - 1 := p];
      PackagesUpdate(ps[1..], i - 1, p);
    }
  }

  lemma {:induction false} PackagesAppend(ps: seq<PackageV>, p: PackageV)
    ensures ContainersOf(ps + [p]) == ContainersOf(ps) + |p.containers|
    ensures KeysOf(ps + [p]) == KeysOf(ps) + KeysIn(p.containers)
  {
    if ps != [] {
      assert (ps + [p])[1..] == ps[1..] + [p];
      PackagesAppend(ps[1..], p);
    }
  }

  lemma ContainerSetCount(c: ContainerV, key: string, lang: string, s: string)
    requires NoMeta(key)
    ensures |c.keys| <= |ContainerSet(c, key, lang, s).keys| <= |c.keys| + 1
  {
  }

  lemma PackageSetCount(p: PackageV, container: string, key: string, lang: string, s: string)
    requires NoMeta(key)
    ensures var r := PackageSet(p, container, key, lang, s);
            && |p.containers| <= |r.containers| <= |p.containers| + 1
            && KeysIn(p.containers) <= KeysIn(r.containers) <= KeysIn(p.containers) + 1
  {
    var i := ContainerIndex(p.containers, container);
    if i == |p.containers| {
      KeysInAppend(p.containers, ContainerSet(ContainerV(container, []), key, lang, s));
    } else {
      ContainerSetCount(p.containers[i], key, lang, s);
      KeysInUpdate(p.containers, i, ContainerSet(p.containers[i], key, lang, s));
    }
  }

  /**
   * One Project::setTranslation call creates at most one package, one
   * container and one key, and removes none of them.
   */
  lemma ProjectSetCreatesAtMostOne(p: ProjectV, package: string, container: string, key: string, lang: string, s: string)
    requires NoMeta(key)
    ensures var r := ProjectSet(p, package, container, key, lang, s);
            && |p.packages| <= |r.packages| <= |p.packages| + 1
            && ContainersOf(p.packages) <= ContainersOf(r.packages) <= ContainersOf(p.packages) + 1
            && KeysOf(p.packages) <= KeysOf(r.packages) <= KeysOf(p.packages) + 1
  {
    var i := PackageIndex(p.packages, package);
    if i == |p.packages| {
      var np := PackageSet(PackageV(package, []), container, key, lang, s);
      PackageSetCount(PackageV(package, []), container, key, lang, s);
      PackagesAppend(p.packages, np);
    } else {
      var np := PackageSet(p.packages[i], container, key, lang, s);
      PackageSetCount(p.packages[i], container, key, lang, s);
      PackagesUpdate(p.packages, i, np);
    }
  }

  // ---------------------------------------------------------------------
  // Exact-path lookup (findChild by name at every level), used by the
  // carry-forward of the script extractor.

  /** Appends `ts` to the translations of the first key with exactly the id `key`; no change when there is none. */
  function ContainerAppend(c: ContainerV, key: string, ts: seq<TranslationV>): (r: ContainerV)
    ensures r.name == c.name && |r.keys| == |c.keys|
  {
    var l := KeyIdIndex(c.keys, key);
    if l == |c.keys| then c
    else ContainerV(c.name, c.keys[l := KeyV(c.keys[l].id, c.keys[l].translations + ts)])
  }

  function PackageAppend(p: PackageV, container: string, key: string, ts: seq<TranslationV>): (r: PackageV)
    ensures r.name == p.name && |r.containers| == |p.containers|
  {
    var j := ContainerIndex(p.containers, container);
    if j == |p.containers| then p
    else PackageV(p.name, p.containers[j := ContainerAppend(p.containers[j], key, ts)])
  }

  /** Appends `ts` to the key reached by exact package, container and key names; no change if one is missing. */
  function AppendAtExactPath(p: ProjectV, package: string, container: string, key: string, ts: seq<TranslationV>): (r: ProjectV)
    ensures r.name == p.name && |r.packages| == |p.packages|
  {
    var i := PackageIndex(p.packages, package);
    if i == |p.packages| then p
    else ProjectV(p.name, p.packages[i := PackageAppend(p.packages[i], container, key, ts)])
  }

  /** Container::findChild<Key*>(id): the first key with exactly this id. */
  function KeyIdIndex(keys: seq<KeyV>, id: string): (i: nat)
    ensures i <= |keys|
    ensures i < |keys| ==> keys[i].id == id
    ensures forall j :: 0 <= j < i ==> keys[j].id != id
  {
    if keys == [] || keys[0].id == id then 0 else 1 + KeyIdIndex(keys[1..], id)
  }

  // ---------------------------------------------------------------------
  // Recursive search (findChildren<Key*>(regex, FindChildrenRecursively)):
  // the first key in pre-order whose id contains the term, with the names
  // of the container and package it sits in.

  datatype KeyHit = KeyHit(package: string, container: string, key: KeyV)

  function FindInKeys(ks: seq<KeyV>, term: string): (r: Option<KeyV>)
    ensures r.None? <==> KeyIndex(ks, term) == |ks|
    ensures r.Some? ==> r.value == ks[KeyIndex(ks, term)]
  {
    var i := KeyIndex(ks, term);
    if i == |ks| then None else Some(ks[i])
  }

  function FindInContainers(package: string, cs: seq<ContainerV>, term: string): (r: Option<KeyHit>)
    ensures r.Some? ==> r.value.package == package && ContainsIgnoreCase(r.value.key.id, term)
  {
    if cs == [] then None
    else match FindInKeys(cs[0].keys, term)
      case Some(k) => Some(KeyHit(package, cs[0].name, k))
      case None =>
        var r := FindInContainers(package, cs[1..], term);
        r
  }

  function FindInPackages(ps: seq<PackageV>, term: string): (r: Option<KeyHit>)
    ensures r.Some? ==> ContainsIgnoreCase(r.value.key.id, term)
  {
    if ps == [] then None
    else match FindInContainers(ps[0].name, ps[0].containers, term)
      case Some(h) => Some(h)
      case None =>
        var r := FindInPackages(ps[1..], term);
        r
  }

  /** One step of the package search: the first package with a hit, else the search goes on past it. */
  lemma {:induction false} FindInPackagesStep(ps: seq<PackageV>, i: nat, term: string)
    requires i < |ps|
    ensures FindInPackages(ps[i..], term) ==
            match FindInContainers(ps[i].name, ps[i].containers, term)
            case Some(h) => Some(h)
            case None => FindInPackages(ps[i + 1..], term)
  {
    assert ps[i..][0] == ps[i];
    assert ps[i..][1..] == ps[i + 1..];
  }

  /** Whether any key anywhere in the project contains the term. */
  function FindKeyRecursive(p: ProjectV, term: string): (r: Option<KeyHit>)
    ensures r.None? <==> forall j, m, l :: 0 <= j < |p.packages| && 0 <= m < |p.packages[j].containers|
                                         && 0 <= l < |p.packages[j].containers[m].keys|
                                         ==> !ContainsIgnoreCase(p.packages[j].containers[m].keys[l].id, term)
  {
    FindInPackagesNone(p.packages, term);
    var r := FindInPackages(p.packages, term);
    if r.None? then
      assert forall j, m :: 0 <= j < |p.packages| && 0 <= m < |p.packages[j].containers| ==>
        KeyIndex(p.packages[j].containers[m].keys, term) == |p.packages[j].containers[m].keys|;
      r
    else r
  }

  /** The container search misses exactly when no container holds a matching key. */
  lemma {:induction false} FindInContainersNone(package: string, cs: seq<ContainerV>, term: string)
    ensures FindInContainers(package, cs, term).None? <==>
            forall j :: 0 <= j < |cs| ==> KeyIndex(cs[j].keys, term) == |cs[j].keys|
  {
    if cs != [] && FindInKeys(cs[0].keys, term).None? {
      assert forall j :: 1 <= j < |cs| ==> cs[j] == cs[1..][j - 1];
      FindInContainersNone(package, cs[1..], term);
    }
  }

  /** The package search misses exactly when no container of any package holds a matching key. */
  lemma {:induction false} FindInPackagesNone(ps: seq<PackageV>, term: string)
    ensures FindInPackages(ps, term).None? <==>
            forall j, m :: 0 <= j < |ps| && 0 <= m < |ps[j].containers| ==>
              KeyIndex(ps[j].containers[m].keys, term) == |ps[j].containers[m].keys|
  {
    if ps != [] {
      FindInContainersNone(ps[0].name, ps[0].containers, term);
      if FindInContainers(ps[0].name, ps[0].containers, term).None? {
        assert forall j :: 1 <= j < |ps| ==> ps[j] == ps[1..][j - 1];
        FindInPackagesNone(ps[1..], term);
      }
    }
  }

  /** A hit is one of the keys searched, so it inherits their freedom from metacharacters. */
  lemma {:induction false} FindInContainersNoMeta(package: string, cs: seq<ContainerV>, term: string)
    requires ContainersNoMeta(cs) && FindInContainers(package, cs, term).Some?
    ensures NoMeta(FindInContainers(package, cs, term).value.key.id)
  {
    if FindInKeys(cs[0].keys, term).None? {
      assert forall m :: 0 <= m < |cs[1..]| ==> cs[1..][m] == cs[m + 1];
      FindInContainersNoMeta(package, cs[1..], term);
    }
  }

  lemma {:induction false} FindInPackagesNoMeta(ps: seq<PackageV>, term: string)
    requires PackagesNoMeta(ps) && FindInPackages(ps, term).Some?
    ensures NoMeta(FindInPackages(ps, term).value.key.id)
  {
    if FindInContainers(ps[0].name, ps[0].containers, term).Some? {
      FindInContainersNoMeta(ps[0].name, ps[0].containers, term);
    } else {
      assert forall j :: 0 <= j < |ps[1..]| ==> ps[1..][j] == ps[j + 1];
      FindInPackagesNoMeta(ps[1..], term);
    }
  }

  /** The key a recursive search finds is free of metacharacters when every key of the project is. */
  lemma FindKeyNoMeta(p: ProjectV, term: string)
    requires KeyIdsNoMeta(p) && FindKeyRecursive(p, term).Some?
    ensures NoMeta(FindKeyRecursive(p, term).value.key.id)
  {
    FindInPackagesNoMeta(p.packages, term);
  }

  // ---------------------------------------------------------------------
  // Where the recursive search stops: the first match in pre-order.

  /** No key id of the container contains the term. */
  predicate NoHitIn(c: ContainerV, term: string)
  {
    forall l :: 0 <= l < |c.keys| ==> !ContainsIgnoreCase(c.keys[l].id, term)
  }

  /** Key `l` of container `m` matches, and no key before it does, in that container or an earlier one. */
  predicate FirstInContainers(cs: seq<ContainerV>, term: string, m: int, l: int)
  {
    && 0 <= m < |cs| && 0 <= l < |cs[m].keys|
    && ContainsIgnoreCase(cs[m].keys[l].id, term)
    && (forall l' :: 0 <= l' < l ==> !ContainsIgnoreCase(cs[m].keys[l'].id, term))
    && (forall m' :: 0 <= m' < m ==> NoHitIn(cs[m'], term))
  }

  /** Key `l` of container `m` of package `j` is the first match in pre-order. */
  predicate FirstInPackages(ps: seq<PackageV>, term: string, j: int, m: int, l: int)
  {
    && 0 <= j < |ps| && FirstInContainers(ps[j].containers, term, m, l)
    && (forall j', m' :: 0 <= j' < j && 0 <= m' < |ps[j'].containers| ==> NoHitIn(ps[j'].containers[m'], term))
  }

  /** The key at a position of the tree, with the names of its package and container. */
  function HitAt(ps: seq<PackageV>, j: nat, m: nat, l: nat): KeyHit
    requires j < |ps| && m < |ps[j].containers| && l < |ps[j].containers[m].keys|
  {
    KeyHit(ps[j].name, ps[j].containers[m].name, ps[j].containers[m].keys[l])
  }

  lemma {:induction false} FirstInContainersUnique(cs: seq<ContainerV>, term: string, m: int, l: int, m2: int, l2: int)
    requires FirstInContainers(cs, term, m, l) && FirstInContainers(cs, term, m2, l2)
    ensures m == m2 && l == l2
  {
    assert ContainsIgnoreCase(cs[m].keys[l].id, term) && ContainsIgnoreCase(cs[m2].keys[l2].id, term);
  }

  lemma {:induction false} FirstInPackagesUnique(ps: seq<PackageV>, term: string, j: int, m: int, l: int, j2: int, m2: int, l2: int)
    requires FirstInPackages(ps, term, j, m, l) && FirstInPackages(ps, term, j2, m2, l2)
    ensures j == j2 && m == m2 && l == l2
  {
    assert ContainsIgnoreCase(ps[j].containers[m].keys[l].id, term);
    assert ContainsIgnoreCase(ps[j2].containers[m2].keys[l2].id, term);
    assert j == j2;
    FirstInContainersUnique(ps[j].containers, term, m, l, m2, l2);
  }

  /**
   * Package::findChildren(regex, recursively), first result: the search
   * through one package's containers stops at the first matching key,
   * container by container, and reports the container holding it.
   */
  lemma {:induction false} FindInContainersFirst(package: string, cs: seq<ContainerV>, term: string)
    ensures FindInContainers(package, cs, term).Some? ==>
              exists m, l :: FirstInContainers(cs, term, m, l)
                             && FindInContainers(package, cs, term).value == KeyHit(package, cs[m].name, cs[m].keys[l])
    ensures forall m, l :: FirstInContainers(cs, term, m, l) ==>
              FindInContainers(package, cs, term) == Some(KeyHit(package, cs[m].name, cs[m].keys[l]))
    decreases |cs|
  {
    var r := FindInContainers(package, cs, term);
    if cs != [] {
      var i := KeyIndex(cs[0].keys, term);
      if i < |cs[0].keys| {
        assert FirstInContainers(cs, term, 0, i);
        forall m, l | FirstInContainers(cs, term, m, l)
          ensures r == Some(KeyHit(package, cs[m].name, cs[m].keys[l]))
        {
          FirstInContainersUnique(cs, term, 0, i, m, l);
        }
      } else {
        assert NoHitIn(cs[0], term);
        FindInContainersFirst(package, cs[1..], term);
        assert forall m' :: 1 <= m' < |cs| ==> cs[m'] == cs[1..][m' - 1];
        if r.Some? {
          var m, l :| FirstInContainers(cs[1..], term, m, l) && r.value == KeyHit(package, cs[1..][m].name, cs[1..][m].keys[l]);
          assert FirstInContainers(cs, term, m + 1, l);
        }
        forall m, l | FirstInContainers(cs, term, m, l)
          ensures r == Some(KeyHit(package, cs[m].name, cs[m].keys[l]))
        {
          assert m != 0;
          assert FirstInContainers(cs[1..], term, m - 1, l);
        }
      }
    }
  }

  /**
   * The search through the packages stops at the first package whose
   * containers hold a match, and reports the first match there.
   */
  lemma {:induction false} FindInPackagesFirst(ps: seq<PackageV>, term: string)
    ensures FindInPackages(ps, term).Some? ==>
              exists j, m, l :: FirstInPackages(ps, term, j, m, l) && FindInPackages(ps, term).value == HitAt(ps, j, m, l)
    ensures forall j, m, l :: FirstInPackages(ps, term, j, m, l) ==> FindInPackages(ps, term) == Some(HitAt(ps, j, m, l))
    decreases |ps|
  {
    var r := FindInPackages(ps, term);
    if ps != [] {
      var h := FindInContainers(ps[0].name, ps[0].containers, term);
      FindInContainersFirst(ps[0].name, ps[0].containers, term);
      if h.Some? {
        var m, l :| FirstInContainers(ps[0].containers, term, m, l) && h.value == KeyHit(ps[0].name, ps[0].containers[m].name, ps[0].containers[m].keys[l]);
        assert FirstInPackages(ps, term, 0, m, l);
        forall j2, m2, l2 | FirstInPackages(ps, term, j2, m2, l2)
          ensures r == Some(HitAt(ps, j2, m2, l2))
        {
          FirstInPackagesUnique(ps, term, 0, m, l, j2, m2, l2);
        }
      } else {
        FindInContainersNone(ps[0].name, ps[0].containers, term);
        assert forall m' :: 0 <= m' < |ps[0].containers| ==> NoHitIn(ps[0].containers[m'], term);
        FindInPackagesFirst(ps[1..], term);
        assert forall j' :: 1 <= j' < |ps| ==> ps[j'] == ps[1..][j' - 1];
        if r.Some? {
          var j, m, l :| FirstInPackages(ps[1..], term, j, m, l) && r.value == HitAt(ps[1..], j, m, l);
          assert FirstInPackages(ps, term, j + 1, m, l);
        }
        forall j, m, l | FirstInPackages(ps, term, j, m, l)
          ensures r == Some(HitAt(ps, j, m, l))
        {
          assert j != 0;
          assert FirstInPackages(ps[1..], term, j - 1, m, l);
        }
      }
    }
  }

  /**
   * Project::findChildren(regex, FindChildrenRecursively), first result: a
   * hit is the first key in pre-order (packages, then containers, then keys)
   * whose id contains the term, reported with the names of the package and
   * the container it sits in; and the first such key is what is found.
   */
  lemma FindKeyRecursiveFirst(p: ProjectV, term: string)
    ensures FindKeyRecursive(p, term).Some? ==>
              exists j, m, l :: FirstInPackages(p.packages, term, j, m, l)
                                && FindKeyRecursive(p, term).value == HitAt(p.packages, j, m, l)
    ensures forall j, m, l :: FirstInPackages(p.packages, term, j, m, l) ==>
              FindKeyRecursive(p, term) == Some(HitAt(p.packages, j, m, l))
  {
    FindInPackagesFirst(p.packages, term);
  }

  /** Every key id in the containers is free of regular-expression metacharacters. */
  predicate ContainersNoMeta(cs: seq<ContainerV>)
  {
    forall m, l :: 0 <= m < |cs| && 0 <= l < |cs[m].keys| ==> NoMeta(cs[m].keys[l].id)
  }

  predicate PackagesNoMeta(ps: seq<PackageV>)
  {
    forall j :: 0 <= j < |ps| ==> ContainersNoMeta(ps[j].containers)
  }

  /** Every key id in the project is free of regular-expression metacharacters. */
  predicate KeyIdsNoMeta(p: ProjectV)
  {
    PackagesNoMeta(p.packages)
  }
}
