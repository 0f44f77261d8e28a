/**
 * Reading back what Project::toXliff wrote. Part one: the reader finds in
 * the written document exactly the units of the keys that carry an
 * "Original", under their own package, container and key names. Part two:
 * applying those units to a project without packages builds the projection
 * of the written project: the same packages, containers and keys (those
 * with something written), each key holding its source as "Original" and
 * then its text in the target language.
 */
module XliffRoundTrip {
  import opened Wrappers
  import opened Seqs
  import opened Strings
  import opened Catalog
  import opened Dom
  import opened Export
  import opened Xliff

  // ---------------------------------------------------------------------
  // What the writer exports

  function KeyTag(v2: bool): string
  {
    if v2 then "segment" else "trans-unit"
  }

  function ContainerTag(v2: bool): string
  {
    if v2 then "unit" else "group"
  }

  /** The text a key gives in the target language: its first translation with that tag, or nothing. */
  function TargetText(k: KeyV, target: string): string
  {
    match KeyGet(k, target)
    case Some(t) => t
    case None => ""
  }

  /** No key of the sequence carries an "Original", so none is written. */
  predicate NoneWritten(ks: seq<KeyV>)
  {
    forall i :: 0 <= i < |ks| ==> !HasTag(ks[i].translations, ORIGINAL)
  }

  /** The unit of every key with an "Original", in order: its id, its source text and its target text. */
  function ExportedKeys(package: string, container: string, ks: seq<KeyV>, target: string): (r: seq<Unit>)
    ensures r == [] <==> NoneWritten(ks)
    ensures forall i :: 0 <= i < |r| ==> r[i].package == package && r[i].container == container
  {
    if ks == [] then []
    else
      var rest := ExportedKeys(package, container, ks[1..], target);
      assert NoneWritten(ks) <==> !HasTag(ks[0].translations, ORIGINAL) && NoneWritten(ks[1..]) by {
        assert forall i :: 1 <= i < |ks| ==> ks[i] == ks[1..][i - 1];
      }
      (if HasTag(ks[0].translations, ORIGINAL)
       then [Unit(package, container, ks[0].id, KeyGet(ks[0], ORIGINAL).value, TargetText(ks[0], target))]
       else [])
      + rest
  }

  function ExportedContainers(package: string, cs: seq<ContainerV>, target: string): (r: seq<Unit>)
    ensures r == [] <==> forall i :: 0 <= i < |cs| ==> NoneWritten(cs[i].keys)
    ensures forall i :: 0 <= i < |r| ==> r[i].package == package
  {
    if cs == [] then []
    else
      var rest := ExportedContainers(package, cs[1..], target);
      assert forall i :: 1 <= i < |cs| ==> cs[i] == cs[1..][i - 1];
      ExportedKeys(package, cs[0].name, cs[0].keys, target) + rest
  }

  /** Everything Project::toXliff writes for the packages, as the units the reader will find. */
  function ExportedUnits(ps: seq<PackageV>, target: string): (r: seq<Unit>)
    ensures r == [] <==> forall i, j :: 0 <= i < |ps| && 0 <= j < |ps[i].containers| ==> NoneWritten(ps[i].containers[j].keys)
  {
    if ps == [] then []
    else
      var rest := ExportedUnits(ps[1..], target);
      assert forall i :: 1 <= i < |ps| ==> ps[i] == ps[1..][i - 1];
      ExportedContainers(ps[0].name, ps[0].containers, target) + rest
  }

  // ---------------------------------------------------------------------
  // Names that survive the trip

  /** A display name the id normalisation does not alter beyond spaces: simplified and without `_`. */
  predicate ReadableName(n: string)
  {
    Simplified(n) == n && '_' !in n
  }

  predicate ReadableId(id: string)
  {
    forall i :: 0 <= i < |id| ==> !IsSpace(id[i])
  }

  predicate ContainerReadable(c: ContainerV)
  {
    ReadableName(c.name) && forall i :: 0 <= i < |c.keys| ==> ReadableId(c.keys[i].id)
  }

  predicate PackageReadable(p: PackageV)
  {
    ReadableName(p.name) && forall i :: 0 <= i < |p.containers| ==> ContainerReadable(p.containers[i])
  }

  predicate Readable(p: ProjectV)
  {
    ReadableName(p.name) && forall i :: 0 <= i < |p.packages| ==> PackageReadable(p.packages[i])
  }

  lemma IdToNameOfNormalize(n: string)
    requires ReadableName(n)
    ensures IdToName(Normalize(n)) == n
    ensures Normalize(n) == "" <==> n == ""
  {
    NormalizeRoundTrip(n);
  }

  // ---------------------------------------------------------------------
  // Part one: the reader finds the exported units

  lemma KeyUnitsAppend(package: string, container: string, a: seq<Node>, b: seq<Node>)
    ensures KeyUnits(package, container, a + b) == KeyUnits(package, container, a) + KeyUnits(package, container, b)
  {
    var l, r := KeyUnits(package, container, a + b), KeyUnits(package, container, a) + KeyUnits(package, container, b);
    forall i | 0 <= i < |l| ensures l[i] == r[i] {
      assert (a + b)[i] == if i < |a| then a[i] else b[i - |a|];
    }
  }

  /** A source or target element holds no element at all. */
  lemma TranslationXliffTags(t: TranslationV, tag: string)
    ensures ElementsByTag([TranslationXliff(t)], tag) == (if TranslationXliff(t).tag == tag then [TranslationXliff(t)] else [])
  {
    var e := TranslationXliff(t);
    ElementsByTagOne(e, tag);
    assert ElementsByTag(e.kids, tag) == [] by {
      assert e.kids[1..] == [];
    }
  }

  lemma KeyXliffKidsTags(k: KeyV, target: string, v2: bool, tag: string)
    requires HasTag(k.translations, ORIGINAL) && tag != "source" && tag != "target"
    ensures ElementsByTag(KeyXliff(k, target, v2).value.kids, tag) == []
  {
    var kids := KeyXliff(k, target, v2).value.kids;
    var ts := k.translations;
    var o := LangIndex(ts, ORIGINAL);
    TranslationXliffTags(ts[o], tag);
    if |kids| == 2 {
      var t := LangIndex(ts, target);
      TranslationXliffTags(ts[t], tag);
      assert kids == [TranslationXliff(ts[o])] + [TranslationXliff(ts[t])];
      ElementsByTagAppend([TranslationXliff(ts[o])], [TranslationXliff(ts[t])], tag);
    } else {
      assert kids == [TranslationXliff(ts[o])];
    }
  }

  /** A written key element is found by its own tag and holds no group or unit. */
  lemma KeyXliffTags(k: KeyV, target: string, v2: bool)
    requires HasTag(k.translations, ORIGINAL)
    ensures var e := KeyXliff(k, target, v2).value;
            && ElementsByTag([e], KeyTag(v2)) == [e]
            && ElementsByTag([e], "group") == []
            && ElementsByTag([e], "unit") == []
  {
    var e := KeyXliff(k, target, v2).value;
    KeyXliffKidsTags(k, target, v2, KeyTag(v2));
    KeyXliffKidsTags(k, target, v2, "group");
    KeyXliffKidsTags(k, target, v2, "unit");
    ElementsByTagOne(e, KeyTag(v2));
    ElementsByTagOne(e, "group");
    ElementsByTagOne(e, "unit");
  }

  lemma {:induction false} KeysXliffTags(ks: seq<KeyV>, target: string, v2: bool)
    ensures ElementsByTag(KeysXliff(ks, target, v2), KeyTag(v2)) == KeysXliff(ks, target, v2)
    ensures ElementsByTag(KeysXliff(ks, target, v2), "group") == []
    ensures ElementsByTag(KeysXliff(ks, target, v2), "unit") == []
  {
    if ks != [] {
      KeysXliffTags(ks[1..], target, v2);
      var rest := KeysXliff(ks[1..], target, v2);
      if HasTag(ks[0].translations, ORIGINAL) {
        var e := KeyXliff(ks[0], target, v2).value;
        KeyXliffTags(ks[0], target, v2);
        assert KeysXliff(ks, target, v2) == [e] + rest;
        ElementsByTagAppend([e], rest, KeyTag(v2));
        ElementsByTagAppend([e], rest, "group");
        ElementsByTagAppend([e], rest, "unit");
      } else {
        assert KeysXliff(ks, target, v2) == rest;
      }
    }
  }

  /** The first child of a written key element is its source, holding the "Original" text. */
  lemma KeyXliffSource(k: KeyV, target: string, v2: bool)
    requires HasTag(k.translations, ORIGINAL)
    ensures TextContent(FirstChildElement(KeyXliff(k, target, v2), "source")) == KeyGet(k, ORIGINAL).value
  {
    var e := KeyXliff(k, target, v2).value;
    var o := LangIndex(k.translations, ORIGINAL);
    assert e.kids[0] == TranslationXliff(k.translations[o]);
    assert FirstChild(e.kids, "source") == Some(e.kids[0]);
    TextOfOne(k.translations[o].text);
  }

  /** The target child of a written key element holds the target text; without one the reader sees "". */
  lemma KeyXliffTarget(k: KeyV, target: string, v2: bool)
    requires HasTag(k.translations, ORIGINAL) && target != "" && target != ORIGINAL
    ensures TextContent(FirstChildElement(KeyXliff(k, target, v2), "target")) == TargetText(k, target)
  {
    if LangIndex(k.translations, target) < |k.translations| {
      KeyXliffTargetPresent(k, target, v2);
    } else {
      KeyXliffTargetAbsent(k, target, v2);
    }
  }

  /** With a translation in the target language, the element's second child is its target. */
  lemma KeyXliffTargetPresent(k: KeyV, target: string, v2: bool)
    requires HasTag(k.translations, ORIGINAL) && target != "" && target != ORIGINAL
    requires LangIndex(k.translations, target) < |k.translations|
    ensures TextContent(FirstChildElement(KeyXliff(k, target, v2), "target")) == TargetText(k, target)
  {
    var e := KeyXliff(k, target, v2).value;
    var ts := k.translations;
    var o := LangIndex(ts, ORIGINAL);
    var t := LangIndex(ts, target);
    assert e.kids == [TranslationXliff(ts[o]), TranslationXliff(ts[t])];
    assert FirstChild(e.kids, "target") == Some(e.kids[1]) by {
      assert e.kids[1..] == [e.kids[1]];
    }
    TextOfOne(ts[t].text);
  }

  /** Without a translation in the target language, the element has no target child. */
  lemma KeyXliffTargetAbsent(k: KeyV, target: string, v2: bool)
    requires HasTag(k.translations, ORIGINAL) && target != "" && target != ORIGINAL
    requires LangIndex(k.translations, target) == |k.translations|
    ensures TextContent(FirstChildElement(KeyXliff(k, target, v2), "target")) == TargetText(k, target)
  {
    var e := KeyXliff(k, target, v2).value;
    var ts := k.translations;
    var o := LangIndex(ts, ORIGINAL);
    assert e.kids == [TranslationXliff(ts[o])];
    assert FirstChild(e.kids, "target") == None by {
      assert e.kids[1..] == [];
    }
  }

  /** The reader takes from a written key element its id, its source and its target text. */
  lemma KeyXliffRead(package: string, container: string, k: KeyV, target: string, v2: bool)
    requires HasTag(k.translations, ORIGINAL) && ReadableId(k.id)
    requires target != "" && target != ORIGINAL
    ensures ReadUnit(package, container, KeyXliff(k, target, v2).value)
            == Unit(package, container, k.id, KeyGet(k, ORIGINAL).value, TargetText(k, target))
  {
    NormalizeNoSpace(k.id);
    KeyXliffSource(k, target, v2);
    KeyXliffTarget(k, target, v2);
  }

  lemma {:induction false} KeysXliffRead(package: string, container: string, ks: seq<KeyV>, target: string, v2: bool)
    requires forall i :: 0 <= i < |ks| ==> ReadableId(ks[i].id)
    requires target != "" && target != ORIGINAL
    ensures KeyUnits(package, container, KeysXliff(ks, target, v2)) == ExportedKeys(package, container, ks, target)
  {
    if ks != [] {
      KeysXliffRead(package, container, ks[1..], target, v2);
      var rest := KeysXliff(ks[1..], target, v2);
      var done := ExportedKeys(package, container, ks[1..], target);
      if HasTag(ks[0].translations, ORIGINAL) {
        var e := KeyXliff(ks[0], target, v2).value;
        var u := ReadUnit(package, container, e);
        KeyXliffRead(package, container, ks[0], target, v2);
        assert KeysXliff(ks, target, v2) == [e] + rest;
        KeyUnitsAppend(package, container, [e], rest);
        assert KeyUnits(package, container, [e]) == [u];
        assert ExportedKeys(package, container, ks, target) == [u] + done;
      } else {
        assert KeysXliff(ks, target, v2) == rest;
        assert ExportedKeys(package, container, ks, target) == done;
      }
    }
  }

  lemma ContainerXliffTags(c: ContainerV, target: string, v2: bool)
    requires c.keys != []
    ensures var e := ContainerXliff(c, target, v2).value;
            && ElementsByTag([e], ContainerTag(v2)) == [e]
            && (v2 ==> ElementsByTag([e], "group") == [])
  {
    var e := ContainerXliff(c, target, v2).value;
    KeysXliffTags(c.keys, target, v2);
    ElementsByTagOne(e, ContainerTag(v2));
    ElementsByTagOne(e, "group");
  }

  lemma {:induction false} ContainersXliffTags(cs: seq<ContainerV>, target: string, v2: bool)
    ensures ElementsByTag(ContainersXliff(cs, target, v2), ContainerTag(v2)) == ContainersXliff(cs, target, v2)
    ensures v2 ==> ElementsByTag(ContainersXliff(cs, target, v2), "group") == []
  {
    if cs != [] {
      ContainersXliffTags(cs[1..], target, v2);
      var rest := ContainersXliff(cs[1..], target, v2);
      if cs[0].keys != [] {
        var e := ContainerXliff(cs[0], target, v2).value;
        ContainerXliffTags(cs[0], target, v2);
        assert ContainersXliff(cs, target, v2) == [e] + rest;
        ElementsByTagAppend([e], rest, ContainerTag(v2));
        ElementsByTagAppend([e], rest, "group");
      } else {
        assert ContainersXliff(cs, target, v2) == rest;
      }
    }
  }

  /** A written container element reads back under the container's own name, with the units of its keys. */
  lemma ContainerXliffRead(package: string, c: ContainerV, target: string, v2: bool)
    requires c.keys != [] && ContainerReadable(c)
    requires target != "" && target != ORIGINAL
    ensures var e := ContainerXliff(c, target, v2).value;
            ContainerUnits(package, [e], KeyTag(v2)) == ExportedKeys(package, c.name, c.keys, target)
  {
    var e := ContainerXliff(c, target, v2).value;
    var kids := KeysXliff(c.keys, target, v2);
    ContainerXliffParts(c, target, v2);
    KeysXliffRead(package, c.name, c.keys, target, v2);
    assert [e][1..] == [];
    assert ContainerUnits(package, [e], KeyTag(v2)) == KeyUnits(package, c.name, kids) + [];
  }

  /** The reader finds in a written container element the container's own name and the written key elements. */
  lemma ContainerXliffParts(c: ContainerV, target: string, v2: bool)
    requires c.keys != [] && ContainerReadable(c)
    ensures var e := ContainerXliff(c, target, v2).value;
            NameOf(e) == c.name && Tagged(e, KeyTag(v2)) == KeysXliff(c.keys, target, v2)
  {
    var e := ContainerXliff(c, target, v2).value;
    IdToNameOfNormalize(c.name);
    assert NameOf(e) == c.name;
    KeysXliffTags(c.keys, target, v2);
  }

  lemma {:induction false} ContainersXliffRead(package: string, cs: seq<ContainerV>, target: string, v2: bool)
    requires forall i :: 0 <= i < |cs| ==> ContainerReadable(cs[i])
    requires target != "" && target != ORIGINAL
    ensures ContainerUnits(package, ContainersXliff(cs, target, v2), KeyTag(v2)) == ExportedContainers(package, cs, target)
  {
    if cs != [] {
      ContainersXliffRead(package, cs[1..], target, v2);
      var rest := ContainersXliff(cs[1..], target, v2);
      if cs[0].keys != [] {
        var e := ContainerXliff(cs[0], target, v2).value;
        ContainerXliffRead(package, cs[0], target, v2);
        assert ContainersXliff(cs, target, v2) == [e] + rest;
        ContainerUnitsAppend(package, [e], rest, KeyTag(v2));
      } else {
        assert ContainersXliff(cs, target, v2) == rest;
      }
    }
  }

  lemma PackageXliffRead(p: PackageV, target: string, v2: bool)
    requires p.containers != [] && PackageReadable(p)
    requires target != "" && target != ORIGINAL
    ensures var e := PackageXliff(p, target, v2).value;
            PackageUnits([e], ContainerTag(v2), KeyTag(v2)) == ExportedContainers(p.name, p.containers, target)
  {
    var e := PackageXliff(p, target, v2).value;
    IdToNameOfNormalize(p.name);
    assert NameOf(e) == p.name;
    ContainersXliffTags(p.containers, target, v2);
    ContainersXliffRead(p.name, p.containers, target, v2);
    assert [e][1..] == [];
  }

  /** Nothing is written for the packages exactly when none of them has a container. */
  lemma {:induction false} PackagesXliffEmpty(ps: seq<PackageV>, target: string, v2: bool)
    ensures PackagesXliff(ps, target, v2) == [] <==> forall i :: 0 <= i < |ps| ==> ps[i].containers == []
  {
    if ps != [] {
      PackagesXliffEmpty(ps[1..], target, v2);
      assert forall i :: 1 <= i < |ps| ==> ps[i] == ps[1..][i - 1];
    }
  }

  /** The written packages are `group` elements, so reading the children named `group` finds them all. */
  lemma {:induction false} PackagesXliffChildren(ps: seq<PackageV>, target: string, v2: bool)
    ensures ChildElements(PackagesXliff(ps, target, v2), "group") == PackagesXliff(ps, target, v2)
  {
    if ps != [] {
      PackagesXliffChildren(ps[1..], target, v2);
      var rest := PackagesXliff(ps[1..], target, v2);
      if ps[0].containers != [] {
        var e := PackageXliff(ps[0], target, v2).value;
        assert PackagesXliff(ps, target, v2) == [e] + rest;
        ConsAppend([e], rest);
      } else {
        assert PackagesXliff(ps, target, v2) == rest;
      }
    }
  }

  /** In 2.0 no group sits below a package group, so the descendant search finds just the packages. */
  lemma {:induction false} PackagesXliffGroups(ps: seq<PackageV>, target: string)
    ensures ElementsByTag(PackagesXliff(ps, target, true), "group") == PackagesXliff(ps, target, true)
  {
    if ps != [] {
      PackagesXliffGroups(ps[1..], target);
      var rest := PackagesXliff(ps[1..], target, true);
      if ps[0].containers != [] {
        var e := PackageXliff(ps[0], target, true).value;
        assert PackagesXliff(ps, target, true) == [e] + rest;
        ContainersXliffTags(ps[0].containers, target, true);
        ElementsByTagOne(e, "group");
        ElementsByTagAppend([e], rest, "group");
      } else {
        assert PackagesXliff(ps, target, true) == rest;
      }
    }
  }

  lemma {:induction false} PackagesXliffRead(ps: seq<PackageV>, target: string, v2: bool)
    requires forall i :: 0 <= i < |ps| ==> PackageReadable(ps[i])
    requires target != "" && target != ORIGINAL
    ensures PackageUnits(PackagesXliff(ps, target, v2), ContainerTag(v2), KeyTag(v2)) == ExportedUnits(ps, target)
  {
    if ps != [] {
      PackagesXliffRead(ps[1..], target, v2);
      var rest := PackagesXliff(ps[1..], target, v2);
      if ps[0].containers != [] {
        var e := PackageXliff(ps[0], target, v2).value;
        PackageXliffRead(ps[0], target, v2);
        assert PackagesXliff(ps, target, v2) == [e] + rest;
        PackageUnitsAppend([e], rest, ContainerTag(v2), KeyTag(v2));
      } else {
        assert PackagesXliff(ps, target, v2) == rest;
      }
    }
  }

  lemma VersionPrefixes()
    ensures StartsWith("2.0", "2") && !StartsWith("2.0", "1")
    ensures StartsWith("1.2", "1") && !StartsWith("1.2", "2")
  {
    assert "2.0"[..1] == "2";
    assert "1.2"[..1] == "1";
  }

  /** The root of a written document passes the root checks and names its version. */
  lemma ExportedRoot(p: ProjectV, code: string, srcLang: string, v2: bool)
    requires p.packages != []
    ensures var doc := ProjectXliff(p, code, srcLang, v2);
            && DocumentElement(doc) == Some(doc[1])
            && doc[1].kids != [] && doc[1].tag == "xliff"
            && AttrOf(doc[1].attrs, "version", "") == (if v2 then "2.0" else "1.2")
            && (v2 ==> AttrOf(doc[1].attrs, "trgLang", "") == code && AttrOf(doc[1].attrs, "srcLang", "") == srcLang)
  {
  }

  /** The `file` element of 1.2 carries the normalised project name and both languages. */
  lemma FileAttrsV1(p: ProjectV, code: string, srcLang: string)
    requires code != ""
    ensures var attrs := FileXliff(p, code, srcLang, false).attrs;
            && AttrOf(attrs, "target-language", "") == code
            && AttrOf(attrs, "original", "") == Normalize(p.name)
            && AttrOf(attrs, "source-language", "") == srcLang
  {
    var a0, a1, a2, a3 := Attr("original", Normalize(p.name)), Attr("source-language", srcLang),
                          Attr("target-language", code), Attr("datatype", "plaintext");
    assert FileXliff(p, code, srcLang, false).attrs == [a0] + ([a1] + ([a2] + [a3]));
    AttrOfCons(a0, [a1] + ([a2] + [a3]), "target-language", "");
    AttrOfCons(a1, [a2] + [a3], "target-language", "");
    AttrOfCons(a2, [a3], "target-language", "");
    AttrOfCons(a0, [a1] + ([a2] + [a3]), "original", "");
    AttrOfCons(a0, [a1] + ([a2] + [a3]), "source-language", "");
    AttrOfCons(a1, [a2] + [a3], "source-language", "");
  }

  /** A written 1.2 document: the version sends it down the 1.2 path, where everything comes from `file` and its `body`. */
  lemma ExportThenExtractV1(p: ProjectV, code: string, srcLang: string)
    requires IsSupported(code) && code != "" && Readable(p) && p.packages != []
    ensures var target := LangCodeToString(code);
            Extracted(ProjectXliff(p, code, srcLang, false))
            == if PackagesXliff(p.packages, target, false) == [] then None else Some(Import(ProjectNameOf(Normalize(p.name)), SourceLangOf(srcLang), target,
                           PackageUnits(PackagesXliff(p.packages, target, false), "group", "trans-unit")))
  {
    var target := LangCodeToString(code);
    var groups := PackagesXliff(p.packages, target, false);
    var root := ProjectXliff(p, code, srcLang, false)[1];
    FileBodyV1(p, code, srcLang);
    FileAttrsV1(p, code, srcLang);
    PackagesXliffChildren(p.packages, target, false);
    ExportedRoot(p, code, srcLang, false);
    VersionPrefixes();
    assert Extracted(ProjectXliff(p, code, srcLang, false)) == ExtractedV1(root);
  }

  /** In a written 1.2 document the reader finds the `file` element under the root, and the `body` holding the package groups under it. */
  lemma FileBodyV1(p: ProjectV, code: string, srcLang: string)
    requires p.packages != []
    ensures var root := ProjectXliff(p, code, srcLang, false)[1];
            var file := FileXliff(p, code, srcLang, false);
            && FirstChildElement(Some(root), "file") == Some(file)
            && FirstChildElement(Some(file), "body")
               == Some(Element("body", "", [], PackagesXliff(p.packages, LangCodeToString(code), false)))
  {
    var root := ProjectXliff(p, code, srcLang, false)[1];
    var file := FileXliff(p, code, srcLang, false);
    assert FirstChildElement(Some(root), "file") == Some(file);
  }

  /** A written 2.0 document: the version sends it down the 2.0 path; languages from the root, name and packages from `file`. */
  lemma ExportThenExtractV2(p: ProjectV, code: string, srcLang: string)
    requires IsSupported(code) && code != "" && Readable(p) && p.packages != []
    ensures var target := LangCodeToString(code);
            Extracted(ProjectXliff(p, code, srcLang, true))
            == if PackagesXliff(p.packages, target, true) == [] then None else Some(Import(ProjectNameOf(Normalize(p.name)), SourceLangOf(srcLang), target,
                           PackageUnits(PackagesXliff(p.packages, target, true), "unit", "segment")))
  {
    var target := LangCodeToString(code);
    var root := ProjectXliff(p, code, srcLang, true)[1];
    var file := FileXliff(p, code, srcLang, true);
    assert FirstChild(root.kids, "file") == Some(file);
    PackagesXliffGroups(p.packages, target);
    ExportedRoot(p, code, srcLang, true);
    VersionPrefixes();
    assert Extracted(ProjectXliff(p, code, srcLang, true)) == ExtractedV2(root, code, srcLang);
  }

  /**
   * XliffParser::extract on the document of Project::toXliff(code, srcLang,
   * version2), for a supported code: refused exactly when no package has a
   * container (nothing but the file is written); otherwise it reads the
   * project's name (the default for an empty one), the source language
   * (the default for an empty one), the code's language name and the units
   * of all keys that carry an "Original".
   */
  lemma ExportThenExtract(p: ProjectV, code: string, srcLang: string, v2: bool)
    requires IsSupported(code) && Readable(p)
    ensures var target := LangCodeToString(code);
            Extracted(ProjectXliff(p, code, srcLang, v2))
            == if forall i :: 0 <= i < |p.packages| ==> p.packages[i].containers == [] then None
               else Some(Import(if p.name == "" then DEFAULT_PROJECT_NAME else p.name,
                                if srcLang == "" then DEFAULT_SOURCE_LANG else srcLang,
                                target, ExportedUnits(p.packages, target)))
  {
    var target := LangCodeToString(code);
    LangCodeTable(code);
    assert code != "" by {
      var i :| 0 <= i < |SUPPORTED| && EqualsIgnoreCase(SUPPORTED[i], code);
    }
    IdToNameOfNormalize(p.name);
    assert ProjectNameOf(Normalize(p.name)) == if p.name == "" then DEFAULT_PROJECT_NAME else p.name;
    PackagesXliffEmpty(p.packages, target, v2);
    var doc := ProjectXliff(p, code, srcLang, v2);
    if p.packages != [] {
      PackagesXliffRead(p.packages, target, v2);
      if v2 {
        ExportThenExtractV2(p, code, srcLang);
      } else {
        ExportThenExtractV1(p, code, srcLang);
      }
    } else {
      assert doc == [];
    }
  }

  // ---------------------------------------------------------------------
  // Part two: importing the units rebuilds the projection

  /** The key one unit builds in a fresh place: "Original" set from the source, then the target language from its text. */
  function ProjectedKey(k: KeyV, target: string): (r: KeyV)
    requires HasTag(k.translations, ORIGINAL)
    ensures r.id == k.id
  {
    KeySet(KeySet(KeyV(k.id, []), ORIGINAL, KeyGet(k, ORIGINAL).value), target, TargetText(k, target))
  }

  /** What one key contributes: its rebuilt version when it is written, nothing otherwise. */
  function KeyHead(k: KeyV, target: string): seq<KeyV>
  {
    if HasTag(k.translations, ORIGINAL) then [ProjectedKey(k, target)] else []
  }

  /** The keys that are written, each as the import rebuilds it. */
  function ProjectedKeys(ks: seq<KeyV>, target: string): (r: seq<KeyV>)
    ensures r == [] <==> NoneWritten(ks)
  {
    if ks == [] then []
    else
      var rest := ProjectedKeys(ks[1..], target);
      assert NoneWritten(ks) <==> !HasTag(ks[0].translations, ORIGINAL) && NoneWritten(ks[1..]) by {
        assert forall i :: 1 <= i < |ks| ==> ks[i] == ks[1..][i - 1];
      }
      KeyHead(ks[0], target) + rest
  }

  /** What one container contributes: its rebuilt keys when any is written, nothing otherwise. */
  function ContainerHead(c: ContainerV, target: string): seq<ContainerV>
  {
    if NoneWritten(c.keys) then [] else [ContainerV(c.name, ProjectedKeys(c.keys, target))]
  }

  /** The containers with at least one written key, holding the rebuilt keys. */
  function ProjectedContainers(cs: seq<ContainerV>, target: string): (r: seq<ContainerV>)
    ensures r == [] <==> forall i :: 0 <= i < |cs| ==> NoneWritten(cs[i].keys)
  {
    if cs == [] then []
    else
      var rest := ProjectedContainers(cs[1..], target);
      assert forall i :: 1 <= i < |cs| ==> cs[i] == cs[1..][i - 1];
      ContainerHead(cs[0], target) + rest
  }

  /** What one package contributes: its rebuilt containers when any key in it is written, nothing otherwise. */
  function PackageHead(p: PackageV, target: string): seq<PackageV>
  {
    var cs := ProjectedContainers(p.containers, target);
    if cs == [] then [] else [PackageV(p.name, cs)]
  }

  /** The packages with at least one written key, holding the rebuilt containers. */
  function ProjectedPackages(ps: seq<PackageV>, target: string): seq<PackageV>
  {
    if ps == [] then [] else PackageHead(ps[0], target) + ProjectedPackages(ps[1..], target)
  }

  /**
   * A rebuilt key holds the exported "Original" and target texts again,
   * each exactly when it is non-empty, and nothing else.
   */
  lemma {:induction false} ProjectedKeyReads(k: KeyV, target: string)
    requires HasTag(k.translations, ORIGINAL) && target != ORIGINAL
    ensures var src, pk := KeyGet(k, ORIGINAL).value, ProjectedKey(k, target);
            && KeyGet(pk, ORIGINAL) == (if src == "" then None else Some(src))
            && KeyGet(pk, target) == (if TargetText(k, target) == "" then None else Some(TargetText(k, target)))
            && |pk.translations| <= 2
  {
    var src, tgt := KeyGet(k, ORIGINAL).value, TargetText(k, target);
    var k1 := KeySet(KeyV(k.id, []), ORIGINAL, src);
    if src != "" {
      KeySetThenGet(KeyV(k.id, []), ORIGINAL, src);
    }
    assert KeyGet(k1, target) == None;
    KeySetKeepsOtherTags(k1, target, tgt);
    if tgt != "" {
      KeySetThenGet(k1, target, tgt);
    }
  }

  /** A project whose last package `package` ends with the container `container` holding `keys`. */
  function At(name: string, done: seq<PackageV>, package: string, containers: seq<ContainerV>, container: string,
              keys: seq<KeyV>): ProjectV
  {
    ProjectV(name, done + [PackageV(package, containers + [ContainerV(container, keys)])])
  }

  /** Setting through the last container of the last package changes that container only. */
  lemma {:induction false} SetAtEnd(name: string, done: seq<PackageV>, package: string, containers: seq<ContainerV>, container: string,
                 keys: seq<KeyV>, key: string, lang: string, s: string)
    requires PackageIndex(done, package) == |done| && ContainerIndex(containers, container) == |containers| && NoMeta(key)
    ensures ProjectSet(At(name, done, package, containers, container, keys), package, container, key, lang, s)
            == At(name, done, package, containers, container, ContainerSet(ContainerV(container, keys), key, lang, s).keys)
  {
    var pk := PackageV(package, containers + [ContainerV(container, keys)]);
    var c := ContainerSet(ContainerV(container, keys), key, lang, s);
    PackageIndexAppend(done, pk, package);
    ContainerIndexAppend(containers, ContainerV(container, keys), container);
    UpdateLast(containers, ContainerV(container, keys), c);
    UpdateLast(done, pk, PackageV(package, containers + [c]));
  }

  /** A set that creates its container gives what it gives when the empty container is already there. */
  lemma {:induction false} SetCreatesContainer(name: string, done: seq<PackageV>, package: string, containers: seq<ContainerV>,
                            container: string, key: string, lang: string, s: string)
    requires PackageIndex(done, package) == |done| && ContainerIndex(containers, container) == |containers| && NoMeta(key)
    ensures ProjectSet(ProjectV(name, done + [PackageV(package, containers)]), package, container, key, lang, s)
            == ProjectSet(At(name, done, package, containers, container, []), package, container, key, lang, s)
  {
    var pk := PackageV(package, containers);
    PackageIndexAppend(done, pk, package);
    UpdateLast(done, pk, PackageSet(pk, container, key, lang, s));
    SetAtEnd(name, done, package, containers, container, [], key, lang, s);
    assert ContainerSet(ContainerV(container, []), key, lang, s).name == container;
  }

  /** A set that creates its package gives what it gives when the empty package is already there. */
  lemma {:induction false} SetCreatesPackage(name: string, done: seq<PackageV>, package: string, container: string, key: string,
                          lang: string, s: string)
    requires PackageIndex(done, package) == |done| && NoMeta(key)
    ensures ProjectSet(ProjectV(name, done), package, container, key, lang, s)
            == ProjectSet(ProjectV(name, done + [PackageV(package, [])]), package, container, key, lang, s)
  {
    var pk := PackageV(package, []);
    PackageIndexAppend(done, pk, package);
    UpdateLast(done, pk, PackageSet(pk, container, key, lang, s));
  }

  /** One unit for a key not yet present appends the rebuilt key to the last container. */
  lemma {:induction false} ApplyUnitAtEnd(name: string, done: seq<PackageV>, package: string, containers: seq<ContainerV>,
                       container: string, keys: seq<KeyV>, k: KeyV, target: string)
    requires PackageIndex(done, package) == |done| && ContainerIndex(containers, container) == |containers|
    requires NoMeta(k.id) && KeyIndex(keys, k.id) == |keys| && HasTag(k.translations, ORIGINAL)
    ensures ApplyUnit(At(name, done, package, containers, container, keys),
                      Unit(package, container, k.id, KeyGet(k, ORIGINAL).value, TargetText(k, target)), target)
            == At(name, done, package, containers, container, keys + [ProjectedKey(k, target)])
  {
    var src, tgt := KeyGet(k, ORIGINAL).value, TargetText(k, target);
    var k1 := KeySet(KeyV(k.id, []), ORIGINAL, src);
    SetAtEnd(name, done, package, containers, container, keys, k.id, ORIGINAL, src);
    assert ContainerSet(ContainerV(container, keys), k.id, ORIGINAL, src).keys == keys + [k1];
    ContainsIgnoreCaseSelf(k.id);
    KeyIndexAppend(keys, k1, k.id);
    SetAtEnd(name, done, package, containers, container, keys + [k1], k.id, target, tgt);
    UpdateLast(keys, k1, KeySet(k1, target, tgt));
  }

  /** One key's units, then the rest: the first key lands at the end of the container when it is written. */
  lemma {:induction false} ImportKeyStep(name: string, done: seq<PackageV>, package: string, containers: seq<ContainerV>,
                                         container: string, keys: seq<KeyV>, ks: seq<KeyV>, target: string)
    requires PackageIndex(done, package) == |done| && ContainerIndex(containers, container) == |containers|
    requires ks != [] && NoMeta(ks[0].id)
    requires forall i :: 0 <= i < |keys| ==> !ContainsIgnoreCase(keys[i].id, ks[0].id)
    requires MetaFree(ExportedKeys(package, container, ks[1..], target))
    ensures MetaFree(ExportedKeys(package, container, ks, target))
    ensures ApplyUnits(At(name, done, package, containers, container, keys), ExportedKeys(package, container, ks, target), target)
            == ApplyUnits(At(name, done, package, containers, container, keys + KeyHead(ks[0], target)),
                          ExportedKeys(package, container, ks[1..], target), target)
  {
    var k := ks[0];
    var us := ExportedKeys(package, container, ks[1..], target);
    if HasTag(k.translations, ORIGINAL) {
      var u := Unit(package, container, k.id, KeyGet(k, ORIGINAL).value, TargetText(k, target));
      assert ExportedKeys(package, container, ks, target) == [u] + us;
      MetaFreeAppend([u], us);
      assert KeyIndex(keys, k.id) == |keys| by {
        var l := KeyIndex(keys, k.id);
        if l < |keys| {
          assert false;
        }
      }
      ApplyUnitAtEnd(name, done, package, containers, container, keys, k, target);
      ConsAppend([u], us);
    } else {
      assert ExportedKeys(package, container, ks, target) == us;
      assert keys + KeyHead(k, target) == keys;
    }
  }

  /** Ids a key lookup tells apart: free of metacharacters, and no id contains a later one, ignoring case. */
  predicate KeysSeparate(ks: seq<KeyV>)
  {
    && (forall i :: 0 <= i < |ks| ==> NoMeta(ks[i].id))
    && (forall i, j :: 0 <= i < j < |ks| ==> !ContainsIgnoreCase(ks[i].id, ks[j].id))
  }

  predicate ContainersSeparate(cs: seq<ContainerV>)
  {
    && (forall i, j :: 0 <= i < j < |cs| ==> cs[i].name != cs[j].name)
    && (forall i :: 0 <= i < |cs| ==> KeysSeparate(cs[i].keys))
  }

  /** Sibling names are distinct at every level and key ids are told apart by the key lookup. */
  predicate Separate(p: ProjectV)
  {
    && (forall i, j :: 0 <= i < j < |p.packages| ==> p.packages[i].name != p.packages[j].name)
    && (forall i :: 0 <= i < |p.packages| ==> ContainersSeparate(p.packages[i].containers))
  }

  /** No key already in place contains the id of a key still to come. */
  predicate KeysAhead(keys: seq<KeyV>, ks: seq<KeyV>)
  {
    forall i, j :: 0 <= i < |keys| && 0 <= j < |ks| ==> !ContainsIgnoreCase(keys[i].id, ks[j].id)
  }

  /** Placing the first key keeps the keys in place apart from the ones still to come. */
  lemma {:induction false} KeysAheadStep(keys: seq<KeyV>, ks: seq<KeyV>, target: string)
    requires ks != [] && KeysSeparate(ks) && KeysAhead(keys, ks)
    ensures KeysSeparate(ks[1..]) && KeysAhead(keys + KeyHead(ks[0], target), ks[1..])
  {
    var rest := ks[1..];
    assert forall j :: 0 <= j < |rest| ==> rest[j] == ks[j + 1];
    var keys' := keys + KeyHead(ks[0], target);
    forall i, j | 0 <= i < |keys'| && 0 <= j < |rest|
      ensures !ContainsIgnoreCase(keys'[i].id, rest[j].id)
    {
      if i < |keys| {
        assert keys'[i] == keys[i];
      } else {
        assert keys'[i].id == ks[0].id;
      }
    }
  }

  lemma {:induction false} ImportKeysAtEnd(name: string, done: seq<PackageV>, package: string, containers: seq<ContainerV>,
                                           container: string, keys: seq<KeyV>, ks: seq<KeyV>, target: string)
    requires PackageIndex(done, package) == |done| && ContainerIndex(containers, container) == |containers|
    requires KeysSeparate(ks) && KeysAhead(keys, ks)
    ensures MetaFree(ExportedKeys(package, container, ks, target))
    ensures ApplyUnits(At(name, done, package, containers, container, keys), ExportedKeys(package, container, ks, target), target)
            == At(name, done, package, containers, container, keys + ProjectedKeys(ks, target))
    decreases |ks|
  {
    if ks == [] {
      assert keys + [] == keys;
    } else {
      var head := KeyHead(ks[0], target);
      KeysAheadStep(keys, ks, target);
      ImportKeysAtEnd(name, done, package, containers, container, keys + head, ks[1..], target);
      ImportKeyStep(name, done, package, containers, container, keys, ks, target);
      AppendAssoc(keys, head, ProjectedKeys(ks[1..], target));
    }
  }

  /** The units of one container, imported into a package that lacks it, append its rebuilt version. */
  lemma {:induction false} ImportContainerAtEnd(name: string, done: seq<PackageV>, package: string, containers: seq<ContainerV>,
                                                c: ContainerV, target: string)
    requires PackageIndex(done, package) == |done| && ContainerIndex(containers, c.name) == |containers|
    requires KeysSeparate(c.keys) && !NoneWritten(c.keys)
    ensures MetaFree(ExportedKeys(package, c.name, c.keys, target))
    ensures ApplyUnits(ProjectV(name, done + [PackageV(package, containers)]), ExportedKeys(package, c.name, c.keys, target), target)
            == ProjectV(name, done + [PackageV(package, containers + [ContainerV(c.name, ProjectedKeys(c.keys, target))])])
  {
    var us := ExportedKeys(package, c.name, c.keys, target);
    ImportKeysAtEnd(name, done, package, containers, c.name, [], c.keys, target);
    assert [] + ProjectedKeys(c.keys, target) == ProjectedKeys(c.keys, target);
    var q1 := ProjectV(name, done + [PackageV(package, containers)]);
    var q2 := At(name, done, package, containers, c.name, []);
    SetCreatesContainer(name, done, package, containers, c.name, us[0].key, ORIGINAL, us[0].source);
    assert ApplyUnit(q1, us[0], target) == ApplyUnit(q2, us[0], target);
  }

  /** One container's units, then the rest. */
  lemma {:induction false} ImportContainerStep(name: string, done: seq<PackageV>, package: string,
                                               containers: seq<ContainerV>, cs: seq<ContainerV>, target: string)
    requires PackageIndex(done, package) == |done|
    requires cs != [] && ContainerIndex(containers, cs[0].name) == |containers| && KeysSeparate(cs[0].keys)
    requires MetaFree(ExportedContainers(package, cs[1..], target))
    ensures MetaFree(ExportedContainers(package, cs, target))
    ensures ApplyUnits(ProjectV(name, done + [PackageV(package, containers)]), ExportedContainers(package, cs, target), target)
            == ApplyUnits(ProjectV(name, done + [PackageV(package, containers + ContainerHead(cs[0], target))]),
                          ExportedContainers(package, cs[1..], target), target)
  {
    var c := cs[0];
    var us := ExportedContainers(package, cs[1..], target);
    var ek := ExportedKeys(package, c.name, c.keys, target);
    assert ExportedContainers(package, cs, target) == ek + us;
    if NoneWritten(c.keys) {
      assert ek + us == us;
      assert containers + ContainerHead(c, target) == containers;
    } else {
      ImportContainerAtEnd(name, done, package, containers, c, target);
      MetaFreeAppend(ek, us);
      ApplyUnitsAppend(ProjectV(name, done + [PackageV(package, containers)]), ek, us, target);
    }
  }

  /** No container already in place has the name of a container still to come. */
  predicate ContainersAhead(containers: seq<ContainerV>, cs: seq<ContainerV>)
  {
    forall i, j :: 0 <= i < |containers| && 0 <= j < |cs| ==> containers[i].name != cs[j].name
  }

  lemma {:induction false} ContainersAheadStep(containers: seq<ContainerV>, cs: seq<ContainerV>, target: string)
    requires cs != [] && ContainersSeparate(cs) && ContainersAhead(containers, cs)
    ensures ContainersSeparate(cs[1..]) && ContainersAhead(containers + ContainerHead(cs[0], target), cs[1..])
  {
    var rest := cs[1..];
    assert forall j :: 0 <= j < |rest| ==> rest[j] == cs[j + 1];
    var containers' := containers + ContainerHead(cs[0], target);
    forall i, j | 0 <= i < |containers'| && 0 <= j < |rest|
      ensures containers'[i].name != rest[j].name
    {
      if i < |containers| {
        assert containers'[i] == containers[i];
      } else {
        assert containers'[i].name == cs[0].name;
      }
    }
  }

  lemma {:induction false} ImportContainersAtEnd(name: string, done: seq<PackageV>, package: string,
                                                 containers: seq<ContainerV>, cs: seq<ContainerV>, target: string)
    requires PackageIndex(done, package) == |done|
    requires ContainersSeparate(cs) && ContainersAhead(containers, cs)
    ensures MetaFree(ExportedContainers(package, cs, target))
    ensures ApplyUnits(ProjectV(name, done + [PackageV(package, containers)]), ExportedContainers(package, cs, target), target)
            == ProjectV(name, done + [PackageV(package, containers + ProjectedContainers(cs, target))])
    decreases |cs|
  {
    if cs == [] {
      assert containers + [] == containers;
    } else {
      var head := ContainerHead(cs[0], target);
      ContainersAheadStep(containers, cs, target);
      ImportContainersAtEnd(name, done, package, containers + head, cs[1..], target);
      assert ContainerIndex(containers, cs[0].name) == |containers| by {
        var l := ContainerIndex(containers, cs[0].name);
        if l < |containers| {
          assert false;
        }
      }
      ImportContainerStep(name, done, package, containers, cs, target);
      AppendAssoc(containers, head, ProjectedContainers(cs[1..], target));
    }
  }

  /** The units of one package, imported into a project that lacks it, append its rebuilt version. */
  lemma {:induction false} ImportPackageAtEnd(name: string, done: seq<PackageV>, package: string, cs: seq<ContainerV>,
                                              target: string)
    requires PackageIndex(done, package) == |done| && ContainersSeparate(cs)
    requires ProjectedContainers(cs, target) != []
    ensures MetaFree(ExportedContainers(package, cs, target))
    ensures ApplyUnits(ProjectV(name, done), ExportedContainers(package, cs, target), target)
            == ProjectV(name, done + [PackageV(package, ProjectedContainers(cs, target))])
  {
    var us := ExportedContainers(package, cs, target);
    ImportContainersAtEnd(name, done, package, [], cs, target);
    assert [] + ProjectedContainers(cs, target) == ProjectedContainers(cs, target);
    SetCreatesPackage(name, done, package, us[0].container, us[0].key, ORIGINAL, us[0].source);
    assert ApplyUnit(ProjectV(name, done), us[0], target) == ApplyUnit(ProjectV(name, done + [PackageV(package, [])]), us[0], target);
  }

  /** One package's units, then the rest. */
  lemma {:induction false} ImportPackageStep(name: string, done: seq<PackageV>, ps: seq<PackageV>, target: string)
    requires ps != [] && PackageIndex(done, ps[0].name) == |done| && ContainersSeparate(ps[0].containers)
    requires MetaFree(ExportedUnits(ps[1..], target))
    ensures MetaFree(ExportedUnits(ps, target))
    ensures ApplyUnits(ProjectV(name, done), ExportedUnits(ps, target), target)
            == ApplyUnits(ProjectV(name, done + PackageHead(ps[0], target)), ExportedUnits(ps[1..], target), target)
  {
    var p := ps[0];
    var us := ExportedUnits(ps[1..], target);
    var ec := ExportedContainers(p.name, p.containers, target);
    assert ExportedUnits(ps, target) == ec + us;
    if ProjectedContainers(p.containers, target) == [] {
      assert ec + us == us;
      assert done + PackageHead(p, target) == done;
    } else {
      ImportPackageAtEnd(name, done, p.name, p.containers, target);
      MetaFreeAppend(ec, us);
      ApplyUnitsAppend(ProjectV(name, done), ec, us, target);
    }
  }

  /** No package already in place has the name of a package still to come. */
  predicate PackagesAhead(done: seq<PackageV>, ps: seq<PackageV>)
  {
    forall i, j :: 0 <= i < |done| && 0 <= j < |ps| ==> done[i].name != ps[j].name
  }

  lemma {:induction false} PackagesAheadStep(done: seq<PackageV>, ps: seq<PackageV>, target: string)
    requires ps != [] && PackagesAhead(done, ps)
    requires forall i, j :: 0 <= i < j < |ps| ==> ps[i].name != ps[j].name
    ensures PackagesAhead(done + PackageHead(ps[0], target), ps[1..])
    ensures forall i, j :: 0 <= i < j < |ps[1..]| ==> ps[1..][i].name != ps[1..][j].name
  {
    var rest := ps[1..];
    assert forall j :: 0 <= j < |rest| ==> rest[j] == ps[j + 1];
    var done' := done + PackageHead(ps[0], target);
    forall i, j | 0 <= i < |done'| && 0 <= j < |rest|
      ensures done'[i].name != rest[j].name
    {
      if i < |done| {
        assert done'[i] == done[i];
      } else {
        assert done'[i].name == ps[0].name;
      }
    }
  }

  lemma {:induction false} ImportPackagesAtEnd(name: string, done: seq<PackageV>, ps: seq<PackageV>, target: string)
    requires PackagesAhead(done, ps)
    requires forall i, j :: 0 <= i < j < |ps| ==> ps[i].name != ps[j].name
    requires forall i :: 0 <= i < |ps| ==> ContainersSeparate(ps[i].containers)
    ensures MetaFree(ExportedUnits(ps, target))
    ensures ApplyUnits(ProjectV(name, done), ExportedUnits(ps, target), target) == ProjectV(name, done + ProjectedPackages(ps, target))
    decreases |ps|
  {
    if ps == [] {
      assert done + [] == done;
    } else {
      var head := PackageHead(ps[0], target);
      PackagesAheadStep(done, ps, target);
      assert forall i :: 0 <= i < |ps[1..]| ==> ps[1..][i] == ps[i + 1];
      ImportPackagesAtEnd(name, done + head, ps[1..], target);
      assert PackageIndex(done, ps[0].name) == |done| by {
        var l := PackageIndex(done, ps[0].name);
        if l < |done| {
          assert false;
        }
      }
      ImportPackageStep(name, done, ps, target);
      AppendAssoc(done, head, ProjectedPackages(ps[1..], target));
    }
  }

  /**
   * The XLIFF round trip: the document Project::toXliff writes for a
   * supported code, read by XliffParser into a project without packages,
   * gives the project's name and the projection of its packages, each key
   * with its "Original" and its text in the code's language again. A
   * project with no container writes nothing the reader accepts, and the
   * project read into is left as it was.
   */
  /** The exported units, read into a project without packages, rebuild the projection. */
  lemma {:induction false} ImportExported(start: string, name: string, srcLang: string, target: string, p: ProjectV)
    requires Separate(p)
    ensures MetaFree(ExportedUnits(p.packages, target))
    ensures ImportInto(ProjectV(start, []), Some(Import(name, srcLang, target, ExportedUnits(p.packages, target))))
            == ProjectV(name, ProjectedPackages(p.packages, target))
  {
    ImportPackagesAtEnd(name, [], p.packages, target);
    assert [] + ProjectedPackages(p.packages, target) == ProjectedPackages(p.packages, target);
  }

  lemma {:induction false} XliffRoundTrip(p: ProjectV, code: string, srcLang: string, v2: bool, start: string)
    requires IsSupported(code) && Readable(p) && Separate(p)
    ensures var target, imp := LangCodeToString(code), Extracted(ProjectXliff(p, code, srcLang, v2));
            && (imp.Some? ==> MetaFree(imp.value.units))
            && ImportInto(ProjectV(start, []), imp)
               == if forall i :: 0 <= i < |p.packages| ==> p.packages[i].containers == [] then ProjectV(start, [])
                  else ProjectV(if p.name == "" then DEFAULT_PROJECT_NAME else p.name, ProjectedPackages(p.packages, target))
  {
    var target := LangCodeToString(code);
    ExportThenExtract(p, code, srcLang, v2);
    if !forall i :: 0 <= i < |p.packages| ==> p.packages[i].containers == [] {
      var name := if p.name == "" then DEFAULT_PROJECT_NAME else p.name;
      var src := if srcLang == "" then DEFAULT_SOURCE_LANG else srcLang;
      ImportExported(start, name, src, target, p);
    }
  }
}
