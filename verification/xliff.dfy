/**
 * The XLIFF reader (XliffParser::extract, extractV1, extractV2) over the
 * element tree. `Extracted` is what one document contributes: the project
 * name, the source language (reported, otherwise unused), the target
 * language's display name and the units, each naming a package, container
 * and key with its source and target text. `ImportInto` is the effect on a
 * project: the name is set, then every unit makes two
 * Project::setTranslation calls. The class `XliffParser` performs the same
 * walk with loops over the objects of module Tree and is proved to have
 * exactly that effect.
 */
module Xliff {
  import opened Wrappers
  import opened Seqs
  import opened Strings
  import opened Catalog
  import opened Dom
  import opened Export
  import opened Tree

  /** The source language assumed when the document gives none. */
  const DEFAULT_SOURCE_LANG: string := "en"

  /** One trans-unit (1.2) or segment (2.0): the path it names and its two texts. */
  datatype Unit = Unit(package: string, container: string, key: string, source: string, target: string)

  /** What one file contributes to the project. */
  datatype Import = Import(name: string, sourceLang: string, target: string, units: seq<Unit>)

  /** A package or container id read back as a name: every `_` becomes a space. */
  function IdToName(id: string): string
  {
    Replace(id, '_', ' ')
  }

  /** The project name of a file id: the default when there is none, otherwise the id with `_` read as space. */
  function ProjectNameOf(id: string): (r: string)
    ensures r != ""
    ensures id != "" ==> |r| == |id|
  {
    if id == "" then DEFAULT_PROJECT_NAME else IdToName(id)
  }

  function SourceLangOf(lang: string): (r: string)
    ensures r != ""
  {
    if lang == "" then DEFAULT_SOURCE_LANG else lang
  }

  /** One key element: the id verbatim, the text of the first `source` and of the first `target` child (empty when absent). */
  function ReadUnit(package: string, container: string, e: Node): Unit
  {
    Unit(package, container, Attribute(Some(e), "id", ""),
         TextContent(FirstChildElement(Some(e), "source")),
         TextContent(FirstChildElement(Some(e), "target")))
  }

  /** The units of the key elements of one container, in document order. */
  function KeyUnits(package: string, container: string, keys: seq<Node>): (r: seq<Unit>)
    ensures |r| == |keys|
    ensures forall i :: 0 <= i < |keys| ==> r[i] == ReadUnit(package, container, keys[i])
    ensures forall i :: 0 <= i < |r| ==> r[i].package == package && r[i].container == container
  {
    seq(|keys|, i requires 0 <= i < |keys| => ReadUnit(package, container, keys[i]))
  }

  /** The name a package or container element carries. */
  function NameOf(e: Node): string
  {
    IdToName(Attribute(Some(e), "id", ""))
  }

  /** The descendant elements of an element with the given tag. */
  function Tagged(e: Node, keyTag: string): seq<Node>
  {
    ElementsByTag(KidsOf(Some(e)), keyTag)
  }

  /** The units of the container elements of one package, container by container. */
  function ContainerUnits(package: string, cs: seq<Node>, keyTag: string): (r: seq<Unit>)
    ensures forall i :: 0 <= i < |r| ==> r[i].package == package
  {
    if cs == [] then []
    else KeyUnits(package, NameOf(cs[0]), Tagged(cs[0], keyTag)) + ContainerUnits(package, cs[1..], keyTag)
  }

  /** The units of the package elements, package by package. */
  function PackageUnits(ps: seq<Node>, containerTag: string, keyTag: string): seq<Unit>
  {
    if ps == [] then []
    else ContainerUnits(NameOf(ps[0]), Tagged(ps[0], containerTag), keyTag) + PackageUnits(ps[1..], containerTag, keyTag)
  }

  /**
   * extractV1: the language attributes and the name sit on the first `file`
   * child; packages are the `group` children of its `body`, containers the
   * descendant `group`s of a package, keys the descendant `trans-unit`s.
   */
  function ExtractedV1(root: Node): (r: Option<Import>)
    ensures var file := FirstChildElement(Some(root), "file");
            var trg := Attribute(file, "target-language", "");
            && (r.Some? <==> trg != "" && IsSupported(trg) && ChildElements(KidsOf(FirstChildElement(file, "body")), "group") != [])
            && (r.Some? ==> r.value.target == LangCodeToString(trg) && r.value.target != "" && r.value.target != ORIGINAL)
  {
    var file := FirstChildElement(Some(root), "file");
    var trg := Attribute(file, "target-language", "");
    LangCodeTable(trg);
    if trg == "" || !IsSupported(trg) then None
    else
      var packages := ChildElements(KidsOf(FirstChildElement(file, "body")), "group");
      if packages == [] then None
      else Some(Import(ProjectNameOf(Attribute(file, "original", "")),
                       SourceLangOf(Attribute(file, "source-language", "")),
                       LangCodeToString(trg),
                       PackageUnits(packages, "group", "trans-unit")))
  }

  /**
   * extractV2: the languages come from the root; the name is the id of the
   * first `file`; packages are its descendant `group`s, containers the
   * descendant `unit`s of a package, keys the descendant `segment`s.
   */
  function ExtractedV2(root: Node, trg: string, src: string): (r: Option<Import>)
    ensures var file := FirstChildElement(Some(root), "file");
            && (r.Some? <==> trg != "" && IsSupported(trg) && ElementsByTag(KidsOf(file), "group") != [])
            && (r.Some? ==> r.value.target == LangCodeToString(trg) && r.value.target != "" && r.value.target != ORIGINAL)
            && (r.Some? ==> r.value.sourceLang == if src == "" then DEFAULT_SOURCE_LANG else src)
  {
    LangCodeTable(trg);
    if trg == "" || !IsSupported(trg) then None
    else
      var file := FirstChildElement(Some(root), "file");
      var packages := ElementsByTag(KidsOf(file), "group");
      if packages == [] then None
      else Some(Import(ProjectNameOf(Attribute(file, "id", "")), SourceLangOf(src), LangCodeToString(trg),
                       PackageUnits(packages, "unit", "segment")))
  }

  /**
   * extract: a document is read only when its root is a non-empty `xliff`
   * element with a version; a version starting with `2` takes the 2.0 path,
   * one starting with `1` the 1.2 path, and any other is refused.
   */
  function Extracted(doc: Document): (r: Option<Import>)
    ensures r.Some? ==> && DocumentElement(doc).Some?
                        && DocumentElement(doc).value.tag == "xliff"
                        && DocumentElement(doc).value.kids != []
                        && var version := AttrOf(DocumentElement(doc).value.attrs, "version", "");
                           StartsWith(version, "1") || StartsWith(version, "2")
    ensures r.Some? ==> r.value.name != "" && r.value.sourceLang != "" && r.value.target != "" && r.value.target != ORIGINAL
  {
    var root := DocumentElement(doc);
    if root.None? || root.value.kids == [] || root.value.tag != "xliff" then None
    else
      var version := AttrOf(root.value.attrs, "version", "");
      if version == "" then None
      else if StartsWith(version, "2") then
        ExtractedV2(root.value, AttrOf(root.value.attrs, "trgLang", ""), AttrOf(root.value.attrs, "srcLang", ""))
      else if StartsWith(version, "1") then ExtractedV1(root.value)
      else None
  }

  // ---------------------------------------------------------------------
  // The effect on the project

  /** Every unit names a key free of regular-expression metacharacters. */
  predicate MetaFree(us: seq<Unit>)
  {
    forall i :: 0 <= i < |us| ==> NoMeta(us[i].key)
  }

  lemma MetaFreeAppend(a: seq<Unit>, b: seq<Unit>)
    ensures MetaFree(a + b) <==> MetaFree(a) && MetaFree(b)
  {
    assert forall i :: 0 <= i < |a| ==> (a + b)[i] == a[i];
    assert forall i :: 0 <= i < |b| ==> (a + b)[|a| + i] == b[i];
  }

  /** The two setTranslation calls of one unit: "Original" from the source, then the target language from the target. */
  function ApplyUnit(p: ProjectV, u: Unit, target: string): ProjectV
    requires NoMeta(u.key)
  {
    ProjectSet(ProjectSet(p, u.package, u.container, u.key, ORIGINAL, u.source), u.package, u.container, u.key, target, u.target)
  }

  /** The units applied one after the other, in document order. */
  function ApplyUnits(p: ProjectV, us: seq<Unit>, target: string): (r: ProjectV)
    requires MetaFree(us)
    ensures r.name == p.name
    decreases |us|
  {
    if us == [] then p else ApplyUnits(ApplyUnit(p, us[0], target), us[1..], target)
  }

  /** A refused document leaves the project as it was; a read one renames it and applies its units. */
  function ImportInto(p: ProjectV, imp: Option<Import>): (r: ProjectV)
    requires imp.Some? ==> MetaFree(imp.value.units)
    ensures imp.None? ==> r == p
    ensures imp.Some? ==> r.name == imp.value.name
  {
    match imp
    case None => p
    case Some(i) => ApplyUnits(ProjectV(i.name, p.packages), i.units, i.target)
  }

  /**
   * After one unit, the key it names reads back the unit's source as
   * "Original" and its target in the target language, whenever that text is
   * non-empty. Setting the "Original" first never disturbs what the target
   * language reads.
   */
  lemma ApplyUnitThenGet(p: ProjectV, u: Unit, target: string)
    requires NoMeta(u.key) && target != ORIGINAL
    ensures var r := ApplyUnit(p, u, target);
            && (u.source != "" ==> ProjectGet(r, u.package, u.container, u.key, ORIGINAL) == Some(u.source))
            && (u.target != "" ==> ProjectGet(r, u.package, u.container, u.key, target) == Some(u.target))
  {
    var q := ProjectSet(p, u.package, u.container, u.key, ORIGINAL, u.source);
    if u.source != "" {
      ProjectSetThenGet(p, u.package, u.container, u.key, ORIGINAL, u.source);
    }
    ProjectSetOtherTag(q, u.package, u.container, u.key, target, u.target, ORIGINAL);
    if u.target != "" {
      ProjectSetThenGet(q, u.package, u.container, u.key, target, u.target);
    }
  }

  lemma {:induction false} ApplyUnitsAppend(p: ProjectV, a: seq<Unit>, b: seq<Unit>, target: string)
    requires MetaFree(a) && MetaFree(b)
    ensures MetaFree(a + b)
    ensures ApplyUnits(p, a + b, target) == ApplyUnits(ApplyUnits(p, a, target), b, target)
    decreases |a|
  {
    assert forall i :: 0 <= i < |a + b| ==> (a + b)[i] == if i < |a| then a[i] else b[i - |a|];
    ConsAppend(a, b);
    if a != [] {
      ApplyUnitsAppend(ApplyUnit(p, a[0], target), a[1..], b, target);
    }
  }

  lemma ApplyUnitsSnoc(p: ProjectV, a: seq<Unit>, u: Unit, target: string)
    requires MetaFree(a) && NoMeta(u.key)
    ensures MetaFree(a + [u])
    ensures ApplyUnits(p, a + [u], target) == ApplyUnit(ApplyUnits(p, a, target), u, target)
  {
    ApplyUnitsAppend(p, a, [u], target);
  }

  lemma {:induction false} ContainerUnitsAppend(package: string, a: seq<Node>, b: seq<Node>, keyTag: string)
    ensures ContainerUnits(package, a + b, keyTag) == ContainerUnits(package, a, keyTag) + ContainerUnits(package, b, keyTag)
  {
    ConsAppend(a, b);
    if a != [] {
      ContainerUnitsAppend(package, a[1..], b, keyTag);
    }
  }

  lemma {:induction false} PackageUnitsAppend(a: seq<Node>, b: seq<Node>, containerTag: string, keyTag: string)
    ensures PackageUnits(a + b, containerTag, keyTag) == PackageUnits(a, containerTag, keyTag) + PackageUnits(b, containerTag, keyTag)
  {
    ConsAppend(a, b);
    if a != [] {
      PackageUnitsAppend(a[1..], b, containerTag, keyTag);
    }
  }

  /** The units of the first j+1 container elements: those of the first j, then those of element j. */
  lemma ContainerUnitsPrefix(package: string, cs: seq<Node>, j: nat, keyTag: string)
    requires j < |cs|
    ensures ContainerUnits(package, cs[..j + 1], keyTag)
            == ContainerUnits(package, cs[..j], keyTag) + KeyUnits(package, NameOf(cs[j]), Tagged(cs[j], keyTag))
  {
    PrefixSnoc(cs, j);
    ContainerUnitsAppend(package, cs[..j], [cs[j]], keyTag);
  }

  lemma PackageUnitsPrefix(ps: seq<Node>, j: nat, containerTag: string, keyTag: string)
    requires j < |ps|
    ensures PackageUnits(ps[..j + 1], containerTag, keyTag)
            == PackageUnits(ps[..j], containerTag, keyTag) + ContainerUnits(NameOf(ps[j]), Tagged(ps[j], containerTag), keyTag)
  {
    PrefixSnoc(ps, j);
    PackageUnitsAppend(ps[..j], [ps[j]], containerTag, keyTag);
  }

  /** The units of a prefix and of one more element are among the units of the whole sequence. */
  lemma ContainerUnitsSplit(package: string, cs: seq<Node>, j: nat, keyTag: string)
    requires j < |cs|
    ensures var whole, pre, mid := ContainerUnits(package, cs, keyTag), ContainerUnits(package, cs[..j], keyTag),
                                   KeyUnits(package, NameOf(cs[j]), Tagged(cs[j], keyTag));
            MetaFree(whole) ==> MetaFree(pre) && MetaFree(mid) && MetaFree(pre + mid)
  {
    var pre, mid := ContainerUnits(package, cs[..j], keyTag), KeyUnits(package, NameOf(cs[j]), Tagged(cs[j], keyTag));
    ContainerUnitsPrefix(package, cs, j, keyTag);
    SplitAt(cs, j + 1);
    ContainerUnitsAppend(package, cs[..j + 1], cs[j + 1..], keyTag);
    MetaFreeAppend(pre + mid, ContainerUnits(package, cs[j + 1..], keyTag));
    MetaFreeAppend(pre, mid);
  }

  lemma PackageUnitsSplit(ps: seq<Node>, j: nat, containerTag: string, keyTag: string)
    requires j < |ps|
    ensures var whole, pre, mid := PackageUnits(ps, containerTag, keyTag), PackageUnits(ps[..j], containerTag, keyTag),
                                   ContainerUnits(NameOf(ps[j]), Tagged(ps[j], containerTag), keyTag);
            MetaFree(whole) ==> MetaFree(pre) && MetaFree(mid) && MetaFree(pre + mid)
  {
    var pre, mid := PackageUnits(ps[..j], containerTag, keyTag), ContainerUnits(NameOf(ps[j]), Tagged(ps[j], containerTag), keyTag);
    PackageUnitsPrefix(ps, j, containerTag, keyTag);
    SplitAt(ps, j + 1);
    PackageUnitsAppend(ps[..j + 1], ps[j + 1..], containerTag, keyTag);
    MetaFreeAppend(pre + mid, PackageUnits(ps[j + 1..], containerTag, keyTag));
    MetaFreeAppend(pre, mid);
  }

  // ---------------------------------------------------------------------
  // The parser object

  /**
   * XliffParser: reads XLIFF documents into the project it was given. Key
   * ids found in a document must be free of regular-expression
   * metacharacters, because key lookup is modelled as substring search.
   */
  class XliffParser {
    const prj: Project

    constructor (prj: Project)
      ensures this.prj == prj
    {
      this.prj := prj;
    }

    /** extract on a parsed document: the root and version checks, then the path for the version. */
    method Extract(doc: Document)
      requires prj.Valid()
      requires Extracted(doc).Some? ==> MetaFree(Extracted(doc).value.units)
      modifies prj.Repr
      ensures prj.Valid() && fresh(prj.Repr - old(prj.Repr))
      ensures prj.model == ImportInto(old(prj.model), Extracted(doc))
    {
      var root := DocumentElement(doc);
      if root.None? || root.value.kids == [] || root.value.tag != "xliff" {
        return;
      }
      var version := AttrOf(root.value.attrs, "version", "");
      if version == "" {
        return;
      }
      if StartsWith(version, "2") {
        ExtractV2(root.value, AttrOf(root.value.attrs, "trgLang", ""), AttrOf(root.value.attrs, "srcLang", ""));
      } else if StartsWith(version, "1") {
        ExtractV1(root.value);
      }
    }

    method ExtractV1(e: Node)
      requires prj.Valid()
      requires ExtractedV1(e).Some? ==> MetaFree(ExtractedV1(e).value.units)
      modifies prj.Repr
      ensures prj.Valid() && fresh(prj.Repr - old(prj.Repr))
      ensures prj.model == ImportInto(old(prj.model), ExtractedV1(e))
    {
      var file := FirstChildElement(Some(e), "file");
      var trgLang := Attribute(file, "target-language", "");
      if trgLang == "" || !IsSupported(trgLang) {
        return;
      }
      var projectName := ProjectNameOf(Attribute(file, "original", ""));
      var srcLang := SourceLangOf(Attribute(file, "source-language", ""));
      var packages := ChildElements(KidsOf(FirstChildElement(file, "body")), "group");
      if packages == [] {
        return;
      }
      prj.SetName(projectName);
      ImportPackages(packages, "group", "trans-unit", LangCodeToString(trgLang));
    }

    method ExtractV2(e: Node, trgLang: string, srcLang: string)
      requires prj.Valid()
      requires ExtractedV2(e, trgLang, srcLang).Some? ==> MetaFree(ExtractedV2(e, trgLang, srcLang).value.units)
      modifies prj.Repr
      ensures prj.Valid() && fresh(prj.Repr - old(prj.Repr))
      ensures prj.model == ImportInto(old(prj.model), ExtractedV2(e, trgLang, srcLang))
    {
      if trgLang == "" || !IsSupported(trgLang) {
        return;
      }
      var file := FirstChildElement(Some(e), "file");
      var projectName := ProjectNameOf(Attribute(file, "id", ""));
      var packages := ElementsByTag(KidsOf(file), "group");
      if packages == [] {
        return;
      }
      prj.SetName(projectName);
      ImportPackages(packages, "unit", "segment", LangCodeToString(trgLang));
    }

    /** The package loop: the containers of each package element in turn. */
    method ImportPackages(ps: seq<Node>, containerTag: string, keyTag: string, target: string)
      requires prj.Valid() && MetaFree(PackageUnits(ps, containerTag, keyTag))
      modifies prj.Repr
      ensures prj.Valid() && fresh(prj.Repr - old(prj.Repr))
      ensures prj.model == ApplyUnits(old(prj.model), PackageUnits(ps, containerTag, keyTag), target)
    {
      var j := 0;
      while j < |ps|
        invariant 0 <= j <= |ps|
        invariant prj.Valid() && fresh(prj.Repr - old(prj.Repr))
        invariant MetaFree(PackageUnits(ps[..j], containerTag, keyTag))
        invariant prj.model == ApplyUnits(old(prj.model), PackageUnits(ps[..j], containerTag, keyTag), target)
      {
        PackageUnitsSplit(ps, j, containerTag, keyTag);
        ghost var before := prj.model;
        ImportContainers(NameOf(ps[j]), Tagged(ps[j], containerTag), keyTag, target);
        PackageUnitsPrefix(ps, j, containerTag, keyTag);
        ApplyUnitsAppend(old(prj.model), PackageUnits(ps[..j], containerTag, keyTag),
                         ContainerUnits(NameOf(ps[j]), Tagged(ps[j], containerTag), keyTag), target);
        j := j + 1;
      }
      PrefixAll(ps);
    }

    /** The container loop: the keys of each container element in turn. */
    method ImportContainers(package: string, cs: seq<Node>, keyTag: string, target: string)
      requires prj.Valid() && MetaFree(ContainerUnits(package, cs, keyTag))
      modifies prj.Repr
      ensures prj.Valid() && fresh(prj.Repr - old(prj.Repr))
      ensures prj.model == ApplyUnits(old(prj.model), ContainerUnits(package, cs, keyTag), target)
    {
      var j := 0;
      while j < |cs|
        invariant 0 <= j <= |cs|
        invariant prj.Valid() && fresh(prj.Repr - old(prj.Repr))
        invariant MetaFree(ContainerUnits(package, cs[..j], keyTag))
        invariant prj.model == ApplyUnits(old(prj.model), ContainerUnits(package, cs[..j], keyTag), target)
      {
        ContainerUnitsSplit(package, cs, j, keyTag);
        ImportKeys(package, NameOf(cs[j]), Tagged(cs[j], keyTag), target);
        ContainerUnitsPrefix(package, cs, j, keyTag);
        ApplyUnitsAppend(old(prj.model), ContainerUnits(package, cs[..j], keyTag),
                         KeyUnits(package, NameOf(cs[j]), Tagged(cs[j], keyTag)), target);
        j := j + 1;
      }
      PrefixAll(cs);
    }

    /** The key loop: one key element after the other. */
    method ImportKeys(package: string, container: string, keys: seq<Node>, target: string)
      requires prj.Valid() && MetaFree(KeyUnits(package, container, keys))
      modifies prj.Repr
      ensures prj.Valid() && fresh(prj.Repr - old(prj.Repr))
      ensures prj.model == ApplyUnits(old(prj.model), KeyUnits(package, container, keys), target)
    {
      ghost var us := KeyUnits(package, container, keys);
      var j := 0;
      while j < |keys|
        invariant 0 <= j <= |keys|
        invariant prj.Valid() && fresh(prj.Repr - old(prj.Repr))
        invariant prj.model == ApplyUnits(old(prj.model), us[..j], target)
      {
        ImportKey(package, container, keys[j], target);
        ApplyUnitsSnoc(old(prj.model), us[..j], us[j], target);
        PrefixSnoc(us, j);
        j := j + 1;
      }
      PrefixAll(us);
    }

    /** One key element: its id, source and target, then the two setTranslation calls. */
    method ImportKey(package: string, container: string, key: Node, target: string)
      requires prj.Valid() && NoMeta(ReadUnit(package, container, key).key)
      modifies prj.Repr
      ensures prj.Valid() && fresh(prj.Repr - old(prj.Repr))
      ensures prj.model == ApplyUnit(old(prj.model), ReadUnit(package, container, key), target)
    {
      var keyId := Attribute(Some(key), "id", "");
      var source := TextContent(FirstChildElement(Some(key), "source"));
      var text := TextContent(FirstChildElement(Some(key), "target"));
      prj.SetTranslation(package, container, keyId, ORIGINAL, source);
      prj.SetTranslation(package, container, keyId, target, text);
    }
  }
}
