/**
 * The stringtable reader (StringtableParser::parse) over the element tree:
 * the Project root, then every Package, Container and Key element found by
 * descendant search, each level kept only when it has what the next level
 * needs. `ParseDocument` is the value the reader computes; `Parse` builds
 * the objects of module Tree with the reader's nested loops and is proved
 * to build exactly that value. The lemmas connect the reader with the
 * stringtable writer of module Export.
 */
module Stringtable {
  import opened Wrappers
  import opened Seqs
  import opened Catalog
  import opened Dom
  import opened Export
  import opened Tree

  /** The values `f` reads from the nodes, skipping the nodes it rejects, in order. */
  function Collect<T>(f: Node -> Option<T>, es: seq<Node>): (r: seq<T>)
    ensures |r| <= |es|
    ensures r == [] <==> forall i :: 0 <= i < |es| ==> f(es[i]).None?
  {
    if es == [] then []
    else
      var rest := Collect(f, es[1..]);
      assert forall i :: 1 <= i < |es| ==> es[i] == es[1..][i - 1];
      Maybe(f(es[0])) + rest
  }

  lemma {:induction false} CollectAppend<T>(f: Node -> Option<T>, a: seq<Node>, b: seq<Node>)
    ensures Collect(f, a + b) == Collect(f, a) + Collect(f, b)
  {
    if a == [] {
      assert a + b == b;
    } else {
      assert (a + b)[1..] == a[1..] + b;
      CollectAppend(f, a[1..], b);
    }
  }

  /** One more loop iteration over the nodes `es` reads one more node. */
  lemma CollectPrefix<T>(f: Node -> Option<T>, es: seq<Node>, j: nat)
    requires j < |es|
    ensures Collect(f, es[..j + 1]) == Collect(f, es[..j]) + Maybe(f(es[j]))
  {
    PrefixSnoc(es, j);
    CollectAppend(f, es[..j], [es[j]]);
  }

  /**
   * One child node of a Key element: an element gives its tag and text; any
   * other node gives a translation with empty tag and empty text.
   */
  function TranslationOf(n: Node): TranslationV
  {
    if n.Element? then TranslationV(n.tag, TextOf(n.kids)) else TranslationV("", "")
  }

  function TranslationsOf(ns: seq<Node>): (r: seq<TranslationV>)
    ensures |r| == |ns|
    ensures forall i :: 0 <= i < |ns| ==> r[i] == TranslationOf(ns[i])
  {
    seq(|ns|, i requires 0 <= i < |ns| => TranslationOf(ns[i]))
  }

  /** A Key element with a non-empty ID and at least one child node; every child node becomes a translation. */
  function KeyOf(e: Node): Option<KeyV>
  {
    if e.Element? && AttrOf(e.attrs, "ID", "") != "" && e.kids != [] then
      Some(KeyV(AttrOf(e.attrs, "ID", ""), TranslationsOf(e.kids)))
    else None
  }

  /**
   * A Container element with child nodes and at least one Key descendant;
   * it is kept even when none of its keys is.
   */
  function ContainerOf(e: Node): Option<ContainerV>
  {
    if e.Element? && e.kids != [] && ElementsByTag(e.kids, "Key") != [] then
      Some(ContainerV(AttrOf(e.attrs, "name", ""), Collect(KeyOf, ElementsByTag(e.kids, "Key"))))
    else None
  }

  /**
   * A Package element with child nodes and at least one Container
   * descendant; it is kept even when none of its containers is.
   */
  function PackageOf(e: Node): Option<PackageV>
  {
    if e.Element? && e.kids != [] && ElementsByTag(e.kids, "Container") != [] then
      Some(PackageV(AttrOf(e.attrs, "name", ""), Collect(ContainerOf, ElementsByTag(e.kids, "Container"))))
    else None
  }

  /**
   * StringtableParser::parse on a parsed document: nothing when the root is
   * missing, childless or not a Project element, when there is no Package
   * descendant, or when no package is kept.
   */
  function ParseDocument(doc: Document): (r: Option<ProjectV>)
    ensures r.Some? <==>
              && DocumentElement(doc).Some?
              && DocumentElement(doc).value.tag == "Project"
              && DocumentElement(doc).value.kids != []
              && exists i :: 0 <= i < |ElementsByTag(DocumentElement(doc).value.kids, "Package")|
                             && PackageOf(ElementsByTag(DocumentElement(doc).value.kids, "Package")[i]).Some?
    ensures r.Some? ==> r.value.packages != []
                        && r.value.name == AttrOf(DocumentElement(doc).value.attrs, "name", DEFAULT_PROJECT_NAME)
  {
    var root := DocumentElement(doc);
    if root.None? || root.value.kids == [] || root.value.tag != "Project" then None
    else
      var ps := ElementsByTag(root.value.kids, "Package");
      var packages := Collect(PackageOf, ps);
      if packages == [] then None
      else Some(ProjectV(AttrOf(root.value.attrs, "name", DEFAULT_PROJECT_NAME), packages))
  }

  // ---------------------------------------------------------------------
  // The reader's loops, building the objects

  /** Creates the Key for a Key element, with one Translation per child node. */
  method BuildKey(e: Node) returns (r: Option<Key>)
    ensures r.None? <==> KeyOf(e).None?
    ensures r.Some? ==> r.value.Valid() && fresh(r.value.Repr) && r.value.model == KeyOf(e).value
  {
    if e.Element? && AttrOf(e.attrs, "ID", "") != "" && e.kids != [] {
      var k := new Key(AttrOf(e.attrs, "ID", ""));
      k.AddTranslations(TranslationsOf(e.kids));
      r := Some(k);
    } else {
      r := None;
    }
  }

  /** The nothing-or-one values a reader function gives for one node. */
  function Maybe<T>(v: Option<T>): seq<T>
  {
    match v case Some(x) => [x] case None => []
  }

  /** One iteration of the key loop: the key read from `e`, if any, becomes the last child of `c`. */
  method AddKeyFrom(c: Container, e: Node)
    requires c.Valid()
    modifies c
    ensures c.Valid() && fresh(c.Repr - old(c.Repr))
    ensures c.model == ContainerV(old(c.model).name, old(c.model).keys + Maybe(KeyOf(e)))
  {
    var k := BuildKey(e);
    if k.Some? {
      c.AttachKey(k.value);
    }
  }

  /** Creates the Container for a Container element and attaches the keys read from its Key descendants. */
  method BuildContainer(e: Node) returns (r: Option<Container>)
    ensures r.None? <==> ContainerOf(e).None?
    ensures r.Some? ==> r.value.Valid() && fresh(r.value.Repr) && r.value.model == ContainerOf(e).value
  {
    if !(e.Element? && e.kids != []) {
      return None;
    }
    var keys := ElementsByTag(e.kids, "Key");
    if keys == [] {
      return None;
    }
    var c := new Container(AttrOf(e.attrs, "name", ""));
    var j := 0;
    while j < |keys|
      invariant j <= |keys|
      invariant c.Valid() && fresh(c.Repr)
      invariant c.model == ContainerV(AttrOf(e.attrs, "name", ""), Collect(KeyOf, keys[..j]))
    {
      AddKeyFrom(c, keys[j]);
      CollectPrefix(KeyOf, keys, j);
      j := j + 1;
    }
    PrefixAll(keys);
    r := Some(c);
  }

  /** One iteration of the container loop. */
  method AddContainerFrom(p: Package, e: Node)
    requires p.Valid()
    modifies p
    ensures p.Valid() && fresh(p.Repr - old(p.Repr))
    ensures p.model == PackageV(old(p.model).name, old(p.model).containers + Maybe(ContainerOf(e)))
  {
    var c := BuildContainer(e);
    if c.Some? {
      p.AttachContainer(c.value);
    }
  }

  /** Creates the Package for a Package element and attaches the containers read from its Container descendants. */
  method BuildPackage(e: Node) returns (r: Option<Package>)
    ensures r.None? <==> PackageOf(e).None?
    ensures r.Some? ==> r.value.Valid() && fresh(r.value.Repr) && r.value.model == PackageOf(e).value
  {
    if !(e.Element? && e.kids != []) {
      return None;
    }
    var containers := ElementsByTag(e.kids, "Container");
    if containers == [] {
      return None;
    }
    var p := new Package(AttrOf(e.attrs, "name", ""));
    var j := 0;
    while j < |containers|
      invariant j <= |containers|
      invariant p.Valid() && fresh(p.Repr)
      invariant p.model == PackageV(AttrOf(e.attrs, "name", ""), Collect(ContainerOf, containers[..j]))
    {
      AddContainerFrom(p, containers[j]);
      CollectPrefix(ContainerOf, containers, j);
      j := j + 1;
    }
    PrefixAll(containers);
    r := Some(p);
  }

  /** One iteration of the package loop. */
  method AddPackageFrom(proj: Project, e: Node)
    requires proj.Valid()
    modifies proj
    ensures proj.Valid() && fresh(proj.Repr - old(proj.Repr))
    ensures proj.model == ProjectV(old(proj.model).name, old(proj.model).packages + Maybe(PackageOf(e)))
  {
    var p := BuildPackage(e);
    if p.Some? {
      proj.AttachPackage(p.value);
    }
  }

  /** StringtableParser::parse: the Project built from the document, or nothing. */
  method Parse(doc: Document) returns (r: Option<Project>)
    ensures r.None? <==> ParseDocument(doc).None?
    ensures r.Some? ==> r.value.Valid() && fresh(r.value.Repr) && r.value.model == ParseDocument(doc).value
  {
    var root := DocumentElement(doc);
    if root.None? || root.value.kids == [] || root.value.tag != "Project" {
      return None;
    }
    var packages := ElementsByTag(root.value.kids, "Package");
    if packages == [] {
      return None;
    }
    var name := AttrOf(root.value.attrs, "name", DEFAULT_PROJECT_NAME);
    var proj := new Project(name);
    var i := 0;
    while i < |packages|
      invariant i <= |packages|
      invariant proj.Valid() && fresh(proj.Repr)
      invariant proj.model == ProjectV(name, Collect(PackageOf, packages[..i]))
    {
      AddPackageFrom(proj, packages[i]);
      CollectPrefix(PackageOf, packages, i);
      i := i + 1;
    }
    PrefixAll(packages);
    if proj.packages == [] {
      return None;
    }
    r := Some(proj);
  }

  // ---------------------------------------------------------------------
  // Writing and reading back

  /** A tag the reader would mistake for a structural element if a translation used it. */
  predicate StructuralTag(tag: string)
  {
    tag == "Package" || tag == "Container" || tag == "Key"
  }

  /** A key the writer writes and the reader reads back unchanged. */
  predicate StorableKey(k: KeyV)
  {
    && k.id != ""
    && k.translations != []
    && forall i :: 0 <= i < |k.translations| ==> !StructuralTag(k.translations[i].lang)
  }

  predicate StorableContainer(c: ContainerV)
  {
    c.keys != [] && forall i :: 0 <= i < |c.keys| ==> StorableKey(c.keys[i])
  }

  predicate StorablePackage(p: PackageV)
  {
    p.containers != [] && forall i :: 0 <= i < |p.containers| ==> StorableContainer(p.containers[i])
  }

  /**
   * A project the round trip preserves: at least one package, no empty
   * package, container or key, no empty key id, no translation tagged like
   * a structural element.
   */
  predicate Storable(p: ProjectV)
  {
    p.packages != [] && forall i :: 0 <= i < |p.packages| ==> StorablePackage(p.packages[i])
  }

  /** A translation element holds nothing but its text. */
  lemma TranslationXmlHasNo(t: TranslationV, tag: string)
    requires t.lang != tag
    ensures ElementsByTag([TranslationXml(t)], tag) == []
  {
    var e := TranslationXml(t);
    assert ElementsByTag(e.kids, tag) == [] by {
      assert e.kids[1..] == [];
    }
    assert [e][1..] == [];
  }

  lemma {:induction false} TranslationsXmlHaveNo(ts: seq<TranslationV>, tag: string)
    requires forall i :: 0 <= i < |ts| ==> ts[i].lang != tag
    ensures ElementsByTag(TranslationsXml(ts), tag) == []
  {
    if ts != [] {
      TranslationsXmlHaveNo(ts[1..], tag);
      TranslationXmlHasNo(ts[0], tag);
      assert TranslationsXml(ts) == [TranslationXml(ts[0])] + TranslationsXml(ts[1..]);
      ElementsByTagAppend([TranslationXml(ts[0])], TranslationsXml(ts[1..]), tag);
    }
  }

  /** The Key element of a storable key: found as itself, and holding no Container or Package. */
  lemma KeyXmlTags(k: KeyV)
    requires StorableKey(k)
    ensures ElementsByTag([KeyXml(k).value], "Key") == [KeyXml(k).value]
    ensures ElementsByTag([KeyXml(k).value], "Container") == []
    ensures ElementsByTag([KeyXml(k).value], "Package") == []
  {
    var e := KeyXml(k).value;
    TranslationsXmlHaveNo(k.translations, "Key");
    TranslationsXmlHaveNo(k.translations, "Container");
    TranslationsXmlHaveNo(k.translations, "Package");
    assert [e][1..] == [];
  }

  lemma {:induction false} KeysXmlTags(ks: seq<KeyV>)
    requires forall i :: 0 <= i < |ks| ==> StorableKey(ks[i])
    ensures ElementsByTag(KeysXml(ks), "Key") == KeysXml(ks)
    ensures ElementsByTag(KeysXml(ks), "Container") == []
    ensures ElementsByTag(KeysXml(ks), "Package") == []
  {
    if ks != [] {
      KeysXmlTags(ks[1..]);
      KeyXmlTags(ks[0]);
      var e := KeyXml(ks[0]).value;
      assert KeysXml(ks) == [e] + KeysXml(ks[1..]);
      ElementsByTagAppend([e], KeysXml(ks[1..]), "Key");
      ElementsByTagAppend([e], KeysXml(ks[1..]), "Container");
      ElementsByTagAppend([e], KeysXml(ks[1..]), "Package");
    }
  }

  /** The reader reads a storable key back from its Key element. */
  lemma KeyXmlRead(k: KeyV)
    requires StorableKey(k)
    ensures KeyOf(KeyXml(k).value) == Some(k)
  {
    assert TranslationsOf(TranslationsXml(k.translations)) == k.translations;
  }

  lemma {:induction false} KeysXmlRead(ks: seq<KeyV>)
    requires forall i :: 0 <= i < |ks| ==> StorableKey(ks[i])
    ensures Collect(KeyOf, KeysXml(ks)) == ks
  {
    if ks != [] {
      KeysXmlRead(ks[1..]);
      KeyXmlRead(ks[0]);
      var e := KeyXml(ks[0]).value;
      assert KeysXml(ks) == [e] + KeysXml(ks[1..]);
      CollectAppend(KeyOf, [e], KeysXml(ks[1..]));
    }
  }

  lemma ContainerXmlTags(c: ContainerV)
    requires StorableContainer(c)
    ensures ElementsByTag([ContainerXml(c).value], "Container") == [ContainerXml(c).value]
    ensures ElementsByTag([ContainerXml(c).value], "Package") == []
  {
    var e := ContainerXml(c).value;
    KeysXmlTags(c.keys);
    assert [e][1..] == [];
  }

  lemma {:induction false} ContainersXmlTags(cs: seq<ContainerV>)
    requires forall i :: 0 <= i < |cs| ==> StorableContainer(cs[i])
    ensures ElementsByTag(ContainersXml(cs), "Container") == ContainersXml(cs)
    ensures ElementsByTag(ContainersXml(cs), "Package") == []
  {
    if cs != [] {
      ContainersXmlTags(cs[1..]);
      ContainerXmlTags(cs[0]);
      var e := ContainerXml(cs[0]).value;
      assert ContainersXml(cs) == [e] + ContainersXml(cs[1..]);
      ElementsByTagAppend([e], ContainersXml(cs[1..]), "Container");
      ElementsByTagAppend([e], ContainersXml(cs[1..]), "Package");
    }
  }

  lemma ContainerXmlRead(c: ContainerV)
    requires StorableContainer(c)
    ensures ContainerOf(ContainerXml(c).value) == Some(c)
  {
    KeysXmlTags(c.keys);
    KeysXmlRead(c.keys);
  }

  lemma {:induction false} ContainersXmlRead(cs: seq<ContainerV>)
    requires forall i :: 0 <= i < |cs| ==> StorableContainer(cs[i])
    ensures Collect(ContainerOf, ContainersXml(cs)) == cs
  {
    if cs != [] {
      ContainersXmlRead(cs[1..]);
      ContainerXmlRead(cs[0]);
      var e := ContainerXml(cs[0]).value;
      assert ContainersXml(cs) == [e] + ContainersXml(cs[1..]);
      CollectAppend(ContainerOf, [e], ContainersXml(cs[1..]));
    }
  }

  lemma PackageXmlTags(p: PackageV)
    requires StorablePackage(p)
    ensures ElementsByTag([PackageXml(p).value], "Package") == [PackageXml(p).value]
  {
    var e := PackageXml(p).value;
    ContainersXmlTags(p.containers);
    assert e.tag == "Package" && e.kids == ContainersXml(p.containers);
    assert [e][1..] == [];
    assert ElementsByTag([e], "Package") == ([e] + ElementsByTag(e.kids, "Package")) + ElementsByTag([], "Package");
  }

  lemma {:induction false} PackagesXmlTags(ps: seq<PackageV>)
    requires forall i :: 0 <= i < |ps| ==> StorablePackage(ps[i])
    ensures ElementsByTag(PackagesXml(ps), "Package") == PackagesXml(ps)
  {
    if ps != [] {
      PackagesXmlTags(ps[1..]);
      PackageXmlTags(ps[0]);
      var e := PackageXml(ps[0]).value;
      assert PackagesXml(ps) == [e] + PackagesXml(ps[1..]);
      ElementsByTagAppend([e], PackagesXml(ps[1..]), "Package");
    }
  }

  lemma PackageXmlRead(p: PackageV)
    requires StorablePackage(p)
    ensures PackageOf(PackageXml(p).value) == Some(p)
  {
    ContainersXmlTags(p.containers);
    ContainersXmlRead(p.containers);
  }

  lemma {:induction false} PackagesXmlRead(ps: seq<PackageV>)
    requires forall i :: 0 <= i < |ps| ==> StorablePackage(ps[i])
    ensures Collect(PackageOf, PackagesXml(ps)) == ps
  {
    if ps != [] {
      PackagesXmlRead(ps[1..]);
      PackageXmlRead(ps[0]);
      var e := PackageXml(ps[0]).value;
      assert PackagesXml(ps) == [e] + PackagesXml(ps[1..]);
      CollectAppend(PackageOf, [e], PackagesXml(ps[1..]));
    }
  }

  /** Reading back what Project::toXml wrote gives the same project. */
  lemma ParseRoundTrip(p: ProjectV)
    requires Storable(p)
    ensures ParseDocument(ProjectXml(p)) == Some(p)
  {
    var root := Element("Project", "", [Attr("name", p.name)], PackagesXml(p.packages));
    var doc := ProjectXml(p);
    assert doc == [XML_DECL, root];
    assert DocumentElement(doc) == Some(root) by {
      assert !doc[0].Element? && doc[1].Element?;
    }
    PackagesXmlTags(p.packages);
    PackagesXmlRead(p.packages);
  }

  /** A project without packages is written as the empty document, which the reader rejects. */
  lemma EmptyProjectNotReadBack(name: string)
    ensures ProjectXml(ProjectV(name, [])) == []
    ensures ParseDocument(ProjectXml(ProjectV(name, []))).None?
  {
  }
}
