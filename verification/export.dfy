/**
 * The writers: toXml (the stringtable dialect) and toXliff (XLIFF 1.2 and
 * 2.0) at every level of the catalog, over the value view. A level that has
 * nothing to write gives None, the empty document.
 */
module Export {
  import opened Wrappers
  import opened Strings
  import opened Catalog
  import opened Dom

  const XML_DECL: Node := Instruction("xml", "version=\"1.0\" encoding=\"utf-8\" ")
  const XLIFF12_NS: string := "urn:oasis:names:tc:xliff:document:1.2"
  const XLIFF20_NS: string := "urn:oasis:names:tc:xliff:document:2.0"

  /** The eleven ISO 639-1 codes the tool supports. */
  const SUPPORTED: seq<string> := ["en", "cz", "fr", "es", "it", "pl", "pt", "ru", "de", "ko", "ja"]
  /** The game's language name for each supported code, position by position. */
  const LANG_NAMES: seq<string> := ["English", "Czech", "French", "Spanish", "Italian", "Polish",
                                    "Portuguese", "Russian", "German", "Korean", "Japanese"]

  /** Project::langCodeToString: the language name of a code, compared case-insensitively; "" for any other input. */
  function LangCodeToString(code: string): string
  {
    LangName(ToLower(code))
  }

  /** The if/else chain of langCodeToString on the lower-cased code. */
  function LangName(c: string): string
  {
    if c == "en" then "English"
    else if c == "cz" then "Czech"
    else if c == "fr" then "French"
    else if c == "es" then "Spanish"
    else if c == "it" then "Italian"
    else if c == "pl" then "Polish"
    else if c == "pt" then "Portuguese"
    else if c == "ru" then "Russian"
    else if c == "de" then "German"
    else if c == "ko" then "Korean"
    else if c == "ja" then "Japanese"
    else ""
  }

  /** QStringList::contains(code, Qt::CaseInsensitive) on the supported codes. */
  predicate IsSupported(code: string)
  {
    exists i :: 0 <= i < |SUPPORTED| && EqualsIgnoreCase(SUPPORTED[i], code)
  }

  lemma {:induction false} ToLowerOfLower(s: string)
    requires forall i :: 0 <= i < |s| ==> !('A' <= s[i] <= 'Z')
    ensures ToLower(s) == s
  {
  }

  lemma LangNameAt(i: nat)
    requires i < |SUPPORTED|
    ensures LangName(SUPPORTED[i]) == LANG_NAMES[i]
    ensures ToLower(SUPPORTED[i]) == SUPPORTED[i]
  {
    ToLowerOfLower(SUPPORTED[i]);
  }

  lemma LangNameKnown(c: string)
    requires LangName(c) != ""
    ensures exists i :: 0 <= i < |SUPPORTED| && SUPPORTED[i] == c
  {
    assert c in SUPPORTED;
  }

  /** No language name starts like the reserved tag "Original". */
  lemma {:induction false} LangNameNotOriginal(c: string)
    ensures LangName(c) != ORIGINAL
  {
    var r := LangName(c);
    assert r == "" || r[0] != 'O';
    assert ORIGINAL[0] == 'O';
  }

  /**
   * The table has exactly the supported codes: a code maps to a language
   * name iff it is supported, and then to the name at the code's position.
   * That name is never "" nor the reserved tag "Original".
   */
  lemma LangCodeTable(code: string)
    ensures IsSupported(code) <==> LangCodeToString(code) != ""
    ensures forall i :: 0 <= i < |SUPPORTED| && EqualsIgnoreCase(SUPPORTED[i], code) ==> LangCodeToString(code) == LANG_NAMES[i]
    ensures LangCodeToString(code) != ORIGINAL
  {
    var c := ToLower(code);
    LangNameNotOriginal(c);
    forall i | 0 <= i < |SUPPORTED| && EqualsIgnoreCase(SUPPORTED[i], code)
      ensures LangCodeToString(code) == LANG_NAMES[i]
    {
      LangNameAt(i);
    }
    if LangCodeToString(code) != "" {
      LangNameKnown(c);
      var i :| 0 <= i < |SUPPORTED| && SUPPORTED[i] == c;
      LangNameAt(i);
      assert EqualsIgnoreCase(SUPPORTED[i], code);
    }
  }

  // ---------------------------------------------------------------------
  // Stringtable dialect

  /** Translation::toXml: one element named by the tag, holding the text (also when it is empty). */
  function TranslationXml(t: TranslationV): (r: Node)
    ensures r.Element? && r.tag == t.lang && TextOf(r.kids) == t.text
  {
    Element(t.lang, "", [], [Text(t.text)])
  }

  function TranslationsXml(ts: seq<TranslationV>): (r: seq<Node>)
    ensures |r| == |ts|
    ensures forall i :: 0 <= i < |ts| ==> r[i] == TranslationXml(ts[i])
  {
    if ts == [] then [] else [TranslationXml(ts[0])] + TranslationsXml(ts[1..])
  }

  /** Key::toXml: nothing for a key without translations, else a Key element with one child per translation. */
  function KeyXml(k: KeyV): (r: Option<Node>)
    ensures r.None? <==> k.translations == []
  {
    if k.translations == [] then None
    else Some(Element("Key", "", [Attr("ID", k.id)], TranslationsXml(k.translations)))
  }

  /** The elements of the keys that write something, in order. */
  function KeysXml(ks: seq<KeyV>): seq<Node>
  {
    if ks == [] then []
    else (match KeyXml(ks[0]) case Some(e) => [e] case None => []) + KeysXml(ks[1..])
  }

  /** Container::toXml: nothing iff there are no keys; keys without translations write nothing. */
  function ContainerXml(c: ContainerV): (r: Option<Node>)
    ensures r.None? <==> c.keys == []
  {
    if c.keys == [] then None
    else Some(Element("Container", "", [Attr("name", c.name)], KeysXml(c.keys)))
  }

  function ContainersXml(cs: seq<ContainerV>): seq<Node>
  {
    if cs == [] then []
    else (match ContainerXml(cs[0]) case Some(e) => [e] case None => []) + ContainersXml(cs[1..])
  }

  /** Package::toXml: nothing iff there are no containers. */
  function PackageXml(p: PackageV): (r: Option<Node>)
    ensures r.None? <==> p.containers == []
  {
    if p.containers == [] then None
    else Some(Element("Package", "", [Attr("name", p.name)], ContainersXml(p.containers)))
  }

  function PackagesXml(ps: seq<PackageV>): seq<Node>
  {
    if ps == [] then []
    else (match PackageXml(ps[0]) case Some(e) => [e] case None => []) + PackagesXml(ps[1..])
  }

  /**
   * Project::toXml: the empty document when there are no packages, else the
   * xml declaration followed by the Project element.
   */
  function ProjectXml(p: ProjectV): (r: Document)
    ensures r == [] <==> p.packages == []
  {
    if p.packages == [] then []
    else [XML_DECL, Element("Project", "", [Attr("name", p.name)], PackagesXml(p.packages))]
  }

  // ---------------------------------------------------------------------
  // XLIFF

  /** Translation::toXliff: `source` exactly for the tag "Original" (case-sensitive), `target` otherwise. */
  function TranslationXliff(t: TranslationV): (r: Node)
    ensures r.Element? && r.attrs == [] && r.kids == [Text(t.text)]
    ensures r.tag == "source" <==> t.lang == ORIGINAL
    ensures r.tag == "target" <==> t.lang != ORIGINAL
  {
    Element(if t.lang == ORIGINAL then "source" else "target", "", [], [Text(t.text)])
  }

  /** The text of the first translation tagged `lang`, if any. */
  function TextOfTag(k: KeyV, lang: string): Option<string>
  {
    KeyGet(k, lang)
  }

  /**
   * Key::toXliff: nothing without an "Original" translation; otherwise a
   * trans-unit (1.2) or segment (2.0) whose id is the normalised key id,
   * holding the source and, when `lang` is non-empty and present, the
   * translation in that language.
   */
  function KeyXliff(k: KeyV, lang: string, v2: bool): (r: Option<Node>)
    ensures r.None? <==> !HasTag(k.translations, ORIGINAL)
    ensures r.Some? ==>
              && r.value.Element?
              && r.value.tag == (if v2 then "segment" else "trans-unit")
              && r.value.attrs == [Attr("id", Normalize(k.id))]
              && |r.value.kids| >= 1
              && r.value.kids[0] == TranslationXliff(TranslationV(ORIGINAL, KeyGet(k, ORIGINAL).value))
              && (|r.value.kids| == 2 <==> lang != "" && HasTag(k.translations, lang))
              && |r.value.kids| <= 2
  {
    var ts := k.translations;
    var o := LangIndex(ts, ORIGINAL);
    if o == |ts| then None
    else
      var t := LangIndex(ts, lang);
      var second := if lang != "" && t < |ts| then [TranslationXliff(ts[t])] else [];
      Some(Element(if v2 then "segment" else "trans-unit", "", [Attr("id", Normalize(k.id))],
                   [TranslationXliff(ts[o])] + second))
  }

  function KeysXliff(ks: seq<KeyV>, lang: string, v2: bool): seq<Node>
  {
    if ks == [] then []
    else (match KeyXliff(ks[0], lang, v2) case Some(e) => [e] case None => []) + KeysXliff(ks[1..], lang, v2)
  }

  /**
   * Container::toXliff: nothing iff there are no keys; otherwise a group
   * (1.2) or unit (2.0) element, childless when no key has an "Original".
   */
  function ContainerXliff(c: ContainerV, lang: string, v2: bool): (r: Option<Node>)
    ensures r.None? <==> c.keys == []
  {
    if c.keys == [] then None
    else Some(Element(if v2 then "unit" else "group", "", [Attr("id", Normalize(c.name))], KeysXliff(c.keys, lang, v2)))
  }

  function ContainersXliff(cs: seq<ContainerV>, lang: string, v2: bool): seq<Node>
  {
    if cs == [] then []
    else (match ContainerXliff(cs[0], lang, v2) case Some(e) => [e] case None => []) + ContainersXliff(cs[1..], lang, v2)
  }

  /** Package::toXliff: nothing iff there are no containers; otherwise a group in both versions. */
  function PackageXliff(p: PackageV, lang: string, v2: bool): (r: Option<Node>)
    ensures r.None? <==> p.containers == []
  {
    if p.containers == [] then None
    else Some(Element("group", "", [Attr("id", Normalize(p.name))], ContainersXliff(p.containers, lang, v2)))
  }

  function PackagesXliff(ps: seq<PackageV>, lang: string, v2: bool): seq<Node>
  {
    if ps == [] then []
    else (match PackageXliff(ps[0], lang, v2) case Some(e) => [e] case None => []) + PackagesXliff(ps[1..], lang, v2)
  }

  /** The `file` element: 1.2 carries original, languages and datatype and holds a `body`; 2.0 carries only the id. */
  function FileXliff(p: ProjectV, lang: string, srcLang: string, v2: bool): Node
  {
    var id := Normalize(p.name);
    var groups := PackagesXliff(p.packages, LangCodeToString(lang), v2);
    if !v2 then
      Element("file", "",
              [Attr("original", id), Attr("source-language", srcLang)]
              + (if lang != "" then [Attr("target-language", lang)] else [])
              + [Attr("datatype", "plaintext")],
              [Element("body", "", [], groups)])
    else Element("file", "", [Attr("id", id)], groups)
  }

  /**
   * Project::toXliff(lang, srcLng, version2): the empty document when there
   * are no packages; otherwise the xml declaration and an `xliff` root in the
   * version's namespace. Children are written for the language NAME of
   * `lang`, not the code.
   */
  function ProjectXliff(p: ProjectV, lang: string, srcLang: string, v2: bool): (r: Document)
    ensures r == [] <==> p.packages == []
    ensures r != [] ==> |r| == 2 && r[0] == XML_DECL && r[1].Element? && r[1].tag == "xliff"
                        && r[1].ns == (if v2 then XLIFF20_NS else XLIFF12_NS)
                        && r[1].kids == [FileXliff(p, lang, srcLang, v2)]
  {
    if p.packages == [] then []
    else
      var attrs := if !v2 then [Attr("version", "1.2")]
                   else [Attr("version", "2.0"), Attr("srcLang", srcLang), Attr("trgLang", lang)];
      [XML_DECL, Element("xliff", if v2 then XLIFF20_NS else XLIFF12_NS, attrs, [FileXliff(p, lang, srcLang, v2)])]
  }

  /** The elements written for the keys are exactly those of the keys carrying an "Original", in order. */
  lemma {:induction false} KeysXliffCount(ks: seq<KeyV>, lang: string, v2: bool)
    ensures |KeysXliff(ks, lang, v2)| <= |ks|
    ensures (forall i :: 0 <= i < |ks| ==> HasTag(ks[i].translations, ORIGINAL)) ==> |KeysXliff(ks, lang, v2)| == |ks|
  {
    if ks != [] {
      KeysXliffCount(ks[1..], lang, v2);
    }
  }

  /** Every key with a translation writes a Key element, so the Key elements correspond one-to-one to such keys. */
  lemma {:induction false} KeysXmlAllWritten(ks: seq<KeyV>)
    requires forall i :: 0 <= i < |ks| ==> ks[i].translations != []
    ensures |KeysXml(ks)| == |ks|
    ensures forall i :: 0 <= i < |ks| ==> KeysXml(ks)[i] == KeyXml(ks[i]).value
  {
    if ks != [] {
      KeysXmlAllWritten(ks[1..]);
    }
  }
}
