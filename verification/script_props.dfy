/**
 * Properties of the script extractor: what a save leaves in the output
 * tree, what the lookup of a lonely identifier copies, and how the line
 * machine reads single-line directives and blocks.
 */
module ScriptProps {
  import opened Wrappers
  import opened Seqs
  import opened Strings
  import opened Catalog
  import opened Script

  // ---------------------------------------------------------------------
  // Appending translations without a tag keeps every lookup of that tag

  lemma {:induction false} KeyGetAppend(k: KeyV, ts: seq<TranslationV>, lang: string)
    requires !HasTag(ts, lang)
    ensures KeyGet(KeyV(k.id, k.translations + ts), lang) == KeyGet(k, lang)
  {
    var a := k.translations;
    var i := LangIndex(a, lang);
    var j := LangIndex(a + ts, lang);
    assert forall m :: 0 <= m < |a| ==> (a + ts)[m] == a[m];
    assert forall m :: |a| <= m < |a + ts| ==> (a + ts)[m] == ts[m - |a|];
    if i < |a| {
      assert j == i;
    } else {
      assert j == |a + ts|;
    }
  }

  lemma {:induction false} ContainerAppendKeepsGet(c: ContainerV, key: string, ts: seq<TranslationV>, term: string, lang: string)
    requires NoMeta(term) && !HasTag(ts, lang)
    ensures ContainerGet(ContainerAppend(c, key, ts), term, lang) == ContainerGet(c, term, lang)
  {
    var r := ContainerAppend(c, key, ts);
    var l := KeyIdIndex(c.keys, key);
    KeyIndexSameIds(c.keys, r.keys, term);
    if l < |c.keys| && KeyIndex(c.keys, term) == l {
      KeyGetAppend(c.keys[l], ts, lang);
    }
  }

  lemma {:induction false} PackageAppendKeepsGet(p: PackageV, container: string, key: string, ts: seq<TranslationV>,
                                                 c2: string, term: string, lang: string)
    requires NoMeta(term) && !HasTag(ts, lang)
    ensures PackageGet(PackageAppend(p, container, key, ts), c2, term, lang) == PackageGet(p, c2, term, lang)
  {
    var r := PackageAppend(p, container, key, ts);
    var j := ContainerIndex(p.containers, container);
    ContainerIndexSameNames(p.containers, r.containers, c2);
    if j < |p.containers| && ContainerIndex(p.containers, c2) == j {
      ContainerAppendKeepsGet(p.containers[j], key, ts, term, lang);
    }
  }

  /** Appending translations none of which carries `lang` changes no lookup of `lang`, on any path. */
  lemma {:induction false} AppendKeepsGet(p: ProjectV, package: string, container: string, key: string, ts: seq<TranslationV>,
                                          p2: string, c2: string, term: string, lang: string)
    requires NoMeta(term) && !HasTag(ts, lang)
    ensures ProjectGet(AppendAtExactPath(p, package, container, key, ts), p2, c2, term, lang) == ProjectGet(p, p2, c2, term, lang)
  {
    var r := AppendAtExactPath(p, package, container, key, ts);
    var i := PackageIndex(p.packages, package);
    PackageIndexSameNames(p.packages, r.packages, p2);
    if i < |p.packages| && PackageIndex(p.packages, p2) == i {
      PackageAppendKeepsGet(p.packages[i], container, key, ts, c2, term, lang);
    }
  }

  lemma {:induction false} OtherTagsLacksTag(ts: seq<TranslationV>, lang: string)
    ensures !HasTag(OtherTags(ts, lang), lang)
  {
    if ts != [] {
      OtherTagsLacksTag(ts[1..], lang);
      var rest := OtherTags(ts[1..], lang);
      var head: seq<TranslationV> := if ts[0].lang == lang then [] else [ts[0]];
      assert OtherTags(ts, lang) == head + rest;
      forall j | 0 <= j < |head + rest| ensures (head + rest)[j].lang != lang {
        if j >= |head| { assert (head + rest)[j] == rest[j - |head|]; }
      }
    }
  }

  // ---------------------------------------------------------------------
  // Saving a directive

  /** After a save with non-empty text, "Original" on the directive's path reads back as the text, carried translations or not. */
  lemma {:induction false} SaveSetsOriginal(sp: ProjectV, st: ProjectV, d: Directive)
    requires NoMeta(d.key) && d.text != ""
    ensures ProjectGet(Save(sp, st, d), d.package, d.container, d.key, ORIGINAL) == Some(d.text)
  {
    var out := ProjectSet(sp, d.package, d.container, d.key, ORIGINAL, d.text);
    ProjectSetThenGet(sp, d.package, d.container, d.key, ORIGINAL, d.text);
    match CarryOf(st, d)
    case None =>
    case Some(ts) =>
      OtherTagsLacksTag(ProjectGetAll(st, d.package, d.container, d.key), ORIGINAL);
      AppendKeepsGet(out, d.package, d.container, d.key, ts, d.package, d.container, d.key, ORIGINAL);
  }

  /** The translations carried by a save, or none. */
  function Carried(st: ProjectV, d: Directive): (r: seq<TranslationV>)
    requires NoMeta(d.key)
    ensures !HasTag(r, ORIGINAL)
    ensures r != [] ==> CarryOf(st, d) == Some(r)
  {
    OtherTagsLacksTag(ProjectGetAll(st, d.package, d.container, d.key), ORIGINAL);
    match CarryOf(st, d)
    case None => []
    case Some(ts) => ts
  }

  /**
   * A directive for a package the output does not have yet creates exactly
   * one package, holding one container, holding one key with the exact id
   * of the directive: "Original" first, then the carried translations.
   */
  lemma {:induction false} SaveNewPackage(sp: ProjectV, st: ProjectV, d: Directive)
    requires NoMeta(d.key) && d.text != ""
    requires PackageIndex(sp.packages, d.package) == |sp.packages|
    ensures Save(sp, st, d) == ProjectV(sp.name, sp.packages + [PackageV(d.package, [ContainerV(d.container,
              [KeyV(d.key, [TranslationV(ORIGINAL, d.text)] + Carried(st, d))])])])
  {
    var o := TranslationV(ORIGINAL, d.text);
    var key := KeyV(d.key, [o]);
    assert KeySet(KeyV(d.key, []), ORIGINAL, d.text) == key;
    assert ContainerSet(ContainerV(d.container, []), d.key, ORIGINAL, d.text) == ContainerV(d.container, [key]);
    var pkg := PackageV(d.package, [ContainerV(d.container, [key])]);
    assert PackageSet(PackageV(d.package, []), d.container, d.key, ORIGINAL, d.text) == pkg;
    var out := ProjectSet(sp, d.package, d.container, d.key, ORIGINAL, d.text);
    assert out == ProjectV(sp.name, sp.packages + [pkg]);
    match CarryOf(st, d)
    case None =>
      assert [o] + [] == [o];
    case Some(ts) =>
      PackageIndexAppend(sp.packages, pkg, d.package);
      assert ContainerAppend(ContainerV(d.container, [key]), d.key, ts) == ContainerV(d.container, [KeyV(d.key, [o] + ts)]);
      assert PackageAppend(pkg, d.container, d.key, ts) == PackageV(d.package, [ContainerV(d.container, [KeyV(d.key, [o] + ts)])]);
      assert (sp.packages + [pkg])[|sp.packages| := PackageAppend(pkg, d.container, d.key, ts)]
             == sp.packages + [PackageAppend(pkg, d.container, d.key, ts)];
  }

  /** What getTranslation reads is the tag's first translation among what getAllTranslations returns. */
  lemma {:induction false} GetIsFirstOfAll(p: ProjectV, package: string, container: string, key: string, lang: string)
    requires NoMeta(key)
    ensures ProjectGet(p, package, container, key, lang) == KeyGet(KeyV(key, ProjectGetAll(p, package, container, key)), lang)
  {
  }

  /** A package appended to the output, holding one container with one key, reads as that key on its path. */
  lemma {:induction false} NewPackageGet(sp: ProjectV, k: KeyV, package: string, container: string, lang: string)
    requires NoMeta(k.id)
    requires PackageIndex(sp.packages, package) == |sp.packages|
    ensures ProjectGet(ProjectV(sp.name, sp.packages + [PackageV(package, [ContainerV(container, [k])])]),
                       package, container, k.id, lang) == KeyGet(k, lang)
  {
    var pkg := PackageV(package, [ContainerV(container, [k])]);
    PackageIndexAppend(sp.packages, pkg, package);
    ContainsIgnoreCaseSelf(k.id);
  }

  /**
   * Carry-forward: when a directive's text matches the reference's
   * "Original" and the output has no such package yet, the output key reads
   * every tag other than "Original" exactly as the reference does, and
   * "Original" as the directive's text.
   */
  lemma {:induction false} CarryForwardRestores(sp: ProjectV, st: ProjectV, d: Directive, lang: string)
    requires NoMeta(d.key) && d.text != ""
    requires PackageIndex(sp.packages, d.package) == |sp.packages|
    requires CarryOf(st, d).Some?
    ensures ProjectGet(Save(sp, st, d), d.package, d.container, d.key, lang)
            == if lang == ORIGINAL then Some(d.text) else ProjectGet(st, d.package, d.container, d.key, lang)
  {
    var out := Save(sp, st, d);
    if lang == ORIGINAL {
      SaveSetsOriginal(sp, st, d);
    } else {
      var tl := ProjectGetAll(st, d.package, d.container, d.key);
      var ts := OtherTags(tl, ORIGINAL);
      var o := TranslationV(ORIGINAL, d.text);
      var pkg := PackageV(d.package, [ContainerV(d.container, [KeyV(d.key, [o] + ts)])]);
      assert ProjectGet(out, d.package, d.container, d.key, lang) == KeyGet(KeyV(d.key, [o] + ts), lang) by {
        SaveNewPackage(sp, st, d);
        NewPackageGet(sp, KeyV(d.key, [o] + ts), d.package, d.container, lang);
      }
      assert KeyGet(KeyV(d.key, [o] + ts), lang) == KeyGet(KeyV(d.key, ts), lang) by {
        KeyGetCons(d.key, [o] + ts, lang);
        assert ([o] + ts)[1..] == ts;
      }
      assert KeyGet(KeyV(d.key, ts), lang) == ProjectGet(st, d.package, d.container, d.key, lang) by {
        KeyGetOtherTags(d.key, tl, ORIGINAL, lang);
        GetIsFirstOfAll(st, d.package, d.container, d.key, lang);
      }
    }
  }

  // ---------------------------------------------------------------------
  // The lookup of a lonely identifier

  predicate DistinctTags(ts: seq<TranslationV>)
  {
    forall a, b :: 0 <= a < b < |ts| ==> ts[a].lang != ts[b].lang
  }

  predicate NonEmptyTexts(ts: seq<TranslationV>)
  {
    forall a :: 0 <= a < |ts| ==> ts[a].text != ""
  }

  /** Copying translations with distinct tags and non-empty texts makes each of them read back on the path. */
  lemma {:induction false} CopyAllReadsBack(p: ProjectV, package: string, container: string, key: string,
                                            ts: seq<TranslationV>, j: nat)
    requires NoMeta(key) && DistinctTags(ts) && NonEmptyTexts(ts) && j < |ts|
    ensures ProjectGet(CopyAll(p, package, container, key, ts), package, container, key, ts[j].lang) == Some(ts[j].text)
    decreases |ts|
  {
    var n := |ts| - 1;
    var prev := CopyAll(p, package, container, key, ts[..n]);
    if j == n {
      ProjectSetThenGet(prev, package, container, key, ts[n].lang, ts[n].text);
    } else {
      assert ts[..n][j] == ts[j];
      CopyAllReadsBack(p, package, container, key, ts[..n], j);
      ProjectSetOtherTag(prev, package, container, key, ts[n].lang, ts[n].text, ts[j].lang);
    }
  }

  /**
   * An identifier that no output key contains but a reference key does:
   * after the lookup, every translation of the reference's first matching
   * key in pre-order reads back in the output under the names of that key's
   * own package, container and id.
   */
  lemma {:induction false} LonelyCopiesKey(sp: ProjectV, st: ProjectV, id: string, n: nat, j: nat, m: nat, l: nat, t: nat)
    requires NoMeta(id) && KeyIdsNoMeta(st)
    requires NoKeyLike(sp, id) && FirstInPackages(st.packages, id, j, m, l)
    requires var k := st.packages[j].containers[m].keys[l];
             DistinctTags(k.translations) && NonEmptyTexts(k.translations) && t < |k.translations|
    ensures NoMeta(st.packages[j].containers[m].keys[l].id)
    ensures Lonely(sp, st, id, n).1 == []
    ensures var k := st.packages[j].containers[m].keys[l];
            ProjectGet(Lonely(sp, st, id, n).0, st.packages[j].name, st.packages[j].containers[m].name, k.id,
                       k.translations[t].lang) == Some(k.translations[t].text)
  {
    assert ContainersNoMeta(st.packages[j].containers);
    FindKeyRecursiveFirst(st, id);
    var hit := HitAt(st.packages, j, m, l);
    assert FindKeyRecursive(st, id) == Some(hit);
    CopyAllReadsBack(sp, hit.package, hit.container, hit.key.id, hit.key.translations, t);
  }

  /** A diagnostic is raised for an identifier exactly when neither tree has a key containing it, and then nothing changes. */
  lemma {:induction false} LonelyDiagnostic(sp: ProjectV, st: ProjectV, id: string, n: nat)
    requires NoMeta(id) && KeyIdsNoMeta(st)
    ensures Lonely(sp, st, id, n) == (sp, [Diagnostic(n, id)]) <==> NoKeyLike(sp, id) && NoKeyLike(st, id)
  {
  }

  /** The diagnostics of one line carry its number and name identifiers of that line, at most one each. */
  lemma {:induction false} LinePassDiagnostics(sp: ProjectV, st: ProjectV, ids: seq<string>, n: nat)
    requires forall i :: 0 <= i < |ids| ==> NoMeta(ids[i])
    requires KeyIdsNoMeta(st)
    ensures var d := LinePass(sp, st, ids, n).1;
            |d| <= |ids| && forall i :: 0 <= i < |d| ==> d[i].line == n && d[i].id in ids
    decreases |ids|
  {
    if ids != [] {
      var pre := ids[..|ids| - 1];
      assert forall i :: 0 <= i < |pre| ==> pre[i] == ids[i];
      LinePassDiagnostics(sp, st, pre, n);
    }
  }

  /** Every diagnostic names an identifier found on its own line, lines counted from 1. */
  ghost predicate OnItsLine(d: seq<Diagnostic>, lines: seq<string>)
  {
    forall i :: 0 <= i < |d| ==> 1 <= d[i].line <= |lines| && d[i].id in Identifiers(lines[d[i].line - 1])
  }

  /** The diagnostics come in line order. */
  ghost predicate InLineOrder(d: seq<Diagnostic>)
  {
    forall i, j :: 0 <= i < j < |d| ==> d[i].line <= d[j].line
  }

  lemma {:induction false} OnItsLineSnoc(d: seq<Diagnostic>, e: seq<Diagnostic>, lines: seq<string>)
    requires lines != [] && OnItsLine(d, lines[..|lines| - 1])
    requires forall i :: 0 <= i < |e| ==> e[i].line == |lines| && e[i].id in Identifiers(lines[|lines| - 1])
    ensures OnItsLine(d + e, lines)
  {
    var pre := lines[..|lines| - 1];
    forall i | 0 <= i < |d + e|
      ensures 1 <= (d + e)[i].line <= |lines| && (d + e)[i].id in Identifiers(lines[(d + e)[i].line - 1])
    {
      if i < |d| {
        assert (d + e)[i] == d[i];
        assert pre[d[i].line - 1] == lines[d[i].line - 1];
      } else {
        assert (d + e)[i] == e[i - |d|];
      }
    }
  }

  lemma {:induction false} InLineOrderSnoc(d: seq<Diagnostic>, e: seq<Diagnostic>, n: nat)
    requires InLineOrder(d) && forall i :: 0 <= i < |d| ==> d[i].line < n
    requires forall i :: 0 <= i < |e| ==> e[i].line == n
    ensures InLineOrder(d + e)
  {
    forall i, j | 0 <= i < j < |d + e|
      ensures (d + e)[i].line <= (d + e)[j].line
    {
      if j < |d| {
        assert (d + e)[i] == d[i] && (d + e)[j] == d[j];
      } else if i < |d| {
        assert (d + e)[i] == d[i] && (d + e)[j] == e[j - |d|];
      } else {
        assert (d + e)[i] == e[i - |d|] && (d + e)[j] == e[j - |d|];
      }
    }
  }

  /**
   * The identifier pass numbers lines from 1: every diagnostic names an
   * identifier found on its own line, and the diagnostics come in line order.
   */
  lemma {:induction false} OrphanDiagnostics(sp: ProjectV, st: ProjectV, lines: seq<string>)
    requires KeyIdsNoMeta(st)
    ensures OnItsLine(OrphanPass(sp, st, lines).1, lines)
    ensures InLineOrder(OrphanPass(sp, st, lines).1)
    decreases |lines|
  {
    if lines != [] {
      var pre := lines[..|lines| - 1];
      OrphanDiagnostics(sp, st, pre);
      var prev := OrphanPass(sp, st, pre);
      var ids := Identifiers(lines[|lines| - 1]);
      IdentifiersNoMeta(ids);
      LinePassDiagnostics(prev.0, st, ids, |lines|);
      var line := LinePass(prev.0, st, ids, |lines|);
      assert OrphanPass(sp, st, lines).1 == prev.1 + line.1;
      OnItsLineSnoc(prev.1, line.1, lines);
      InLineOrderSnoc(prev.1, line.1, |lines|);
    }
  }


  // ---------------------------------------------------------------------
  // Greedy runs

  lemma {:induction false} SpanExact(a: string, b: string, cls: Class)
    requires forall i :: 0 <= i < |a| ==> InClass(a[i], cls)
    requires b == [] || !InClass(b[0], cls)
    ensures Span(a + b, cls) == |a|
    ensures Skip(a + b, cls) == b && Lead(a + b, cls) == a
  {
    if a != [] {
      SpanExact(a[1..], b, cls);
      assert (a + b)[1..] == a[1..] + b;
    }
    assert (a + b)[|a|..] == b;
    assert (a + b)[..|a|] == a;
  }

  // ---------------------------------------------------------------------
  // Single-line directives

  /** The canonical single-line directive `// TR <package> <container> <key> "<text>"`. */
  function SingleLine(package: string, container: string, key: string, text: string): string
  {
    "//" + (" " + ("TR" + (" " + (package + (" " + (container + (" " + (key + (" " + ("\"" + (text + "\"")))))))))))
  }

  lemma {:induction false} KeywordOf(opener: string, rest: string)
    requires |opener| == 2
    ensures Keyword(opener + (" " + ("TR" + rest)), opener) == Some(rest)
  {
    var s := opener + (" " + ("TR" + rest));
    assert s[..2] == opener;
    assert s[2..] == " " + ("TR" + rest);
    SpanExact(" ", "TR" + rest, Space);
    assert ("TR" + rest)[..2] == "TR";
    assert ("TR" + rest)[2..] == rest;
  }

  lemma {:induction false} FieldOf(group: string, rest: string, cls: Class)
    requires group != [] && AllIn(group, cls)
    requires rest == [] || !InClass(rest[0], cls)
    requires !InClass(' ', cls)
    ensures Field(" " + (group + rest), cls) == Some((group, rest))
  {
    SpanExact(" ", group + rest, Space);
    SpanExact(group, rest, cls);
  }

  lemma {:induction false} QuotedOf(text: string)
    requires '"' !in text
    ensures Quoted(" " + ("\"" + (text + "\""))) == Some(text)
  {
    var q := text + "\"";
    SpanExact(" ", "\"" + q, Space);
    assert ("\"" + q)[..1] == "\"";
    assert ("\"" + q)[1..] == q;
    SpanExact(text, "\"", NotQuote);
  }

  /** The single-line pattern reads back the four parts of the canonical directive. */
  lemma {:induction false} SingleAtLine(package: string, container: string, key: string, text: string)
    requires package != [] && AllIn(package, Token)
    requires container != [] && AllIn(container, Token)
    requires key != [] && AllIn(key, KeyChar)
    requires '"' !in text
    ensures SingleAt(SingleLine(package, container, key, text)) == Some(Captures(package, container, key, text))
  {
    var b4 := " " + ("\"" + (text + "\""));
    var b3 := " " + (key + b4);
    var b2 := " " + (container + b3);
    var b1 := " " + (package + b2);
    KeywordOf("//", b1);
    FieldOf(package, b2, Token);
    FieldOf(container, b3, Token);
    FieldOf(key, b4, KeyChar);
    QuotedOf(text);
  }

  /** The leftmost match of the single-line pattern in the canonical directive is the whole directive. */
  lemma {:induction false} SingleLineRoundTrip(package: string, container: string, key: string, text: string)
    requires package != [] && AllIn(package, Token)
    requires container != [] && AllIn(container, Token)
    requires key != [] && AllIn(key, KeyChar)
    requires '"' !in text
    ensures FirstSingle(SingleLine(package, container, key, text)) == Some(Captures(package, container, key, text))
  {
    SingleAtLine(package, container, key, text);
  }

  /** The canonical block header `/` `* TR <package> <container> <key>`, followed by `rest`. */
  function HeaderLine(package: string, container: string, key: string, rest: string): string
  {
    "/*" + (" " + ("TR" + (" " + (package + (" " + (container + (" " + (key + rest))))))))
  }

  lemma {:induction false} MetaAtHeader(package: string, container: string, key: string, rest: string)
    requires package != [] && AllIn(package, Token)
    requires container != [] && AllIn(container, Token)
    requires key != [] && AllIn(key, Token)
    requires rest == [] || !InClass(rest[0], Token)
    ensures MetaAt(HeaderLine(package, container, key, rest)) == Some(Meta(package, container, key))
  {
    var b3 := " " + (key + rest);
    FieldOf(key, rest, Token);
    var b2 := " " + (container + b3);
    assert b3[0] == ' ';
    FieldOf(container, b3, Token);
    var b1 := " " + (package + b2);
    assert b2[0] == ' ';
    FieldOf(package, b2, Token);
    KeywordOf("/*", b1);
  }

  /** The header pattern reads back the three names of the canonical header. */
  lemma {:induction false} MetaRoundTrip(package: string, container: string, key: string, rest: string)
    requires package != [] && AllIn(package, Token)
    requires container != [] && AllIn(container, Token)
    requires key != [] && AllIn(key, Token)
    requires rest == [] || !InClass(rest[0], Token)
    ensures FirstMeta(HeaderLine(package, container, key, rest)) == Some(Meta(package, container, key))
  {
    MetaAtHeader(package, container, key, rest);
  }

  /** A canonical single-line directive outside a block saves its text under the resolved names. */
  lemma {:induction false} SingleLineStep(package: string, container: string, key: string, text: string, base: string)
    requires package != [] && AllIn(package, Token)
    requires container != [] && AllIn(container, Token)
    requires key != [] && AllIn(key, KeyChar)
    requires '"' !in text
    ensures Step(IDLE, SingleLine(package, container, key, text), base)
            == (IDLE, [Directive(ResolvePackage(package), ResolveContainer(container, base), key, text)])
  {
    SingleLineRoundTrip(package, container, key, text);
  }

  /** What a line yields when no block is open: its single-line directive, if any. */
  function LineDirective(line: string, base: string): seq<Directive>
  {
    match FirstSingle(line)
    case None => []
    case Some(c) => [Directive(ResolvePackage(c.package), ResolveContainer(c.container, base), c.key, c.text)]
  }

  /** The single-line directives of every line, in order. */
  function SingleDirectives(lines: seq<string>, base: string): seq<Directive>
    decreases |lines|
  {
    if lines == [] then []
    else SingleDirectives(lines[..|lines| - 1], base) + LineDirective(lines[|lines| - 1], base)
  }

  /** Without block openers, the machine stays idle and yields exactly the single-line directives of the lines. */
  lemma {:induction false} NoBlockLines(lines: seq<string>, base: string)
    requires forall j :: 0 <= j < |lines| ==> !HasBlockStart(lines[j])
    ensures Feed(IDLE, lines, base) == (IDLE, SingleDirectives(lines, base))
    decreases |lines|
  {
    if lines != [] {
      var n := |lines| - 1;
      NoBlockLines(lines[..n], base);
      assert Step(IDLE, lines[n], base) == (IDLE, LineDirective(lines[n], base));
    }
  }

  // ---------------------------------------------------------------------
  // Blocks

  /** Every line followed by one space, as the block buffer collects them. */
  function Joined(ls: seq<string>): string
    decreases |ls|
  {
    if ls == [] then [] else Joined(ls[..|ls| - 1]) + ls[|ls| - 1] + " "
  }

  /** A header that opens a block and does not close it. */
  predicate Opens(header: string)
  {
    HasBlockStart(header) && !HasBlockEnd(header) && FirstSingle(header).None?
  }

  lemma {:induction false} BlockStartNonEmpty(s: string)
    requires HasBlockStart(s)
    ensures s != []
  {
  }

  /** Inside an open block, a line is added to the body with one space, and the first line with the end marker closes the block. */
  lemma {:induction false} StepInBlock(header: string, body: string, line: string, base: string)
    requires header != ""
    ensures Step(Block(true, header, body), line, base)
            == if HasBlockEnd(line) then (IDLE, Close(header, body + line + " ", base))
               else (Block(true, header, body + line + " "), [])
  {
  }

  /** The header line opens the block without adding to the body. */
  lemma {:induction false} StepOpens(header: string, base: string)
    requires Opens(header)
    ensures Step(IDLE, header, base) == (Block(true, header, ""), [])
  {
  }

  /** One more line at the end of the input is one more step of the machine, from any state. */
  lemma {:induction false} FeedAppend(b: Block, pre: seq<string>, line: string, base: string)
    ensures var prev := Feed(b, pre, base);
            var step := Step(prev.0, line, base);
            Feed(b, pre + [line], base) == (step.0, prev.1 + step.1)
  {
    assert (pre + [line])[..|pre + [line]| - 1] == pre;
  }

  /** The header alone opens the block with an empty body. */
  lemma {:induction false} HeaderOpens(header: string, base: string)
    requires Opens(header)
    ensures Feed(IDLE, [header], base) == (Block(true, header, ""), [])
  {
    var none: seq<string> := [];
    assert [header] == none + [header];
    var prev := Feed(IDLE, none, base);
    assert prev == (IDLE, []);
    var step := Step(prev.0, header, base);
    assert step == (Block(true, header, ""), []) by {
      StepOpens(header, base);
    }
    FeedAppend(IDLE, none, header, base);
    assert prev.1 + step.1 == [];
  }

  /** Inside an open block, a line without the end marker is collected: one more line of the body. */
  lemma {:induction false} FeedCollects(header: string, pre: seq<string>, body: string, line: string, base: string)
    requires header != "" && !HasBlockEnd(line)
    requires Feed(IDLE, pre, base) == (Block(true, header, body), [])
    ensures Feed(IDLE, pre + [line], base) == (Block(true, header, body + line + " "), [])
  {
    assert Step(Block(true, header, body), line, base) == (Block(true, header, body + line + " "), []) by {
      StepInBlock(header, body, line, base);
    }
    FeedAppend(IDLE, pre, line, base);
  }

  /** Inside an open block, the line with the end marker closes it and yields the directives of the whole body. */
  lemma {:induction false} FeedCloses(header: string, pre: seq<string>, body: string, line: string, base: string)
    requires header != "" && HasBlockEnd(line)
    requires Feed(IDLE, pre, base) == (Block(true, header, body), [])
    ensures Feed(IDLE, pre + [line], base) == (IDLE, Close(header, body + line + " ", base))
  {
    var step := Step(Block(true, header, body), line, base);
    assert step == (IDLE, Close(header, body + line + " ", base)) by {
      StepInBlock(header, body, line, base);
    }
    FeedAppend(IDLE, pre, line, base);
    assert [] + step.1 == step.1;
  }

  /** The body lines collected so far: one more line is the previous lines, that line and a space. */
  lemma {:induction false} JoinedPrefix(ls: seq<string>, k: nat)
    requires 0 < k <= |ls|
    ensures Joined(ls[..k]) == Joined(ls[..k - 1]) + ls[k - 1] + " "
  {
    assert ls[..k][..k - 1] == ls[..k - 1];
  }

  /** While the block is open, every line after the header is collected into the body, single-line directives included. */
  lemma {:induction false} BlockCollects(header: string, ls: seq<string>, k: nat, base: string)
    requires Opens(header) && k <= |ls|
    requires forall j :: 0 <= j < k ==> !HasBlockEnd(ls[j])
    ensures Feed(IDLE, [header] + ls[..k], base) == (Block(true, header, Joined(ls[..k])), [])
    decreases k
  {
    if k == 0 {
      assert [header] + ls[..0] == [header];
      assert Joined(ls[..0]) == "";
      HeaderOpens(header, base);
    } else {
      var pre := [header] + ls[..k - 1];
      assert Feed(IDLE, pre, base) == (Block(true, header, Joined(ls[..k - 1])), []) by {
        BlockCollects(header, ls, k - 1, base);
      }
      PrefixSnoc(ls, k - 1);
      AppendAssoc([header], ls[..k - 1], [ls[k - 1]]);
      BlockStartNonEmpty(header);
      FeedCollects(header, pre, Joined(ls[..k - 1]), ls[k - 1], base);
      JoinedPrefix(ls, k);
    }
  }

  /**
   * A block of a header and body lines, the last of which holds the first
   * end marker, yields what the closing of that header and the joined body
   * lines yields, and leaves the machine idle.
   */
  lemma {:induction false} BlockCloses(header: string, ls: seq<string>, base: string)
    requires Opens(header) && ls != []
    requires forall j :: 0 <= j < |ls| - 1 ==> !HasBlockEnd(ls[j])
    requires HasBlockEnd(ls[|ls| - 1])
    ensures Feed(IDLE, [header] + ls, base) == (IDLE, Close(header, Joined(ls), base))
  {
    var n := |ls| - 1;
    var pre := [header] + ls[..n];
    var body := Joined(ls[..n]);
    assert Feed(IDLE, pre, base) == (Block(true, header, body), []) by {
      BlockCollects(header, ls, n, base);
    }
    PrefixSnoc(ls, n);
    PrefixAll(ls);
    AppendAssoc([header], ls[..n], [ls[n]]);
    assert Joined(ls) == body + ls[n] + " " by {
      JoinedPrefix(ls, n + 1);
    }
    BlockStartNonEmpty(header);
    FeedCloses(header, pre, body, ls[n], base);
  }

  /** A header that also closes on its own line closes with an empty text. */
  lemma {:induction false} OneLineBlock(header: string, base: string)
    requires HasBlockStart(header) && HasBlockEnd(header) && FirstSingle(header).None?
    ensures Step(IDLE, header, base) == (IDLE, Close(header, "", base))
    ensures forall j :: 0 <= j < |Close(header, "", base)| ==> Close(header, "", base)[j].text == ""
  {
    assert Simplified(RemoveEnd(Escape(""))) == "";
  }

  // ---------------------------------------------------------------------
  // The end marker and the base name

  lemma {:induction false} ContainsAfter(s: string, w: nat, t: string)
    requires w <= |s| && StartsWith(s[w..], t)
    ensures Contains(s, t)
    decreases w
  {
    if w > 0 {
      assert s[1..][w - 1..] == s[w..];
      ContainsAfter(s[1..], w - 1, t);
    }
  }

  /** Text without the end marker passes the removal unchanged. */
  lemma {:induction false} RemoveEndKeeps(s: string)
    requires !HasBlockEnd(s)
    ensures RemoveEnd(s) == s
    decreases |s|
  {
    if s != [] {
      var w := Span(s, Space);
      if StartsWith(s[w..], "*/") {
        ContainsAfter(s, w, "*/");
      }
      RemoveEndKeeps(s[1..]);
      assert [s[0]] + s[1..] == s;
    }
  }

  lemma {:induction false} SpanAll(a: string, b: string, cls: Class)
    requires AllIn(a, cls)
    ensures Span(a + b, cls) == |a| + Span(b, cls)
    decreases |a|
  {
    if a == [] {
      assert a + b == b;
    } else {
      assert (a + b)[0] == a[0] && (a + b)[1..] == a[1..] + b;
      SpanAll(a[1..], b, cls);
    }
  }

  lemma {:induction false} SpanStops(t: string, x: string, cls: Class)
    requires Span(t, cls) < |t|
    ensures Span(t + x, cls) == Span(t, cls)
    decreases |t|
  {
    assert (t + x)[0] == t[0] && (t + x)[1..] == t[1..] + x;
    if InClass(t[0], cls) {
      SpanStops(t[1..], x, cls);
    }
  }

  /** A whitespace run followed by the end marker is removed as a whole. */
  lemma {:induction false} RemoveEndAtMarker(w: string, rest: string)
    requires AllIn(w, Space)
    ensures RemoveEnd(w + "*/" + rest) == RemoveEnd(rest)
  {
    var s := w + "*/" + rest;
    assert s == w + ("*/" + rest);
    SpanAll(w, "*/" + rest, Space);
    assert Span("*/" + rest, Space) == 0;
    assert s[|w|..] == "*/" + rest;
    assert s[|w| + 2..] == rest;
  }

  /** Where the whitespace scan of such text stops, no end marker starts. */
  lemma {:induction false} NoMarkerAfterSpan(t: string, after: string)
    requires t != [] && !HasBlockEnd(t) && !IsRegexSpace(t[|t| - 1])
    requires after == [] || after[0] != '/'
    ensures Span(t + after, Space) < |t|
    ensures !StartsWith((t + after)[Span(t + after, Space)..], "*/")
  {
    var s := t + after;
    var k := Span(t, Space);
    assert k < |t| by {
      assert !InClass(t[|t| - 1], Space);
    }
    SpanStops(t, after, Space);
    if k + 1 < |t| {
      assert s[k..][..2] == t[k..][..2];
      if StartsWith(t[k..], "*/") {
        ContainsAfter(t, k, "*/");
      }
    } else {
      assert after == [] || s[k + 1] == after[0];
    }
  }

  /** Text without an end marker that does not end in whitespace keeps its first character, whatever follows unless it starts with a slash. */
  lemma {:induction false} RemoveEndKeepsHead(t: string, after: string)
    requires t != [] && !HasBlockEnd(t) && !IsRegexSpace(t[|t| - 1])
    requires after == [] || after[0] != '/'
    ensures RemoveEnd(t + after) == [t[0]] + RemoveEnd(t[1..] + after)
  {
    NoMarkerAfterSpan(t, after);
    assert (t + after)[1..] == t[1..] + after;
  }

  /** Before the end marker, the text's first character is kept. */
  lemma {:induction false} RemoveEndCloseHead(t: string, w: string, rest: string)
    requires t != [] && !HasBlockEnd(t) && !IsRegexSpace(t[|t| - 1])
    requires AllIn(w, Space)
    ensures RemoveEnd(t + w + "*/" + rest) == [t[0]] + RemoveEnd(t[1..] + w + "*/" + rest)
  {
    var after := w + "*/" + rest;
    assert after[0] != '/' by {
      assert w == [] || InClass(w[0], Space);
    }
    RemoveEndKeepsHead(t, after);
    AppendAssoc(t, w, "*/");
    AppendAssoc(t, w + "*/", rest);
    AppendAssoc(t[1..], w, "*/");
    AppendAssoc(t[1..], w + "*/", rest);
  }

  /**
   * The ordinary end of a block: text free of end markers and not ending in
   * whitespace, a whitespace run, then star-slash. The removal takes the
   * marker with the run before it and keeps the text, and then goes on
   * with whatever follows.
   */
  lemma {:induction false} RemoveEndClose(t: string, w: string, rest: string)
    requires !HasBlockEnd(t) && (t == [] || !IsRegexSpace(t[|t| - 1]))
    requires AllIn(w, Space)
    ensures RemoveEnd(t + w + "*/" + rest) == t + RemoveEnd(rest)
    decreases |t|
  {
    if t == [] {
      ConsAppend(t, w);
      RemoveEndAtMarker(w, rest);
    } else {
      var u := t[1..];
      RemoveEndCloseHead(t, w, rest);
      assert u == [] || u[|u| - 1] == t[|t| - 1];
      RemoveEndClose(u, w, rest);
      assert t == [t[0]] + u;
      AppendAssoc([t[0]], u, RemoveEnd(rest));
    }
  }

  lemma {:induction false} EscapeAppend(a: string, b: string)
    ensures Escape(a + b) == Escape(a) + Escape(b)
    decreases |a|
  {
    if a == [] {
      assert a + b == b;
    } else {
      assert (a + b)[0] == a[0] && (a + b)[1..] == a[1..] + b;
      EscapeAppend(a[1..], b);
    }
  }

  /** Each character on its own: `<` becomes `&lt;`, `>` becomes `&gt;`, every other character stays. */
  lemma EscapeChar(c: char)
    ensures Escape([c]) == if c == '<' then "&lt;" else if c == '>' then "&gt;" else [c]
  {
    assert [c][1..] == [];
  }

  /** Text without angle brackets is left as it is. */
  lemma {:induction false} EscapePlain(s: string)
    requires '<' !in s && '>' !in s
    ensures Escape(s) == s
    decreases |s|
  {
    if s != [] {
      EscapePlain(s[1..]);
      assert s == [s[0]] + s[1..];
    }
  }

  lemma {:induction false} EscapeLast(t: string)
    requires t != []
    ensures Escape(t) != []
    ensures var c := t[|t| - 1];
            Escape(t)[|Escape(t)| - 1] == if c == '<' || c == '>' then ';' else c
  {
    var n := |t| - 1;
    assert t == t[..n] + [t[n]];
    EscapeAppend(t[..n], [t[n]]);
    EscapeChar(t[n]);
  }

  /** A prefix without a star cannot start an end marker. */
  lemma {:induction false} ContainsNoStar(h: string, rest: string)
    requires '*' !in h
    ensures Contains(h + rest, "*/") == Contains(rest, "*/")
    decreases |h|
  {
    if h == [] {
      assert h + rest == rest;
    } else {
      assert (h + rest)[0] == h[0] && (h + rest)[1..] == h[1..] + rest;
      ContainsNoStar(h[1..], rest);
    }
  }

  /** Escaping adds no star and no slash, so it creates no end marker. */
  lemma {:induction false} EscapeNoEnd(t: string)
    requires !HasBlockEnd(t)
    ensures !HasBlockEnd(Escape(t))
    decreases |t|
  {
    if t != [] {
      var rest := Escape(t[1..]);
      EscapeNoEnd(t[1..]);
      if t[0] == '*' {
        var e := Escape(t);
        assert e == [t[0]] + rest;
        assert e[1..] == rest;
        if |t| > 1 {
          assert rest[0] == (if t[1] == '<' || t[1] == '>' then '&' else t[1]);
          assert t[..2] != "*/";
        }
      } else {
        var head := if t[0] == '<' then "&lt;" else if t[0] == '>' then "&gt;" else [t[0]];
        ContainsNoStar(head, rest);
      }
    }
  }

  /** Whitespace has no angle brackets to escape. */
  lemma {:induction false} EscapeSpaces(w: string)
    requires AllIn(w, Space)
    ensures Escape(w) == w
    decreases |w|
  {
    if w != [] {
      EscapeSpaces(w[1..]);
      assert w == [w[0]] + w[1..];
    }
  }

  /** Escaping the end of a block touches only the text before the whitespace run and the marker. */
  lemma {:induction false} EscapeClosing(t: string, w: string)
    requires AllIn(w, Space)
    ensures Escape(t + w + "*/ ") == Escape(t) + w + "*/ "
  {
    EscapeAppend(t + w, "*/ ");
    EscapeAppend(t, w);
    EscapeSpaces(w);
    EscapePlain("*/ ");
  }

  /**
   * The text a block saves: when the body is text, a whitespace run and the
   * end marker (the last line's " " after it), the directive holds the text
   * with `<` and `>` escaped and whitespace simplified, under the names the
   * simplified header gives.
   */
  lemma {:induction false} CloseBlockText(header: string, t: string, w: string, base: string)
    requires FirstMeta(Simplified(header)).Some?
    requires !HasBlockEnd(t) && (t == [] || !IsRegexSpace(t[|t| - 1])) && AllIn(w, Space)
    ensures var m := FirstMeta(Simplified(header)).value;
            Close(header, t + w + "*/ ", base)
            == [Directive(ResolvePackage(m.package), ResolveContainer(m.container, base), m.key, Simplified(Escape(t)))]
  {
    CloseBodyText(t, w);
    SimplifiedSnocSpace(Escape(t), ' ');
  }

  /** The body text once escaped and cut at the end marker: the escaped text and the last line's " ". */
  lemma {:induction false} CloseBodyText(t: string, w: string)
    requires !HasBlockEnd(t) && (t == [] || !IsRegexSpace(t[|t| - 1])) && AllIn(w, Space)
    ensures RemoveEnd(Escape(t + w + "*/ ")) == Escape(t) + " "
  {
    var e := Escape(t);
    EscapeClosing(t, w);
    EscapeNoEnd(t);
    if t != [] {
      EscapeLast(t);
    }
    RemoveEndClose(e, w, " ");
    assert RemoveEnd(" ") == " " by {
      assert " "[1..] == [];
    }
    assert "*/" + " " == "*/ ";
    AppendAssoc(e + w, "*/", " ");
    assert RemoveEnd(e + w + "*/ ") == e + " ";
  }

  lemma {:induction false} FileNameAfterSlash(dir: string, file: string)
    requires '/' !in file
    ensures FileName(dir + "/" + file) == file
    decreases |file|
  {
    var path := dir + "/" + file;
    if file == [] {
      assert path[|path| - 1] == '/';
    } else {
      var n := |file| - 1;
      assert path[..|path| - 1] == dir + "/" + file[..n];
      assert path[|path| - 1] == file[n] && file[n] != '/';
      FileNameAfterSlash(dir, file[..n]);
      assert FileName(path) == FileName(path[..|path| - 1]) + [file[n]];
      assert file[..n] + [file[n]] == file;
    }
  }

  lemma {:induction false} BeforeDotStops(name: string, ext: string)
    requires '.' !in name
    ensures BeforeDot(name + "." + ext) == name
    decreases |name|
  {
    if name != [] {
      assert (name + "." + ext)[1..] == name[1..] + "." + ext;
      BeforeDotStops(name[1..], ext);
      assert [name[0]] + name[1..] == name;
    }
  }

  /** The container `*` stands for: the file name after the last '/', up to its first '.'. */
  lemma {:induction false} BaseNameOfPath(dir: string, name: string, ext: string)
    requires '/' !in name && '.' !in name && '/' !in ext
    ensures BaseName(dir + "/" + name + "." + ext) == name
  {
    var file := name + "." + ext;
    assert '/' !in file by {
      forall i | 0 <= i < |file| ensures file[i] != '/' {
        if i < |name| { assert file[i] == name[i]; }
        else if i > |name| { assert file[i] == ext[i - |name| - 1]; }
      }
    }
    assert dir + "/" + name + "." + ext == dir + "/" + file;
    FileNameAfterSlash(dir, file);
    BeforeDotStops(name, ext);
  }
}
