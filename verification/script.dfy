/**
 * The script extractor. A script is read line by line: `// TR` comments and
 * TR blocks (a block comment opened by slash-star TR) name a package, a container and a key and give the
 * "Original" text, which is written to the output tree; when the reference
 * tree (the current stringtable) already holds that text, its other
 * translations are carried forward. A second pass looks up every `str_…`
 * identifier, copies a key the output lacks from the reference tree, and
 * reports the identifiers found in neither.
 *
 * The fixed regular expressions are written out as scanners over
 * `seq<char>`; each scanner takes the leftmost match with the greedy runs
 * the patterns call for.
 */
module Script {
  import opened Wrappers
  import opened Seqs
  import opened Strings
  import opened Catalog
  import opened Tree

  // ---------------------------------------------------------------------
  // Character classes of the patterns

  datatype Class = Space | Token | KeyChar | Word | NotQuote

  /**
   * `\s`; `[a-zA-z0-9_\*]`; `[a-zA-z0-9_]`; `[a-zA-Z0-9_]`; `[^"]`. The range
   * `A-z` runs from 'A' to 'z' and so also admits `[ \ ] ^ _` and the backquote.
   */
  predicate InClass(c: char, cls: Class)
  {
    match cls
    case Space => IsRegexSpace(c)
    case Token => ('A' <= c <= 'z') || ('0' <= c <= '9') || c == '*'
    case KeyChar => ('A' <= c <= 'z') || ('0' <= c <= '9')
    case Word => ('a' <= c <= 'z') || ('A' <= c <= 'Z') || ('0' <= c <= '9') || c == '_'
    case NotQuote => c != '"'
  }

  /** The length of the longest prefix of `s` inside the class: what a greedy run takes. */
  function Span(s: string, cls: Class): (n: nat)
    ensures n <= |s|
    ensures forall i :: 0 <= i < n ==> InClass(s[i], cls)
    ensures n < |s| ==> !InClass(s[n], cls)
  {
    if s == [] || !InClass(s[0], cls) then 0
    else
      var n := 1 + Span(s[1..], cls);
      assert forall i :: 1 <= i < n ==> s[i] == s[1..][i - 1];
      n
  }

  /** What a greedy run of the class takes from the front of `s`. */
  function Lead(s: string, cls: Class): string
  {
    s[..Span(s, cls)]
  }

  /** What is left after a greedy run of the class. */
  function Skip(s: string, cls: Class): string
  {
    s[Span(s, cls)..]
  }

  // ---------------------------------------------------------------------
  // The directive patterns

  /** The four groups of a single-line directive. */
  datatype Captures = Captures(package: string, container: string, key: string, text: string)

  /** The three groups of a block header. */
  datatype Meta = Meta(package: string, container: string, key: string)

  predicate AllIn(s: string, cls: Class)
  {
    forall i :: 0 <= i < |s| ==> InClass(s[i], cls)
  }

  /** The opener (`//` or the block opener), `\s*` and `TR` at the front of `s`: what follows them. */
  function Keyword(s: string, opener: string): (r: Option<string>)
    requires |opener| == 2
    ensures r.Some? ==> |r.value| < |s|
  {
    if !StartsWith(s, opener) then None
    else
      var a := Skip(s[2..], Space);
      if StartsWith(a, "TR") then Some(a[2..]) else None
  }

  /** `\s+(C+)` at the front of `s`, for the class C: the group and what follows it. */
  function Field(s: string, cls: Class): (r: Option<(string, string)>)
    ensures r.Some? ==> r.value.0 != [] && AllIn(r.value.0, cls)
  {
    var g := Skip(s, Space);
    if Span(s, Space) == 0 || Span(g, cls) == 0 then None
    else Some((Lead(g, cls), Skip(g, cls)))
  }

  /** `\s+"([^"]*)"` at the front of `s`: the quoted text. */
  function Quoted(s: string): (r: Option<string>)
    ensures r.Some? ==> '"' !in r.value
  {
    var g := Skip(s, Space);
    if Span(s, Space) == 0 || !StartsWith(g, "\"") then None
    else
      var q := g[1..];
      var t := Span(q, NotQuote);
      if t == |q| then None else Some(q[..t])
  }

  /** `//\s*TR\s+([a-zA-z0-9_\*]+)\s+([a-zA-z0-9_\*]+)\s+([a-zA-z0-9_]+)\s+"([^"]*)"`, anchored at the front of `s`. */
  function SingleAt(s: string): (r: Option<Captures>)
    ensures r.Some? ==> r.value.package != [] && r.value.container != [] && r.value.key != []
  {
    match Keyword(s, "//")
    case None => None
    case Some(b) =>
      match Field(b, Token)
      case None => None
      case Some(f1) =>
        match Field(f1.1, Token)
        case None => None
        case Some(f2) =>
          match Field(f2.1, KeyChar)
          case None => None
          case Some(f3) =>
            match Quoted(f3.1)
            case None => None
            case Some(text) => Some(Captures(f1.0, f2.0, f3.0, text))
  }

  /** QRegularExpression::match of the single-line pattern: the leftmost position where it matches. */
  function FirstSingle(s: string): Option<Captures>
    decreases |s|
  {
    if SingleAt(s).Some? then SingleAt(s)
    else if s == [] then None
    else FirstSingle(s[1..])
  }

  // The block header pattern: the block opener, `\s*TR`, then three `\s+([a-zA-z0-9_\*]+)` groups;
  // anchored at the front of `s`.
  function MetaAt(s: string): (r: Option<Meta>)
    ensures r.Some? ==> r.value.package != [] && r.value.container != [] && r.value.key != []
  {
    match Keyword(s, "/*")
    case None => None
    case Some(b) =>
      match Field(b, Token)
      case None => None
      case Some(f1) =>
        match Field(f1.1, Token)
        case None => None
        case Some(f2) =>
          match Field(f2.1, Token)
          case None => None
          case Some(f3) => Some(Meta(f1.0, f2.0, f3.0))
  }

  /** The leftmost match of the header pattern. */
  function FirstMeta(s: string): Option<Meta>
    decreases |s|
  {
    if MetaAt(s).Some? then MetaAt(s)
    else if s == [] then None
    else FirstMeta(s[1..])
  }

  // The block start pattern (the block opener, `\s*TR`) at the front of `s`.
  predicate BlockStartAt(s: string)
  {
    Keyword(s, "/*").Some?
  }

  // The block start pattern somewhere in `s`.
  predicate HasBlockStart(s: string)
    decreases |s|
  {
    BlockStartAt(s) || (s != [] && HasBlockStart(s[1..]))
  }

  // The block end pattern (`\s*`, then star-slash) somewhere in `s`: the whitespace may be
  // empty, so this is an occurrence of the two characters.
  predicate HasBlockEnd(s: string)
  {
    Contains(s, "*/")
  }

  // ---------------------------------------------------------------------
  // Turning the block body into text

  /** `<` to `&lt;`, then `>` to `&gt;`. */
  function Escape(s: string): (r: string)
    ensures forall i :: 0 <= i < |r| ==> r[i] != '<' && r[i] != '>'
    ensures |s| <= |r|
  {
    if s == [] then []
    else
      var head := if s[0] == '<' then "&lt;" else if s[0] == '>' then "&gt;" else [s[0]];
      var rest := Escape(s[1..]);
      assert forall i :: |head| <= i < |head + rest| ==> (head + rest)[i] == rest[i - |head|];
      head + rest
  }

  /**
   * QString::remove with the block end pattern: scanning from the left,
   * every star-slash pair is removed together with the whitespace run right
   * before it; the scan resumes after the removed text.
   */
  function RemoveEnd(s: string): (r: string)
    ensures |r| <= |s|
    decreases |s|
  {
    if s == [] then []
    else
      var w := Span(s, Space);
      if StartsWith(s[w..], "*/") then RemoveEnd(s[w + 2..])
      else [s[0]] + RemoveEnd(s[1..])
  }

  // ---------------------------------------------------------------------
  // Names

  /** The package named by a token: `*` is the package "Main", otherwise `_` stands for a space. */
  const MAIN_PACKAGE: string := "Main"

  function ResolvePackage(token: string): string
  {
    if token == "*" then MAIN_PACKAGE else Replace(token, '_', ' ')
  }

  /** The container named by a token: `*` is the script's base name, otherwise `_` stands for a space. */
  function ResolveContainer(token: string, base: string): string
  {
    if token == "*" then base else Replace(token, '_', ' ')
  }

  /** The file name: what follows the last '/'. */
  function FileName(path: string): (r: string)
    ensures '/' !in r
    ensures |r| <= |path| && r == path[|path| - |r|..]
    decreases |path|
  {
    if path == [] || path[|path| - 1] == '/' then []
    else
      var r := FileName(path[..|path| - 1]) + [path[|path| - 1]];
      assert path[..|path| - 1][|path| - |r|..] + [path[|path| - 1]] == path[|path| - |r|..];
      r
  }

  /** Everything before the first '.'. */
  function BeforeDot(s: string): (r: string)
    ensures '.' !in r
    ensures |r| <= |s| && r == s[..|r|]
    ensures |r| < |s| ==> s[|r|] == '.'
  {
    if s == [] || s[0] == '.' then [] else [s[0]] + BeforeDot(s[1..])
  }

  /** QFileInfo::baseName: the file name up to its first '.'. */
  function BaseName(path: string): (r: string)
    ensures '/' !in r && '.' !in r
  {
    BeforeDot(FileName(path))
  }

  // ---------------------------------------------------------------------
  // The line machine

  /** One translation to save: package, container, key and "Original" text. */
  datatype Directive = Directive(package: string, container: string, key: string, text: string)

  /** multiLineStarted, multiLineHeader and the multiLine buffer. */
  datatype Block = Block(started: bool, header: string, body: string)

  const IDLE: Block := Block(false, "", "")

  /** A closed block: the body escaped, stripped of every block end and simplified; a directive only when the simplified header matches. */
  function Close(header: string, body: string, base: string): (r: seq<Directive>)
    ensures |r| <= 1
    ensures |r| == 1 <==> FirstMeta(Simplified(header)).Some?
    ensures r != [] ==> var m := FirstMeta(Simplified(header)).value;
                        && r[0].package == ResolvePackage(m.package)
                        && r[0].container == ResolveContainer(m.container, base)
                        && r[0].key == m.key
  {
    var text := Simplified(RemoveEnd(Escape(body)));
    match FirstMeta(Simplified(header))
    case None => []
    case Some(m) => [Directive(ResolvePackage(m.package), ResolveContainer(m.container, base), m.key, text)]
  }

  /** One iteration of the line loop of ScriptParser::parse: the new state and the directive saved, if any. */
  function Step(b: Block, line: string, base: string): (r: (Block, seq<Directive>))
    ensures |r.1| <= 1
  {
    var single := FirstSingle(line);
    if single.Some? && !b.started then
      var c := single.value;
      (b, [Directive(ResolvePackage(c.package), ResolveContainer(c.container, base), c.key, c.text)])
    else
      var started := b.started || HasBlockStart(line);
      var header := if started && b.header == "" then line else b.header;
      var body := if started && b.header != "" then b.body + line + " " else b.body;
      if started && HasBlockEnd(line) then (IDLE, Close(header, body, base))
      else (Block(started, header, body), [])
  }

  /** The line loop over `lines`, from state `b`: the final state and the directives in order. */
  function Feed(b: Block, lines: seq<string>, base: string): (Block, seq<Directive>)
    decreases |lines|
  {
    if lines == [] then (b, [])
    else
      var prev := Feed(b, lines[..|lines| - 1], base);
      var next := Step(prev.0, lines[|lines| - 1], base);
      (next.0, prev.1 + next.1)
  }

  /** Every directive of a script, in order. */
  function Directives(lines: seq<string>, base: string): seq<Directive>
  {
    Feed(IDLE, lines, base).1
  }

  predicate KeysNoMeta(ds: seq<Directive>)
  {
    forall i :: 0 <= i < |ds| ==> NoMeta(ds[i].key)
  }

  // ---------------------------------------------------------------------
  // Saving

  /**
   * The carry-forward of ScriptParser::saveTranslation: when the reference
   * holds an "Original" for the path equal to the text ignoring case, and
   * the key has translations, its translations other than "Original".
   */
  function CarryOf(st: ProjectV, d: Directive): Option<seq<TranslationV>>
    requires NoMeta(d.key)
  {
    var saved := ProjectGet(st, d.package, d.container, d.key, ORIGINAL);
    var tl := ProjectGetAll(st, d.package, d.container, d.key);
    if saved.Some? && EqualsIgnoreCase(saved.value, d.text) && tl != [] then Some(OtherTags(tl, ORIGINAL))
    else None
  }

  /**
   * ScriptParser::saveTranslation on the values: "Original" is set in the
   * output, then the carried translations are appended to the output key
   * with exactly that path.
   */
  function Save(sp: ProjectV, st: ProjectV, d: Directive): ProjectV
    requires NoMeta(d.key)
  {
    var out := ProjectSet(sp, d.package, d.container, d.key, ORIGINAL, d.text);
    match CarryOf(st, d)
    case None => out
    case Some(ts) => AppendAtExactPath(out, d.package, d.container, d.key, ts)
  }

  /** The directives saved one after the other. */
  function Saves(sp: ProjectV, st: ProjectV, ds: seq<Directive>): ProjectV
    requires KeysNoMeta(ds)
    decreases |ds|
  {
    if ds == [] then sp else Save(Saves(sp, st, ds[..|ds| - 1]), st, ds[|ds| - 1])
  }

  // ---------------------------------------------------------------------
  // The identifier pass

  /** A lookup that found nothing: the line number and the identifier. */
  datatype Diagnostic = Diagnostic(line: nat, id: string)

  /** `str_` in any letter case at the front of `s`. */
  predicate StrPrefix(s: string)
  {
    |s| >= 4 && Lower(s[0]) == 's' && Lower(s[1]) == 't' && Lower(s[2]) == 'r' && s[3] == '_'
  }

  /** A match of `str_[a-zA-Z0-9_]+`, ignoring case. */
  predicate IsIdentifier(w: string)
  {
    |w| > 4 && StrPrefix(w) && forall i :: 0 <= i < |w| ==> InClass(w[i], Word)
  }

  /** The non-overlapping matches of `(str_[a-zA-Z0-9_]+)`, case-insensitive, from left to right. */
  function Identifiers(s: string): (r: seq<string>)
    ensures forall i :: 0 <= i < |r| ==> IsIdentifier(r[i])
    decreases |s|
  {
    if s == [] then []
    else if StrPrefix(s) && Span(s[4..], Word) > 0 then
      var n := 4 + Span(s[4..], Word);
      assert forall i :: 4 <= i < n ==> s[i] == s[4..][i - 4];
      [s[..n]] + Identifiers(s[n..])
    else Identifiers(s[1..])
  }

  lemma {:induction false} IdentifierNoMeta(w: string)
    requires IsIdentifier(w)
    ensures NoMeta(w)
  {
    forall i | 0 <= i < |w| ensures w[i] !in "\\^$.|?*+()[]{}" {
      assert InClass(w[i], Word);
    }
  }

  /** Every translation of `ts` set in turn under one path. */
  function CopyAll(p: ProjectV, package: string, container: string, key: string, ts: seq<TranslationV>): ProjectV
    requires NoMeta(key)
    decreases |ts|
  {
    if ts == [] then p
    else ProjectSet(CopyAll(p, package, container, key, ts[..|ts| - 1]), package, container, key, ts[|ts| - 1].lang, ts[|ts| - 1].text)
  }

  lemma {:induction false} CopyAllSnoc(p: ProjectV, package: string, container: string, key: string, ts: seq<TranslationV>, i: nat)
    requires NoMeta(key) && i < |ts|
    ensures CopyAll(p, package, container, key, ts[..i + 1])
            == ProjectSet(CopyAll(p, package, container, key, ts[..i]), package, container, key, ts[i].lang, ts[i].text)
  {
    assert ts[..i + 1][..i] == ts[..i];
  }

  /** No key id anywhere in the tree contains `term`, ignoring case. */
  predicate NoKeyLike(p: ProjectV, term: string)
  {
    forall j, m, l :: 0 <= j < |p.packages| && 0 <= m < |p.packages[j].containers|
                      && 0 <= l < |p.packages[j].containers[m].keys|
                      ==> !ContainsIgnoreCase(p.packages[j].containers[m].keys[l].id, term)
  }

  /**
   * ScriptParser::findLonelyTranslation on the values: nothing when the
   * output has a key like the identifier; otherwise a copy of every
   * translation of the reference's first such key, under that key's own
   * package, container and id; a diagnostic when neither tree has one.
   */
  function Lonely(sp: ProjectV, st: ProjectV, id: string, n: nat): (r: (ProjectV, seq<Diagnostic>))
    requires NoMeta(id) && KeyIdsNoMeta(st)
    ensures r.1 == [] || r.1 == [Diagnostic(n, id)]
    ensures r.1 != [] <==> NoKeyLike(sp, id) && NoKeyLike(st, id)
    ensures r.1 != [] ==> r.0 == sp
    ensures !NoKeyLike(sp, id) ==> r == (sp, [])
  {
    if FindKeyRecursive(sp, id).Some? then (sp, [])
    else
      var hit := FindKeyRecursive(st, id);
      if hit.None? then (sp, [Diagnostic(n, id)])
      else
        FindKeyNoMeta(st, id);
        (CopyAll(sp, hit.value.package, hit.value.container, hit.value.key.id, hit.value.key.translations), [])
  }

  /** Every identifier of one line looked up in turn. */
  function LinePass(sp: ProjectV, st: ProjectV, ids: seq<string>, n: nat): (ProjectV, seq<Diagnostic>)
    requires forall i :: 0 <= i < |ids| ==> NoMeta(ids[i])
    requires KeyIdsNoMeta(st)
    decreases |ids|
  {
    if ids == [] then (sp, [])
    else
      var prev := LinePass(sp, st, ids[..|ids| - 1], n);
      var last := Lonely(prev.0, st, ids[|ids| - 1], n);
      (last.0, prev.1 + last.1)
  }

  /** The second pass over the whole script; lines are numbered from 1. */
  function OrphanPass(sp: ProjectV, st: ProjectV, lines: seq<string>): (ProjectV, seq<Diagnostic>)
    requires KeyIdsNoMeta(st)
    decreases |lines|
  {
    if lines == [] then (sp, [])
    else
      var prev := OrphanPass(sp, st, lines[..|lines| - 1]);
      var ids := Identifiers(lines[|lines| - 1]);
      IdentifiersNoMeta(ids);
      var line := LinePass(prev.0, st, ids, |lines|);
      (line.0, prev.1 + line.1)
  }

  lemma {:induction false} IdentifiersNoMeta(ids: seq<string>)
    requires forall i :: 0 <= i < |ids| ==> IsIdentifier(ids[i])
    ensures forall i :: 0 <= i < |ids| ==> NoMeta(ids[i])
  {
    forall i | 0 <= i < |ids| ensures NoMeta(ids[i]) {
      IdentifierNoMeta(ids[i]);
    }
  }

  // ---------------------------------------------------------------------
  // The parser object

  /** The values of the translations of `tl` other than "Original", in order. */
  method Carried(tl: seq<Translation>) returns (carried: seq<TranslationV>)
    ensures carried == OtherTags(TranslationsModel(tl), ORIGINAL)
  {
    carried := [];
    var i := 0;
    while i < |tl|
      invariant 0 <= i <= |tl|
      invariant carried == OtherTags(TranslationsModel(tl[..i]), ORIGINAL)
    {
      assert TranslationsModel(tl[..i + 1]) == TranslationsModel(tl[..i]) + [tl[i].Model()];
      OtherTagsAppend(TranslationsModel(tl[..i]), [tl[i].Model()], ORIGINAL);
      if tl[i].lang != ORIGINAL {
        carried := carried + [tl[i].Model()];
      }
      i := i + 1;
    }
    assert tl[..|tl|] == tl;
  }

  class ScriptParser {
    /** The reference tree (the current stringtable) and the output tree. */
    const st: Project
    const sp: Project
    const baseName: string

    /** The container name `*` stands for is the base name of the script file. */
    constructor (scriptFile: string, stringTable: Project, scriptProject: Project)
      ensures st == stringTable && sp == scriptProject && baseName == BaseName(scriptFile)
    {
      st := stringTable;
      sp := scriptProject;
      baseName := BaseName(scriptFile);
    }

    /** Both trees are well formed and share no object. */
    ghost predicate Ready()
      reads st, sp, st.Repr, sp.Repr
    {
      st.Valid() && sp.Valid() && st.Repr !! sp.Repr
    }

    method SaveTranslation(package: string, container: string, key: string, text: string)
      requires Ready() && NoMeta(key)
      modifies sp.Repr
      ensures Ready() && fresh(sp.Repr - old(sp.Repr)) && st.model == old(st.model)
      ensures sp.model == Save(old(sp.model), st.model, Directive(package, container, key, text))
    {
      sp.SetTranslation(package, container, key, ORIGINAL, text);
      assert Ready();
      var carry := Carry(package, container, key, text);
      assert Ready();
      if carry.Some? {
        sp.AppendAt(package, container, key, carry.value);
      }
    }

    /** The lookups in the reference tree that saveTranslation makes. */
    method Carry(package: string, container: string, key: string, text: string) returns (r: Option<seq<TranslationV>>)
      requires st.Valid() && NoMeta(key)
      ensures r == CarryOf(st.model, Directive(package, container, key, text))
    {
      r := None;
      var saved := st.GetTranslation(package, container, key, ORIGINAL);
      if saved.Some? && EqualsIgnoreCase(saved.value.String(), text) {
        var tl := st.GetAllTranslations(package, container, key);
        if tl != [] {
          var carried := Carried(tl);
          r := Some(carried);
        }
      }
    }

    method FindLonelyTranslation(key: string, lineNumber: nat) returns (diagnostic: seq<Diagnostic>)
      requires Ready() && NoMeta(key) && KeyIdsNoMeta(st.model)
      modifies sp.Repr
      ensures Ready() && fresh(sp.Repr - old(sp.Repr)) && st.model == old(st.model)
      ensures (sp.model, diagnostic) == Lonely(old(sp.model), st.model, key, lineNumber)
    {
      diagnostic := [];
      var found := sp.FindKeyLike(key);
      assert Ready();
      if found.None? {
        var known := st.FindKeyLike(key);
        assert Ready();
        if known.Some? {
          FindKeyNoMeta(st.model, key);
          CopyTranslations(known.value);
        } else {
          diagnostic := [Diagnostic(lineNumber, key)];
        }
      }
    }

    /** Every translation of a key found in the reference, set in the output under the same path. */
    method CopyTranslations(hit: KeyHit)
      requires Ready() && NoMeta(hit.key.id)
      modifies sp.Repr
      ensures Ready() && fresh(sp.Repr - old(sp.Repr)) && st.model == old(st.model)
      ensures sp.model == CopyAll(old(sp.model), hit.package, hit.container, hit.key.id, hit.key.translations)
    {
      var ts := hit.key.translations;
      ghost var start := sp.model;
      var i := 0;
      while i < |ts|
        invariant 0 <= i <= |ts|
        invariant Ready() && fresh(sp.Repr - old(sp.Repr)) && st.model == old(st.model)
        invariant sp.model == CopyAll(start, hit.package, hit.container, hit.key.id, ts[..i])
      {
        CopyAllSnoc(start, hit.package, hit.container, hit.key.id, ts, i);
        sp.SetTranslation(hit.package, hit.container, hit.key.id, ts[i].lang, ts[i].text);
        assert Ready();
        i := i + 1;
      }
      assert ts[..|ts|] == ts;
    }


    /**
     * ScriptParser::parse over the lines of the script: the directive pass,
     * then the identifier pass; the diagnostics are returned in order.
     */
    method Parse(lines: seq<string>) returns (diagnostics: seq<Diagnostic>)
      requires Ready() && KeysNoMeta(Directives(lines, baseName)) && KeyIdsNoMeta(st.model)
      modifies sp.Repr
      ensures Ready() && fresh(sp.Repr - old(sp.Repr)) && st.model == old(st.model)
      ensures var saved := Saves(old(sp.model), st.model, Directives(lines, baseName));
              (sp.model, diagnostics) == OrphanPass(saved, st.model, lines)
    {
      SaveDirectives(lines);
      assert Ready();
      diagnostics := SearchLines(lines);
    }

    /** The directive pass: the line loop with its block state. */
    method SaveDirectives(lines: seq<string>)
      requires Ready() && KeysNoMeta(Directives(lines, baseName))
      modifies sp.Repr
      ensures Ready() && fresh(sp.Repr - old(sp.Repr)) && st.model == old(st.model)
      ensures sp.model == Saves(old(sp.model), st.model, Directives(lines, baseName))
    {
      var block := IDLE;
      var i := 0;
      while i < |lines|
        invariant 0 <= i <= |lines|
        invariant Ready() && fresh(sp.Repr - old(sp.Repr)) && st.model == old(st.model)
        invariant Feed(IDLE, lines[..i], baseName).0 == block
        invariant KeysNoMeta(Feed(IDLE, lines[..i], baseName).1)
        invariant sp.model == Saves(old(sp.model), st.model, Feed(IDLE, lines[..i], baseName).1)
      {
        ghost var ds := Feed(IDLE, lines[..i], baseName).1;
        ghost var before := block;
        FeedStepKeys(lines, i, baseName);
        block := ParseLine(block, lines[i]);
        assert Ready() && fresh(sp.Repr - old(sp.Repr));
        SavesStep(old(sp.model), st.model, ds, Step(before, lines[i], baseName).1);
        i := i + 1;
      }
      assert lines[..|lines|] == lines;
    }

    /** One iteration of the line loop: a single-line directive is saved, or the block state advances. */
    method ParseLine(b: Block, line: string) returns (next: Block)
      requires Ready() && KeysNoMeta(Step(b, line, baseName).1)
      modifies sp.Repr
      ensures Ready() && fresh(sp.Repr - old(sp.Repr)) && st.model == old(st.model)
      ensures next == Step(b, line, baseName).0
      ensures sp.model == Saves(old(sp.model), st.model, Step(b, line, baseName).1)
    {
      ghost var step := Step(b, line, baseName);
      var started, header, body := b.started, b.header, b.body;
      var single := FirstSingle(line);
      if single.Some? && !started {
        var c := single.value;
        assert step.1 == [Directive(ResolvePackage(c.package), ResolveContainer(c.container, baseName), c.key, c.text)];
        assert NoMeta(step.1[0].key);
        SaveTranslation(ResolvePackage(c.package), ResolveContainer(c.container, baseName), c.key, c.text);
        return b;
      }
      if HasBlockStart(line) {
        started := true;
      }
      if started {
        if header == "" {
          header := line;
        } else {
          body := body + line + " ";
        }
      }
      if started && HasBlockEnd(line) {
        assert step == (IDLE, Close(header, body, baseName));
        var text := Simplified(RemoveEnd(Escape(body)));
        var meta := FirstMeta(Simplified(header));
        if meta.Some? {
          var m := meta.value;
          assert step.1 == [Directive(ResolvePackage(m.package), ResolveContainer(m.container, baseName), m.key, text)];
          assert NoMeta(step.1[0].key);
          SaveTranslation(ResolvePackage(m.package), ResolveContainer(m.container, baseName), m.key, text);
        }
        return IDLE;
      }
      assert step == (Block(started, header, body), []);
      return Block(started, header, body);
    }

    /** The identifier pass: every line's identifiers, lines numbered from 1. */
    method SearchLines(lines: seq<string>) returns (diagnostics: seq<Diagnostic>)
      requires Ready() && KeyIdsNoMeta(st.model)
      modifies sp.Repr
      ensures Ready() && fresh(sp.Repr - old(sp.Repr)) && st.model == old(st.model)
      ensures (sp.model, diagnostics) == OrphanPass(old(sp.model), st.model, lines)
    {
      diagnostics := [];
      var n := 0;
      while n < |lines|
        invariant 0 <= n <= |lines|
        invariant Ready() && fresh(sp.Repr - old(sp.Repr)) && st.model == old(st.model)
        invariant (sp.model, diagnostics) == OrphanPass(old(sp.model), st.model, lines[..n])
      {
        assert lines[..n + 1][..n] == lines[..n];
        var ids := Identifiers(lines[n]);
        IdentifiersNoMeta(ids);
        var found := SearchLine(ids, n + 1);
        assert Ready();
        diagnostics := diagnostics + found;
        n := n + 1;
      }
      assert lines[..|lines|] == lines;
    }

    /** The identifiers of one line looked up in turn. */
    method SearchLine(ids: seq<string>, n: nat) returns (found: seq<Diagnostic>)
      requires Ready() && KeyIdsNoMeta(st.model)
      requires forall i :: 0 <= i < |ids| ==> NoMeta(ids[i])
      modifies sp.Repr
      ensures Ready() && fresh(sp.Repr - old(sp.Repr)) && st.model == old(st.model)
      ensures (sp.model, found) == LinePass(old(sp.model), st.model, ids, n)
    {
      found := [];
      var j := 0;
      while j < |ids|
        invariant 0 <= j <= |ids|
        invariant Ready() && fresh(sp.Repr - old(sp.Repr)) && st.model == old(st.model)
        invariant (sp.model, found) == LinePass(old(sp.model), st.model, ids[..j], n)
      {
        assert ids[..j + 1][..j] == ids[..j];
        var d := FindLonelyTranslation(ids[j], n);
        assert Ready();
        found := found + d;
        j := j + 1;
      }
      assert ids[..|ids|] == ids;
    }
  }

  /** The directives of the first lines are a prefix of those of the whole script. */
  lemma {:induction false} FeedPrefix(lines: seq<string>, i: nat, base: string)
    requires i <= |lines|
    ensures Feed(IDLE, lines[..i], base).1 <= Feed(IDLE, lines, base).1
    decreases |lines| - i
  {
    if i == |lines| {
      assert lines[..i] == lines;
    } else {
      FeedPrefix(lines, i + 1, base);
      FeedSnoc(lines, i, base);
    }
  }

  /** One more line is one more step of the machine. */
  lemma {:induction false} FeedSnoc(lines: seq<string>, i: nat, base: string)
    requires i < |lines|
    ensures var prev := Feed(IDLE, lines[..i], base);
            var step := Step(prev.0, lines[i], base);
            Feed(IDLE, lines[..i + 1], base) == (step.0, prev.1 + step.1)
  {
    assert lines[..i + 1][..i] == lines[..i];
  }

  lemma {:induction false} FeedKeys(lines: seq<string>, i: nat, base: string)
    requires i <= |lines| && KeysNoMeta(Directives(lines, base))
    ensures KeysNoMeta(Feed(IDLE, lines[..i], base).1)
  {
    FeedPrefix(lines, i, base);
  }

  /** The directive of the next line is among those of the script. */
  lemma {:induction false} FeedStepKeys(lines: seq<string>, i: nat, base: string)
    requires i < |lines| && KeysNoMeta(Directives(lines, base))
    ensures var prev := Feed(IDLE, lines[..i], base);
            var step := Step(prev.0, lines[i], base);
            && Feed(IDLE, lines[..i + 1], base) == (step.0, prev.1 + step.1)
            && KeysNoMeta(prev.1) && KeysNoMeta(step.1)
  {
    var prev := Feed(IDLE, lines[..i], base);
    var step := Step(prev.0, lines[i], base);
    FeedSnoc(lines, i, base);
    FeedKeys(lines, i + 1, base);
    KeysNoMetaSplit(prev.1, step.1);
  }

  lemma {:induction false} KeysNoMetaSplit(ds: seq<Directive>, es: seq<Directive>)
    requires KeysNoMeta(ds + es)
    ensures KeysNoMeta(ds) && KeysNoMeta(es)
  {
    assert forall k :: 0 <= k < |ds| ==> ds[k] == (ds + es)[k];
    assert forall k :: 0 <= k < |es| ==> es[k] == (ds + es)[|ds| + k];
  }

  /** Saving the directives of one more line, of which there is at most one. */
  lemma {:induction false} SavesStep(sp: ProjectV, st: ProjectV, ds: seq<Directive>, es: seq<Directive>)
    requires |es| <= 1 && KeysNoMeta(ds + es)
    ensures KeysNoMeta(ds) && KeysNoMeta(es)
    ensures Saves(sp, st, ds + es) == Saves(Saves(sp, st, ds), st, es)
  {
    assert forall i :: 0 <= i < |ds| ==> ds[i] == (ds + es)[i];
    assert forall i :: 0 <= i < |es| ==> es[i] == (ds + es)[|ds| + i];
    if es == [] {
      assert ds + es == ds;
    } else {
      assert (ds + es)[..|ds|] == ds;
      assert es[..0] == [];
    }
  }
}
