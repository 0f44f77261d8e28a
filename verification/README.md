# a3trans translation catalog in Dafny

a3trans collects the localisable strings of an Arma 3 mod. It reads the
existing `stringtable.xml`, the translated XLIFF files and the translation
directives written as comments in the mod's scripts. It gathers everything in
a five-level catalog: Project, Package, Container, Key, Translation. It then
writes the catalog back as a stringtable or as XLIFF 1.2 / 2.0.

This project models that core and proves properties of the model.

- **Catalog tree** (module `Catalog`, module `Tree`). `Catalog` holds the value
  view: datatypes `ProjectV`, `PackageV`, `ContainerV`, `KeyV` and
  `TranslationV`, the `setTranslation`, `getTranslation` and
  `getAllTranslations` functions at every level, and the lemmas about them.
  `Tree` holds the five classes. Each class has its child list as a field and
  a ghost `model`. Its methods update the objects in place and are proved to
  move `model` exactly as the `Catalog` function does.
  - Lookup differs by level. Package and Container children are found by exact
    name. Translations are found by exact tag. Keys are found by an unanchored,
    case-insensitive match of the search term, which for a term without
    regular-expression metacharacters is a case-insensitive substring search.
- **Writers** (module `Export`). `toXml` and `toXliff` at every level build an
  abstract element tree (module `Dom`: elements, text and processing
  instructions). `None` stands for the empty document. `langCodeToString` is a
  fixed table of eleven codes.
- **Readers**. `StringtableParser::parse` (module `Stringtable`) builds the
  `Tree` objects from a document with its nested loops.
  `XliffParser::extract`, `extractV1` and `extractV2` (module `Xliff`) are
  specified by functions that read the units of a document. The parser methods
  are proved to apply those units to the project one `setTranslation` after
  the other.
- **Round trips** (`Stringtable.ParseRoundTrip`,
  `XliffRoundTrip.XliffRoundTrip`). Reading back what the writers wrote gives
  the catalog again. For the stringtable the catalog comes back unchanged. For
  XLIFF what comes back is the "Original" and target-language text of every
  exported key.
- **Script parser** (module `Script`, properties in `ScriptProps`).
  - The directive pass is a two-state line machine (`Step`, `Feed`), with the
    four fixed regular expressions coded by hand. The range `A-z` keeps its
    literal meaning and so also admits `[ \ ] ^ _` and the backquote.
  - Other pieces: token resolution, the carry-forward of known translations in
    `saveTranslation`, and the second pass that looks up every `str_…`
    identifier.
  - `Script.ScriptParser` holds the output and reference trees. Its methods
    are proved against the value functions `Saves`, `Lonely`, `LinePass` and
    `OrphanPass`.

Strings are `seq<char>`. Case-insensitive comparison folds ASCII letters only.

## Model

| member | source | states |
|---|---|---|
| Tree.Translation.constructor | src/translation.cpp:49-56 | a new translation carries the given tag and text |
| Tree.Translation.SetString | src/translation.cpp:67-70 | the text becomes the new string and the language tag is unchanged |
| Tree.Translation.String | src/translation.cpp:80-83 | returns the text held together with the object's tag, i.e. the last text given |
| Tree.TranslationsModel | src/key.cpp:111-114 | the values of a list of translation objects, one per object, in order |
| Tree.Key.constructor | src/key.cpp:48-55 | a new key has the given id and no translations |
| Tree.Key.Value | src/key.cpp:48-55 | reading the key's objects gives exactly its abstract value |
| Tree.Key.FindTranslation | src/key.cpp:96-99 | index of the first child whose tag equals the language exactly |
| Tree.Key.GetTranslation | src/key.cpp:96-99 | null exactly when no child has the tag; otherwise a child of the key holding the first such text |
| Tree.Key.GetAllTranslations | src/key.cpp:111-114 | the direct children in order, whose values are the key's translations |
| Tree.Key.SetTranslation | src/key.cpp:72-83 | the new value is `Catalog.KeySet` of the old one; only new objects are added |
| Tree.Key.UpdateAt | src/key.cpp:76-77 | sets the text of one child in place; every other child keeps its value |
| Tree.Key.RemoveAt | src/key.cpp:80-82 | deletes exactly one child; the others keep their order |
| Tree.Key.AddTranslation | src/key.cpp:78-79 | appends exactly one child with the tag and text |
| Tree.Key.AddTranslations | src/scriptparser.cpp:225-233 | appends a new copy of every given translation, in order, without deduplicating |
| Tree.Container.constructor | src/container.cpp:48-55 | a new container has the given name and no keys |
| Tree.Container.FindKey | src/container.cpp:72 | index of the first key whose id contains the term, ignoring case |
| Tree.Container.FindKeyExact | src/scriptparser.cpp:223 | index of the first key whose id equals the given id exactly |
| Tree.Container.GetTranslation | src/container.cpp:95-104 | null exactly when `Catalog.ContainerGet` is None; otherwise the translation it names |
| Tree.Container.GetAllTranslations | src/container.cpp:114-123 | the translations of the first matching key, or the empty list |
| Tree.Container.FindKeyLike | src/scriptparser.cpp:249 | the first key of the container whose id contains the term, with its package and container names |
| Tree.Container.SetTranslation | src/container.cpp:70-85 | the new value is `Catalog.ContainerSet` of the old one |
| Tree.Container.AddKey | src/container.cpp:76-77 | appends exactly one key, without translations, as the last child |
| Tree.Container.AttachKey | src/stringtableparser.cpp:125 | a key created under this container becomes its last child |
| Tree.Container.UpdateKey | src/container.cpp:82-84 | only the key at the index changes, by `Catalog.KeySet` |
| Tree.Container.AppendToKey | src/scriptparser.cpp:223-233 | `Catalog.ContainerAppend`: copies are appended to the first key with exactly that id |
| Tree.Container.ExtendKey | src/scriptparser.cpp:225-233 | only the key at the index changes, gaining the copies at its end |
| Tree.Package.constructor | src/package.cpp:51-58 | a new package has the given name and no containers |
| Tree.Package.FindContainer | src/package.cpp:79 | index of the first container with exactly this name |
| Tree.Package.GetTranslation | src/package.cpp:101-110 | null exactly when `Catalog.PackageGet` is None; otherwise the translation it names |
| Tree.Package.GetAllTranslations | src/package.cpp:122-131 | the translations on the path, or the empty list when the container is absent |
| Tree.Package.FindKeyLike | src/scriptparser.cpp:249 | the hit equals `Catalog.FindInContainers`: the first matching key, container by container, with its container's name |
| Tree.Package.SetTranslation | src/package.cpp:77-86 | the new value is `Catalog.PackageSet` of the old one |
| Tree.Package.AddContainer | src/package.cpp:81-82 | appends exactly one empty container |
| Tree.Package.AttachContainer | src/stringtableparser.cpp:112 | a container created under this package becomes its last child |
| Tree.Package.UpdateContainer | src/package.cpp:84-85 | only the container at the index changes, by `Catalog.ContainerSet` |
| Tree.Package.AppendAt | src/scriptparser.cpp:223-233 | `Catalog.PackageAppend`: copies are appended at the exact container name and key id |
| Tree.Package.ExtendContainer | src/scriptparser.cpp:223-233 | only the container at the index changes, by `Catalog.ContainerAppend` |
| Tree.Project.constructor | src/project.cpp:52-59 | a new project has the given name and no packages |
| Tree.Project.SetName | src/xliffparser.cpp:199 | renames the project and leaves its packages alone |
| Tree.Project.FindPackage | src/project.cpp:80 | index of the first package with exactly this name |
| Tree.Project.GetTranslation | src/project.cpp:102-111 | null exactly when `Catalog.ProjectGet` is None; otherwise the translation it names |
| Tree.Project.GetAllTranslations | src/project.cpp:125-134 | the translations on the path, or the empty list when the package is absent |
| Tree.Project.FindKeyLike | src/scriptparser.cpp:249 | the first key in pre-order whose id contains the term, equal to `Catalog.FindKeyRecursive` |
| Tree.Project.SetTranslation | src/project.cpp:78-87 | the new value is `Catalog.ProjectSet` of the old one |
| Tree.Project.AddPackage | src/project.cpp:82-83 | appends exactly one empty package |
| Tree.Project.AttachPackage | src/stringtableparser.cpp:99 | a package created under this project becomes its last child |
| Tree.Project.UpdatePackage | src/project.cpp:85-86 | only the package at the index changes, by `Catalog.PackageSet` |
| Tree.Project.AppendAt | src/scriptparser.cpp:223-233 | `Catalog.AppendAtExactPath`: copies are appended at the exact package, container and key names, or nothing changes |
| Tree.Project.ExtendPackage | src/scriptparser.cpp:223-233 | only the package at the index changes, by `Catalog.PackageAppend` |
| Catalog.LangIndex | src/key.cpp:74 | the position of the first translation with the tag, or the length when there is none |
| Catalog.KeyGet | src/key.cpp:96-99 | None exactly when no translation has the tag; otherwise the text of the first one that has it |
| Catalog.KeySetShape | src/key.cpp:72-83 | non-empty text on a present tag updates that translation in place (same count); on an absent tag it appends one; empty text removes the first translation with the tag; empty text on an absent tag changes nothing |
| Catalog.KeySetThenGet | src/key.cpp:72-99 | after setting non-empty text, getTranslation of that tag returns it |
| Catalog.KeySetKeepsOtherTags | src/key.cpp:72-83 | translations with other tags are untouched, every other tag reads the same, and the count changes by at most one |
| Catalog.KeySetEmptyDeletes | src/key.cpp:80-82 | empty text leaves no translation with the tag, when at most one had it |
| Catalog.KeyGetOtherTags | src/key.cpp:96-99 | removing every translation of one tag does not change the lookup of another |
| Catalog.KeyIndex | src/container.cpp:72 | the first key whose id contains the term, ignoring case; the length when none does |
| Catalog.ContainerSet | src/container.cpp:70-85 | the container keeps its name; its keys change as `ContainerSetShape` states |
| Catalog.ContainerGet | src/container.cpp:95-104 | None when no key matches |
| Catalog.ContainerGetAll | src/container.cpp:114-123 | the empty list when no key matches |
| Catalog.ContainerSetShape | src/container.cpp:70-85 | a key is appended only when none matches, and is appended even for empty text; otherwise only the first match changes |
| Catalog.ContainerSetThenGet | src/container.cpp:70-104 | a non-empty set through a container is found again by the same term |
| Catalog.ContainerIndex | src/package.cpp:79 | the first container with exactly the name, or the length |
| Catalog.PackageIndex | src/project.cpp:80 | the first package with exactly the name, or the length |
| Catalog.PackageSet | src/package.cpp:77-86 | the package keeps its name |
| Catalog.PackageSetShape | src/package.cpp:77-86 | the first container with the exact name is replaced in place by its `ContainerSet` and no other container changes; when no container has the name, one new container with that name and no keys is appended and then written |
| Catalog.PackageSetOtherContainer | src/package.cpp:77-110 | a set under one container name leaves every lookup under another container name as it was |
| Catalog.PackageGet | src/package.cpp:101-110 | None when no container has the exact name |
| Catalog.PackageGetAll | src/package.cpp:122-131 | the empty list when no container has the exact name |
| Catalog.PackageSetThenGet | src/package.cpp:77-110 | a non-empty set through a package is read back on the same path |
| Catalog.ProjectSet | src/project.cpp:78-87 | the project keeps its name |
| Catalog.ProjectSetShape | src/project.cpp:78-87 | the first package with the exact name is replaced in place by its `PackageSet` and no other package changes; when no package has the name, one new package with that name and no containers is appended and then written |
| Catalog.ProjectSetOtherPath | src/project.cpp:78-111 | a set under one package and container leaves every lookup under a different package or container name as it was |
| Catalog.ProjectGet | src/project.cpp:102-111 | None when no package has the exact name |
| Catalog.ProjectGetAll | src/project.cpp:125-134 | the empty list when no package has the exact name |
| Catalog.ProjectSetThenGet | src/project.cpp:78-111 | after setTranslation with non-empty text, getTranslation on the same path returns it |
| Catalog.ContainerSetOtherTag | src/container.cpp:70-104 | setting one tag leaves what every other tag reads on that key term |
| Catalog.PackageSetOtherTag | src/package.cpp:77-110 | setting one tag leaves what every other tag reads on that path |
| Catalog.ProjectSetOtherTag | src/project.cpp:78-111 | setting one tag leaves what every other tag reads on that path |
| Catalog.ContainerSetCount | src/container.cpp:72-80 | the number of keys grows by at most one and never shrinks |
| Catalog.PackageSetCount | src/package.cpp:79-85 | containers and keys each grow by at most one |
| Catalog.ProjectSetCreatesAtMostOne | src/project.cpp:80-86 | one call creates at most one package, one container and one key, and removes none |
| Catalog.KeyIdIndex | src/scriptparser.cpp:223 | the first key whose id equals the given id exactly, or the length |
| Catalog.FindInKeys | src/container.cpp:72 | None exactly when no key id contains the term; otherwise the first such key |
| Catalog.FindKeyRecursive | src/scriptparser.cpp:249 | None exactly when no key anywhere in the project contains the term |
| Catalog.FindInContainersFirst | src/scriptparser.cpp:249 | within one package, a hit is the first key, container by container and then key by key, whose id contains the term, reported with the package name and its container's name; that first key is always the hit |
| Catalog.FindInPackagesFirst | src/scriptparser.cpp:249 | across packages, a hit is the first matching key in pre-order (package, container, key) with its package and container names, and that first key is always the hit |
| Catalog.FindKeyRecursiveFirst | src/scriptparser.cpp:249-260 | `findChildren(…, FindChildrenRecursively).first()`: the key found is the pre-order first match, and the names reported are those of its own package and container |
| Catalog.FindInPackagesNone | src/scriptparser.cpp:249-251 | the package-by-package search misses exactly when no container holds a matching key |
| Catalog.FindKeyNoMeta | src/scriptparser.cpp:254-264 | the key found is one of the project's keys, so it inherits their freedom from metacharacters |
| Strings.ToLower | src/project.cpp:270 | same length, every character folded |
| Strings.Replace | src/xliffparser.cpp:204 | same length; every occurrence of the character is replaced, and nothing else changes |
| Strings.TrimLeft | src/project.cpp:220 | drops leading whitespace only: the result is a suffix that does not start with whitespace |
| Strings.SimplifiedNoSpace | src/key.cpp:185 | a string without whitespace is its own simplified form |
| Strings.NormalizeRoundTrip | src/xliffparser.cpp:204 | replacing `_` by space in the normalised id of a simplified name without `_` gives the name back |
| Strings.NormalizeNoSpace | src/key.cpp:185-186 | a key id without whitespace is written unchanged |
| Dom.DocumentElement | src/stringtableparser.cpp:75 | None exactly when no top-level node is an element; otherwise the node at a position before which no node is an element |
| Dom.AttrOf | src/stringtableparser.cpp:82 | the attribute's value, or the default when it is absent |
| Dom.ElementsByTag | src/stringtableparser.cpp:87 | every result is an element with the tag |
| Dom.FirstChild | src/xliffparser.cpp:165 | None exactly when no child is an element with the tag; otherwise the child at a position before which no child is such an element |
| Dom.ChildElements | src/xliffparser.cpp:192-231 | the sibling walk starts at firstChildElement and yields only elements with the tag |
| Dom.ChildElementsAppend | src/xliffparser.cpp:192-231 | the sibling walk over two node lists in a row gives the elements of the first, then those of the second |
| Dom.ChildElementsExact | src/xliffparser.cpp:192-231 | the walk never yields more than the children; it yields all of them when every child matches, and none when no child matches |
| Export.LangCodeTable | src/project.cpp:268-296 | a code gets a name iff it is one of the eleven supported codes, ignoring case; then it gets the name at that code's position, which is never "Original" |
| Export.LangNameNotOriginal | src/project.cpp:270-294 | no language name equals the reserved tag "Original" |
| Export.TranslationXml | src/translation.cpp:94-104 | an element named by the tag whose text is exactly the translation's text, also when it is empty |
| Export.TranslationsXml | src/key.cpp:143-148 | one element per translation, in order |
| Export.KeyXml | src/key.cpp:129-151 | nothing iff the key has no translations; what it writes reads back as the key (`Stringtable.KeyXmlRead`) |
| Export.KeysXmlAllWritten | src/container.cpp:134-156 | every key with a translation writes its element, one to one and in order |
| Export.ContainerXml | src/container.cpp:134-156 | nothing iff there are no keys; what it writes reads back as the container (`Stringtable.ContainerXmlRead`) |
| Export.PackageXml | src/package.cpp:144-166 | nothing iff there are no containers; what it writes reads back as the package (`Stringtable.PackageXmlRead`) |
| Export.ProjectXml | src/project.cpp:148-173 | the empty document iff there are no packages; what it writes parses back as the project (`Stringtable.ParseRoundTrip`) |
| Export.TranslationXliff | src/translation.cpp:113-129 | `source` exactly when the tag is "Original" (case-sensitive), `target` otherwise; the element holds the text |
| Export.KeyXliff | src/key.cpp:167-202 | nothing without an "Original"; otherwise `trans-unit` or `segment` with the normalised id, the source first, and a second child iff the language is non-empty and present |
| Export.KeysXliffCount | src/container.cpp:176-201 | the written key elements are at most one per key, and one per key when every key has an "Original" |
| Export.ContainerXliff | src/container.cpp:170-203 | nothing iff there are no keys; what it writes reads back as the container's exported units (`XliffRoundTrip.ContainerXliffRead`) |
| Export.PackageXliff | src/package.cpp:183-209 | nothing iff there are no containers; what it writes reads back as the package's exported units (`XliffRoundTrip.PackageXliffRead`) |
| Export.ProjectXliff | src/project.cpp:191-260 | the empty document iff there are no packages; otherwise the declaration and an `xliff` root in the 1.2 or 2.0 namespace holding one `file` |
| Stringtable.Collect | src/stringtableparser.cpp:95-147 | the values read from the accepted nodes; empty exactly when no node is accepted |
| Stringtable.ParseDocument | src/stringtableparser.cpp:58-156 | a project exactly when the root is a `Project` element with children and some `Package` descendant is kept; its name is the `name` attribute with default "My Project" |
| Stringtable.BuildKey | src/stringtableparser.cpp:120-140 | a key object exactly when the element has a non-empty ID and children, holding one translation per child |
| Stringtable.AddKeyFrom | src/stringtableparser.cpp:120-141 | one iteration of the key loop appends the key read from the element, if any |
| Stringtable.BuildContainer | src/stringtableparser.cpp:107-143 | a container object exactly when `ContainerOf` accepts the element, holding its keys |
| Stringtable.AddContainerFrom | src/stringtableparser.cpp:107-144 | one iteration of the container loop appends the container read, if any |
| Stringtable.BuildPackage | src/stringtableparser.cpp:95-146 | a package object exactly when `PackageOf` accepts the element, holding its containers |
| Stringtable.AddPackageFrom | src/stringtableparser.cpp:95-147 | one iteration of the package loop appends the package read, if any |
| Stringtable.Parse | src/stringtableparser.cpp:58-156 | returns a project object exactly when `ParseDocument` accepts the document, holding its value |
| Stringtable.KeyXmlRead | src/stringtableparser.cpp:120-140 | the reader takes back from a written Key element the key's id and every translation, in order |
| Stringtable.ContainerXmlRead | src/stringtableparser.cpp:107-143 | the reader takes back from a written Container element the container |
| Stringtable.PackageXmlRead | src/stringtableparser.cpp:95-146 | the reader takes back from a written Package element the package |
| Stringtable.KeysXmlRead | src/stringtableparser.cpp:120-141 | reading back the written Key elements gives the keys |
| Stringtable.ContainersXmlRead | src/stringtableparser.cpp:107-144 | reading back the written Container elements gives the containers |
| Stringtable.PackagesXmlRead | src/stringtableparser.cpp:95-147 | reading back the written Package elements gives the packages |
| Stringtable.ParseRoundTrip | src/stringtableparser.cpp:58-156 | parsing what `Project::toXml` wrote gives the same project, when every node has a translation, ids are non-empty and no tag is structural |
| Stringtable.EmptyProjectNotReadBack | src/project.cpp:150-155 | a project without packages is written as the empty document, which the reader rejects |
| Xliff.ProjectNameOf | src/xliffparser.cpp:178-184 | never empty: the default name for an empty id, else the id with `_` read as space |
| Xliff.SourceLangOf | src/xliffparser.cpp:186-190 | never empty: "en" when the attribute is missing |
| Xliff.ContainerUnits | src/xliffparser.cpp:209-228 | every unit belongs to the given package |
| Xliff.ExtractedV1 | src/xliffparser.cpp:163-233 | read iff the target language is non-empty and supported and `body` has a package `group`; the target tag is the language's name |
| Xliff.ExtractedV2 | src/xliffparser.cpp:243-313 | read iff the target language is non-empty and supported and `file` has a `group` descendant; the source language defaults to "en" |
| Xliff.Extracted | src/xliffparser.cpp:126-152 | read only when the root is a non-empty `xliff` element whose version starts with 1 or 2; the name, source language and target are then non-empty and the target is never "Original" |
| Xliff.ApplyUnits | src/xliffparser.cpp:224-225 | the units applied in document order keep the project name |
| Xliff.ImportInto | src/xliffparser.cpp:194-199 | a refused document leaves the project unchanged; an accepted one renames it |
| Xliff.ApplyUnitThenGet | src/xliffparser.cpp:224-225 | after a unit, its key reads the source as "Original" and the target in the target language, each when non-empty |
| Xliff.XliffParser.constructor | src/xliffparser.cpp:56-59 | the parser writes into the given project |
| Xliff.XliffParser.Extract | src/xliffparser.cpp:103-153 | the project becomes `ImportInto(old, Extracted(doc))` |
| Xliff.XliffParser.ExtractV1 | src/xliffparser.cpp:163-233 | the project becomes `ImportInto(old, ExtractedV1(root))` |
| Xliff.XliffParser.ExtractV2 | src/xliffparser.cpp:243-313 | the project becomes `ImportInto(old, ExtractedV2(root, trg, src))` |
| Xliff.XliffParser.ImportPackages | src/xliffparser.cpp:202-232 | the package loop applies the units of every package in turn |
| Xliff.XliffParser.ImportContainers | src/xliffparser.cpp:208-229 | the container loop applies the units of every container in turn |
| Xliff.XliffParser.ImportKeys | src/xliffparser.cpp:216-227 | the key loop applies one unit per key element |
| Xliff.XliffParser.ImportKey | src/xliffparser.cpp:218-225 | one key element: "Original" from the source, then the target language from the target |
| XliffRoundTrip.ExportedUnits | src/project.cpp:236-257 | what the writer emits, as units: empty exactly when no key has an "Original" |
| XliffRoundTrip.KeysXliffRead | src/xliffparser.cpp:217-226 | the reader takes from the written key elements exactly the id, source and target of every key with an "Original" |
| XliffRoundTrip.KeyXliffRead | src/xliffparser.cpp:217-226 | the reader takes from a written key element its id, its "Original" text and its target text |
| XliffRoundTrip.ContainerXliffRead | src/xliffparser.cpp:209-228 | a written container element reads back as the exported units of its keys, under its own name |
| XliffRoundTrip.PackageXliffRead | src/xliffparser.cpp:202-232 | a written package element reads back as the exported units of its containers, under its own name |
| XliffRoundTrip.ContainersXliffRead | src/xliffparser.cpp:209-228 | the written container elements read back under their own names |
| XliffRoundTrip.PackagesXliffRead | src/xliffparser.cpp:202-232 | the written package elements give exactly the exported units, in both versions |
| XliffRoundTrip.ExportedRoot | src/project.cpp:206-214 | the written root is a non-empty `xliff` with version "1.2" or "2.0"; in 2.0 it carries both languages |
| XliffRoundTrip.FileAttrsV1 | src/project.cpp:220-231 | the 1.2 `file` carries the normalised name and both languages |
| XliffRoundTrip.ExportThenExtract | src/xliffparser.cpp:103-313 | reading `Project::toXliff(code, src, v)` for a supported code is refused exactly when no package has a container; otherwise it gives the name, the source language, the target's name and the exported units |
| XliffRoundTrip.ProjectedKeyReads | src/xliffparser.cpp:224-225 | a re-imported key holds the exported "Original" and target text, each exactly when non-empty, and nothing else |
| XliffRoundTrip.ImportExported | src/xliffparser.cpp:199-232 | importing the exported units into a project without packages rebuilds the projection of every package, in order |
| XliffRoundTrip.XliffRoundTrip | src/xliffparser.cpp:103-313 | write then read into an empty project: refused iff no package has a container; otherwise the project's name and its exported keys, each with its "Original" and target text |
| Script.Span | src/scriptparser.cpp:86 | the greedy run of a character class: all inside, the next character outside |
| Script.Field | src/scriptparser.cpp:86 | a captured group is non-empty and inside its class |
| Script.Quoted | src/scriptparser.cpp:86 | the quoted text holds no double quote |
| Script.SingleAt | src/scriptparser.cpp:86 | a match of the single-line pattern captures non-empty package, container and key |
| Script.MetaAt | src/scriptparser.cpp:90 | a match of the header pattern captures three non-empty names |
| Script.Escape | src/scriptparser.cpp:140-141 | no `<` or `>` is left |
| Script.RemoveEnd | src/scriptparser.cpp:142 | removing the end marker never lengthens the text |
| Script.FileName | src/scriptparser.cpp:59 | the suffix after the last '/', holding no '/' |
| Script.BeforeDot | src/scriptparser.cpp:59 | the prefix up to the first '.', holding no '.' |
| Script.BaseName | src/scriptparser.cpp:59 | holds neither '/' nor '.' |
| Script.Close | src/scriptparser.cpp:138-169 | a closed block saves a directive iff its simplified header matches the header pattern, and then exactly one, under the resolved package and container and the key verbatim |
| Script.Step | src/scriptparser.cpp:97-171 | one line saves at most one directive |
| Script.Identifiers | src/scriptparser.cpp:178-190 | every match is `str_` followed by word characters |
| Script.Lonely | src/scriptparser.cpp:246-271 | a diagnostic (line, id) is emitted iff neither tree has a key containing the id, and then nothing changes; when the output already has such a key nothing changes either |
| Script.ScriptParser.constructor | src/scriptparser.cpp:56-60 | keeps both trees and derives the base name of the script file |
| Script.ScriptParser.SaveTranslation | src/scriptparser.cpp:209-237 | the output becomes `Save(old, st, d)`; the reference tree is unchanged |
| Script.ScriptParser.Carry | src/scriptparser.cpp:213-221 | the lookups in the reference tree give `CarryOf` |
| Script.Carried | src/scriptparser.cpp:225-233 | the values of the non-"Original" translations, in order |
| Script.ScriptParser.FindLonelyTranslation | src/scriptparser.cpp:246-271 | the output and the diagnostics are those of `Lonely` |
| Script.ScriptParser.CopyTranslations | src/scriptparser.cpp:262-266 | every translation of the found key is set in turn under its own path |
| Script.ScriptParser.Parse | src/scriptparser.cpp:71-192 | the directive pass, then the identifier pass from line 1; the diagnostics in order |
| Script.ScriptParser.SaveDirectives | src/scriptparser.cpp:97-171 | the line loop saves exactly the directives of the machine, in order |
| Script.ScriptParser.ParseLine | src/scriptparser.cpp:98-170 | one iteration: the next block state and the directive saved |
| Script.ScriptParser.SearchLines | src/scriptparser.cpp:181-191 | the second loop equals `OrphanPass` |
| Script.ScriptParser.SearchLine | src/scriptparser.cpp:186-190 | the identifiers of one line looked up in turn, equal to `LinePass` |
| ScriptProps.SaveSetsOriginal | src/scriptparser.cpp:211 | after a save with non-empty text, "Original" on the path reads back as the text |
| ScriptProps.Carried | src/scriptparser.cpp:217-233 | the carried translations never hold "Original", and are non-empty only when the carry applies |
| ScriptProps.SaveNewPackage | src/scriptparser.cpp:209-237 | for a new package, exactly one package, container and key are created: "Original" first, then the carried copies |
| ScriptProps.GetIsFirstOfAll | src/project.cpp:102-134 | getTranslation reads the tag's first translation among what getAllTranslations returns |
| ScriptProps.AppendKeepsGet | src/scriptparser.cpp:225-233 | appending copies that lack a tag changes no lookup of that tag, on any path |
| ScriptProps.CarryForwardRestores | src/scriptparser.cpp:213-233 | when the reference's "Original" matches, the new output key reads every other tag as the reference does |
| ScriptProps.CopyAllReadsBack | src/scriptparser.cpp:263-265 | copying translations with distinct tags and non-empty texts makes each read back on the path |
| ScriptProps.LonelyCopiesKey | src/scriptparser.cpp:249-266 | for an id absent from the output, when the pre-order first reference key containing it sits at package j, container m: every translation of that key reads back in the output under package j's name, container m's name and the key's own id, with no diagnostic |
| ScriptProps.LonelyDiagnostic | src/scriptparser.cpp:267-269 | the diagnostic, with nothing changed, iff neither tree has a key containing the id |
| ScriptProps.LinePassDiagnostics | src/scriptparser.cpp:186-190 | the diagnostics of a line carry its number and name its identifiers, at most one each |
| ScriptProps.OrphanDiagnostics | src/scriptparser.cpp:181-191 | lines are numbered from 1; every diagnostic names an identifier of its own line; diagnostics come in line order |
| ScriptProps.SingleLineRoundTrip | src/scriptparser.cpp:86 | the single-line pattern reads back the four parts of a canonical directive |
| ScriptProps.MetaRoundTrip | src/scriptparser.cpp:90 | the header pattern reads back the three names of a canonical header |
| ScriptProps.SingleLineStep | src/scriptparser.cpp:100-121 | outside a block a directive saves its text under the resolved package and container, with the key verbatim |
| ScriptProps.NoBlockLines | src/scriptparser.cpp:97-171 | without block openers the machine stays idle and saves exactly the single-line directives |
| ScriptProps.StepInBlock | src/scriptparser.cpp:130-138 | inside a block every line is added to the body with one space; the first line with the end marker closes it |
| ScriptProps.StepOpens | src/scriptparser.cpp:126-133 | the opening line becomes the header and is not part of the body |
| ScriptProps.BlockCollects | src/scriptparser.cpp:130-135 | while the block is open, every line is collected, single-line directives included |
| ScriptProps.BlockCloses | src/scriptparser.cpp:138-169 | a block yields what closing its header and joined body yields, then the machine is idle |
| ScriptProps.OneLineBlock | src/scriptparser.cpp:126-164 | a header that closes on its own line saves empty text |
| ScriptProps.RemoveEndKeeps | src/scriptparser.cpp:142 | text without the end marker passes the removal unchanged |
| ScriptProps.RemoveEndClose | src/scriptparser.cpp:142 | text free of the end marker and not ending in whitespace, then whitespace and the marker: the removal gives back the text, followed by whatever follows the marker |
| ScriptProps.EscapeAppend | src/scriptparser.cpp:140-141 | escaping distributes over concatenation |
| ScriptProps.EscapeChar | src/scriptparser.cpp:140-141 | `<` becomes `&lt;`, `>` becomes `&gt;`, every other character stays |
| ScriptProps.EscapePlain | src/scriptparser.cpp:140-141 | text without angle brackets is unchanged |
| ScriptProps.EscapeNoEnd | src/scriptparser.cpp:140-142 | escaping never creates an end marker |
| ScriptProps.CloseBodyText | src/scriptparser.cpp:138-142 | a body made of text, whitespace, the marker and the line's trailing space: escaping and removal give the escaped text and one space |
| ScriptProps.CloseBlockText | src/scriptparser.cpp:138-169 | such a block saves exactly one directive, whose text is the escaped body text simplified, under the names of the simplified header |
| ScriptProps.BaseNameOfPath | src/scriptparser.cpp:59 | the container `*` stands for is the file name after the last '/', up to its first '.' |

## Left out

- File and directory I/O are not modelled. This covers opening files, `QTextStream`, `in.seek(0)`, the `l10n/strings_<code>.xlf` scan of `XliffParser::parse`, the file name held by `StringtableParser`, and everything in `FileWriter`. The parsers take a document or a sequence of lines instead.
- XML text parsing and serialisation (`setContent`, escaping, indentation) are not modelled. Documents are values of the `Dom` datatype.
- Logging (`qDebug`, `qWarning`, `qCritical`, `qFatal`) is not modelled. Orphan identifiers are returned as (line, id) diagnostics instead.
- `main.cpp` is not part of this model. It can pass a null reference tree to the script parser. The model requires a reference tree, and requires it to share no object with the output tree; `main.cpp` always passes two distinct projects.
- Qt ownership is not modelled: deletion, parent pointers, `qobject_cast`. One consequence: when the exact-name lookup at `src/scriptparser.cpp:223` fails, the source creates translations with a null parent. The model appends nothing in that case, which is what the tree shows.
- Regular-expression matching in general is not modelled, and case folding covers ASCII only. Key lookups in the catalog require search terms without metacharacters. The script parser therefore requires every directive key, and every key id of the reference tree, to be free of metacharacters. Every member whose `requires` mentions `NoMeta` or a predicate built on it (`ContainersNoMeta`, `PackagesNoMeta`, `KeyIdsNoMeta`, `KeysNoMeta`, `MetaFree`) carries that extra requirement; the source builds a regular expression from any key, and the model covers only keys for which that is a substring search. Among the operations these are `Catalog.ContainerSet`, `PackageSet` and `ProjectSet`, the `SetTranslation`, `GetTranslation` and `GetAllTranslations` methods of `Tree.Container`, `Tree.Package` and `Tree.Project`, `Tree.Project.FindKeyLike`, `Script.ScriptParser.SaveTranslation`, `FindLonelyTranslation` and `Parse` (where `[`, `]`, `\`, `^` and `*` pass the `A-z` class and would change the lookup), and `Xliff.XliffParser.Extract`.
- Unicode whitespace in `QString::simplified` covers the ASCII controls, space, NEL, NBSP and the Unicode space separators. The regular-expression `\s` covers ASCII whitespace only.
- A null element and a null attribute are treated like empty ones. Qt's `findChild` with a null name matches any child; the model does not distinguish null from empty names.
- `Key::getTranslation` returns a pointer that the caller may later change. The model returns the translation's value, so aliasing through that pointer is not captured.
- XliffRoundTrip.XliffRoundTrip: stated only for names without `_` and without leading, trailing or doubled whitespace, for key ids without whitespace, and for key ids none of which contains a sibling's id ignoring case. For other catalogs the reader merges or renames nodes.

## Differences from the documented behaviour

- The XLIFF reader replaces `_` by a space in package and container ids (`src/xliffparser.cpp:204`, `212`, `285`, `294`). The model follows the code.
- Package and container lookups are exact and case-sensitive; key lookups are case-insensitive substring searches. The model follows the code in both.
- `StringtableParser::parse` creates nodes first and deletes those left empty. The model builds each node and attaches it only when it is kept. The resulting tree is the same.
