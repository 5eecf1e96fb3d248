/** `scripts/generate_index.py`: builds the `index.json` document the web client reads. The records come
    from the metadata store when it can be read (mode "database"); otherwise every XML file under
    `blueprints/` is parsed instead (mode "filesystem_fallback").

    The filesystem is `onDisk` (`os.path.exists(p)` is `p in onDisk`) and `docs` holds the parsed XML
    documents (a path without an entry is one that `ET.parse` rejects). */
module IndexGenerator {
  import opened Wrappers
  import opened Seqs
  import opened Strings
  import opened Paths
  import opened Json
  import opened Xml

  const IndexVersion := "1.2"
  const CleanupMarker := ".cleanup"

  // ---------------------------------------------------------------------------------------------
  // parse_size

  /** `size_str.replace('(', '').replace(')', '')`. */
  function CleanSize(s: string): string {
    RemoveChar(RemoveChar(s, '('), ')')
  }

  /** `parse_size`: the first two comma-separated parts as integers, `(0, 0)` when anything raises.
      `None` is an element without text, on which `.replace` raises. */
  function ParseSize(sizeText: Option<string>): (r: (int, int))
    ensures sizeText.None? ==> r == (0, 0)
    ensures sizeText.Some? && ',' !in sizeText.value ==> r == (0, 0)
  {
    if sizeText.None? then (0, 0)
    else
      var parts := Split(CleanSize(sizeText.value), ',');
      if |parts| < 2 then (0, 0)
      else match (ParseInt(parts[0]), ParseInt(parts[1]))
        case (Some(w), Some(h)) => (w, h)
        case _ => (0, 0)
  }

  lemma CleanSizeAppend(a: string, b: string)
    ensures CleanSize(a + b) == CleanSize(a) + CleanSize(b)
  {
    RemoveCharAppend(a, b, '(');
    RemoveCharAppend(RemoveChar(a, '('), RemoveChar(b, '('), ')');
  }

  lemma CleanSizePlain(a: string)
    requires '(' !in a && ')' !in a
    ensures CleanSize(a) == a
  {
    RemoveAbsentChar(a, '(');
    RemoveAbsentChar(a, ')');
  }

  /** Text without parentheses passes through unchanged. */
  lemma CleanSizePlainAppend(a: string, b: string)
    requires '(' !in a && ')' !in a
    ensures CleanSize(a + b) == a + CleanSize(b)
  {
    CleanSizeAppend(a, b);
    CleanSizePlain(a);
  }

  /** The parentheses themselves vanish. */
  lemma CleanSizeParens()
    ensures CleanSize("(") == "" && CleanSize(")") == ""
  {
  }

  /** Wrapping a text in parentheses does not change its cleaned form. */
  lemma CleanSizeWrapped(x: string)
    ensures CleanSize("(" + x + ")") == CleanSize(x)
  {
    CleanSizeAppend("(" + x, ")");
    CleanSizeAppend("(", x);
    CleanSizeParens();
  }

  /** Texts without parentheses pass through unchanged, whatever follows them. */
  lemma CleanSizePlainTriple(ws: string, c: string, hs: string, tail: string)
    requires '(' !in ws && ')' !in ws && '(' !in c && ')' !in c && '(' !in hs && ')' !in hs
    ensures CleanSize(ws + c + hs + tail) == ws + c + hs + CleanSize(tail)
  {
    Reassociate(ws, c, hs, tail);
    CleanSizePlainAppend(ws, c + (hs + tail));
    CleanSizePlainAppend(c, hs + tail);
    CleanSizePlainAppend(hs, tail);
    Reassociate(ws, c, hs, CleanSize(tail));
  }

  /** The text of `(w,h...)` with parentheses removed. */
  lemma CleanSizeOfPair(w: int, h: int, tail: string)
    ensures CleanSize("(" + IntToString(w) + "," + IntToString(h) + tail + ")")
            == IntToString(w) + "," + IntToString(h) + CleanSize(tail)
  {
    var ws, hs := IntToString(w), IntToString(h);
    IntToStringPlain(w);
    IntToStringPlain(h);
    var x := ws + "," + hs + tail;
    assert "(" + ws + "," + hs + tail + ")" == "(" + x + ")";
    CleanSizeWrapped(x);
    CleanSizePlainTriple(ws, ",", hs, tail);
  }

  /** The first two parts of `a,b` followed by nothing or by further comma-separated parts. */
  lemma SplitPair(a: string, b: string, c: string)
    requires ',' !in a && ',' !in b
    requires c == "" || c[0] == ','
    ensures var parts := Split(a + "," + b + c, ',');
            |parts| >= 2 && parts[0] == a && parts[1] == b
  {
    assert "," == [','];
    SplitPairAt(a, b, c, ',');
  }

  /** The first two parts of `a + [sep] + b` followed by nothing or by further parts. */
  lemma SplitPairAt(a: string, b: string, c: string, sep: char)
    requires sep !in a && sep !in b
    requires c == [] || c[0] == sep
    ensures var parts := Split(a + [sep] + b + c, sep);
            |parts| >= 2 && parts[0] == a && parts[1] == b
  {
    assert a + [sep] + b + c == a + [sep] + (b + c);
    SplitAtFirst(a, b + c, sep);
    if c == [] {
      assert b + c == b;
    } else {
      SplitLeadingPart(b, c, sep);
    }
  }

  /** A separator-free part followed by further separator-led text is the first part. */
  lemma SplitLeadingPart(b: string, c: string, sep: char)
    requires sep !in b && c != [] && c[0] == sep
    ensures var parts := Split(b + c, sep); |parts| >= 2 && parts[0] == b
  {
    assert b + c == b + [sep] + c[1..];
    SplitAtFirst(b, c[1..], sep);
  }

  /** A size text that cleans to `w,h` followed by nothing or by further comma-separated parts. */
  lemma ParseSizeOfCleanPair(s: string, w: int, h: int, c: string)
    requires CleanSize(s) == IntToString(w) + "," + IntToString(h) + c
    requires c == "" || c[0] == ','
    ensures ParseSize(Some(s)) == (w, h)
  {
    IntToStringPlain(w);
    IntToStringPlain(h);
    SplitPair(IntToString(w), IntToString(h), c);
    ParseIntToString(w);
    ParseIntToString(h);
  }

  /** `parse_size("(w,h)") == (w, h)` for all integers. */
  lemma ParseSizeRoundTrip(w: int, h: int)
    ensures ParseSize(Some("(" + IntToString(w) + "," + IntToString(h) + ")")) == (w, h)
  {
    var ws, hs := IntToString(w), IntToString(h);
    CleanSizeOfPair(w, h, "");
    assert "(" + ws + "," + hs + "" + ")" == "(" + ws + "," + hs + ")";
    assert CleanSize("") == "";
    ParseSizeOfCleanPair("(" + ws + "," + hs + ")", w, h, "");
  }

  /** Parts after the second comma are ignored: `parse_size("(w,h,rest)") == (w, h)`. */
  lemma ParseSizeIgnoresExtraParts(w: int, h: int, rest: string)
    ensures ParseSize(Some("(" + IntToString(w) + "," + IntToString(h) + "," + rest + ")")) == (w, h)
  {
    var ws, hs := IntToString(w), IntToString(h);
    var tail := "," + rest;
    CleanSizeOfPair(w, h, tail);
    assert "(" + ws + "," + hs + "," + rest + ")" == "(" + ws + "," + hs + tail + ")";
    CleanSizeAppend(",", rest);
    assert CleanSize(",") == ",";
    ParseSizeOfCleanPair("(" + ws + "," + hs + tail + ")", w, h, CleanSize(tail));
  }

  /** A first part that `int()` rejects gives `(0, 0)`, whatever follows. */
  lemma ParseSizeRejectsNonInteger(a: string, b: string)
    requires '(' !in a && ')' !in a && ',' !in a
    requires ParseInt(a).None?
    ensures ParseSize(Some(a + "," + b)) == (0, 0)
  {
    CleanSizeAppend(a + ",", b);
    CleanSizeAppend(a, ",");
    CleanSizePlain(a);
    assert CleanSize(",") == ",";
    assert a + "," + CleanSize(b) == a + [','] + CleanSize(b);
    SplitAtFirst(a, CleanSize(b), ',');
  }

  /** A second part that `int()` rejects also gives `(0, 0)`. */
  lemma ParseSizeRejectsNonIntegerHeight(w: int, b: string)
    requires '(' !in b && ')' !in b && ',' !in b
    requires ParseInt(b).None?
    ensures ParseSize(Some(IntToString(w) + "," + b)) == (0, 0)
  {
    IntToStringPlain(w);
    CleanSizePlain(IntToString(w) + "," + b);
    SplitPair(IntToString(w), b, "");
    assert IntToString(w) + "," + b + "" == IntToString(w) + "," + b;
  }

  // ---------------------------------------------------------------------------------------------
  // parse_full_xml_metadata

  /** `get_text(node, tag, default)`: the child's text (`None` when it has none), or the default when
      there is no such child. */
  function GetText(node: Element, tag: string, default: string): Option<string> {
    match Find(node, tag)
    case None => Some(default)
    case Some(child) => child.text
  }

  /** The `packageId` text of one `mod` element, when it is there and not empty. */
  function PackageId(m: Element): (r: Option<string>)
    ensures r.Some? ==> r.value != ""
  {
    match Find(m, "packageId")
    case Some(p) => if p.text.Some? && p.text.value != "" then p.text else None
    case None => None
  }

  /** The mod ids of a `modPackages` element's `mod` children. */
  function ModIds(mods: seq<Element>): (r: seq<string>)
    ensures |r| <= |mods|
    ensures forall x :: x in r ==> x != ""
    ensures forall x :: x in r <==> exists m :: m in mods && PackageId(m) == Some(x)
    decreases |mods|
  {
    if |mods| == 0 then []
    else
      var init := mods[..|mods| - 1];
      var last := mods[|mods| - 1];
      assert forall m :: m in mods <==> m in init || m == last;
      ModIds(init) + (if PackageId(last).Some? then [PackageId(last).value] else [])
  }

  /** The ids keep the document order of the `mod` elements. */
  lemma {:induction false} ModIdsAppend(a: seq<Element>, b: seq<Element>)
    ensures ModIds(a + b) == ModIds(a) + ModIds(b)
    decreases |b|
  {
    if |b| == 0 {
      assert a + b == a;
    } else {
      var b' := b[..|b| - 1];
      assert (a + b)[..|a + b| - 1] == a + b';
      assert (a + b)[|a + b| - 1] == b[|b| - 1];
      ModIdsAppend(a, b');
    }
  }

  /** What `parse_full_xml_metadata` returns; `name` to `tags` are `None` where the child element exists
      but has no text (JSON `null` in the index). */
  datatype Metadata = Metadata(id: string, name: Option<string>, author: Option<string>, category: Option<string>,
                               version: Option<string>, tags: Option<string>, width: int, height: int,
                               mods: seq<string>, likes: int, dislikes: int, downloads: int)

  /** The id: the `BuildingID` text, or the file name without extension when that is missing or empty. */
  function MetadataId(extra: Element, path: string): string {
    var t := GetText(extra, "BuildingID", "");
    if t.Some? && t.value != "" then t.value else NameStem(Basename(path))
  }

  /** The mods of an `extraInfo` element: none without `modPackages`. */
  function ExtraMods(extra: Element): seq<string> {
    match Find(extra, "modPackages")
    case None => []
    case Some(pkgs) => ModIds(FindAll(pkgs, "mod"))
  }

  /** The size of a document: `(0, 0)` without a `size` element. */
  function RootSize(root: Element): (int, int) {
    match Find(root, "size")
    case None => (0, 0)
    case Some(node) => ParseSize(node.text)
  }

  /** The metadata of an `extraInfo` element of the document at `path`. */
  function ExtraMetadata(root: Element, extra: Element, path: string): Metadata {
    var size := RootSize(root);
    Metadata(MetadataId(extra, path), GetText(extra, "name", "Unnamed"), GetText(extra, "author", "Unknown"),
             GetText(extra, "category", "Custom"), GetText(extra, "version", "1.0"), GetText(extra, "tags", ""),
             size.0, size.1, ExtraMods(extra), 0, 0, 0)
  }

  /** `parse_full_xml_metadata(file_path)`: `None` when the file does not exist, does not parse, or its
      root has no `extraInfo`; the statistics are always zero. */
  function XmlMetadata(onDisk: set<string>, docs: map<string, Element>, path: string): (r: Option<Metadata>)
    ensures r.None? <==> path !in onDisk || path !in docs || Find(docs[path], "extraInfo").None?
    ensures r.Some? ==> r.value.likes == 0 && r.value.dislikes == 0 && r.value.downloads == 0
    ensures r.Some? ==> forall x :: x in r.value.mods ==> x != ""
  {
    if path !in onDisk || path !in docs then None
    else
      match Find(docs[path], "extraInfo")
      case None => None
      case Some(extra) => Some(ExtraMetadata(docs[path], extra, path))
  }

  /** An `extraInfo` without any of the children the script reads gets every default, and a document
      without `size` gets the size `(0, 0)`. */
  lemma MetadataDefaults(onDisk: set<string>, docs: map<string, Element>, path: string)
    requires path in onDisk && path in docs
    requires Find(docs[path], "extraInfo").Some? && Find(docs[path], "size").None?
    requires Find(docs[path], "extraInfo").value.children == []
    ensures XmlMetadata(onDisk, docs, path)
            == Some(Metadata(NameStem(Basename(path)), Some("Unnamed"), Some("Unknown"), Some("Custom"), Some("1.0"),
                             Some(""), 0, 0, [], 0, 0, 0))
  {
  }

  /** Each default applies child by child: a missing child gets its default, a present one its text
      (`None` when it has none); the size is `(0, 0)` without a `size` element and parsed otherwise. */
  lemma MetadataFields(onDisk: set<string>, docs: map<string, Element>, path: string)
    requires XmlMetadata(onDisk, docs, path).Some?
    ensures var root := docs[path];
            var extra := Find(root, "extraInfo").value;
            var m := XmlMetadata(onDisk, docs, path).value;
            && (Find(extra, "name").None? ==> m.name == Some("Unnamed"))
            && (Find(extra, "name").Some? ==> m.name == Find(extra, "name").value.text)
            && (Find(extra, "author").None? ==> m.author == Some("Unknown"))
            && (Find(extra, "author").Some? ==> m.author == Find(extra, "author").value.text)
            && (Find(extra, "category").None? ==> m.category == Some("Custom"))
            && (Find(extra, "category").Some? ==> m.category == Find(extra, "category").value.text)
            && (Find(extra, "version").None? ==> m.version == Some("1.0"))
            && (Find(extra, "version").Some? ==> m.version == Find(extra, "version").value.text)
            && (Find(extra, "tags").None? ==> m.tags == Some(""))
            && (Find(extra, "tags").Some? ==> m.tags == Find(extra, "tags").value.text)
            && (Find(root, "size").None? ==> (m.width, m.height) == (0, 0))
            && (Find(root, "size").Some? ==> (m.width, m.height) == ParseSize(Find(root, "size").value.text))
  {
  }

  /** The id is the `BuildingID` text when that is non-empty; otherwise the file's stem. */
  lemma MetadataIdFallback(onDisk: set<string>, docs: map<string, Element>, path: string)
    requires XmlMetadata(onDisk, docs, path).Some?
    ensures var extra := Find(docs[path], "extraInfo").value;
            var b := Find(extra, "BuildingID");
            var id := XmlMetadata(onDisk, docs, path).value.id;
            && (b.Some? && b.value.text.Some? && b.value.text.value != "" ==> id == b.value.text.value)
            && (b.None? || b.value.text.None? || b.value.text.value == "" ==> id == NameStem(Basename(path)))
  {
  }

  /** `parse_full_xml_metadata`, with its loop over the `mod` elements. */
  method ParseFullXmlMetadata(onDisk: set<string>, docs: map<string, Element>, path: string) returns (r: Option<Metadata>)
    ensures r == XmlMetadata(onDisk, docs, path)
  {
    if path !in onDisk || path !in docs {
      return None;
    }
    var root := docs[path];
    var extraInfo := Find(root, "extraInfo");
    if extraInfo.None? {
      return None;
    }
    var extra := extraInfo.value;
    var id := GetText(extra, "BuildingID", "");
    var bpId := if id.Some? && id.value != "" then id.value else NameStem(Basename(path));
    var width, height := 0, 0;
    var sizeNode := Find(root, "size");
    if sizeNode.Some? {
      width, height := ParseSize(sizeNode.value.text).0, ParseSize(sizeNode.value.text).1;
    }
    var mods: seq<string> := [];
    var modPackages := Find(extra, "modPackages");
    if modPackages.Some? {
      mods := CollectModIds(FindAll(modPackages.value, "mod"));
    }
    r := Some(Metadata(bpId, GetText(extra, "name", "Unnamed"), GetText(extra, "author", "Unknown"),
                       GetText(extra, "category", "Custom"), GetText(extra, "version", "1.0"),
                       GetText(extra, "tags", ""), width, height, mods, 0, 0, 0));
  }

  /** The loop of `parse_full_xml_metadata` over the `mod` elements of `modPackages`. */
  method CollectModIds(all: seq<Element>) returns (mods: seq<string>)
    ensures mods == ModIds(all)
  {
    mods := [];
    for i := 0 to |all|
      invariant mods == ModIds(all[..i])
    {
      assert all[..i + 1][..i] == all[..i];
      var pkgId := Find(all[i], "packageId");
      if pkgId.Some? && pkgId.value.text.Some? && pkgId.value.text.value != "" {
        mods := mods + [pkgId.value.text.value];
      }
    }
    assert all[..|all|] == all;
  }

  // ---------------------------------------------------------------------------------------------
  // Index entries

  /** `parse_full_xml_metadata` as the record loop and the fallback call it: a function of the path. */
  type MetadataOf = string -> Option<Metadata>

  function MetadataReader(onDisk: set<string>, docs: map<string, Element>): MetadataOf {
    p => XmlMetadata(onDisk, docs, p)
  }

  /** One element of the index's `blueprints` list, under its JSON keys `id`, `n`, `a`, `sid`, `c`, `v`,
      `t`, `w`, `h`, `m`, `p`, `s_l`, `s_d`, `s_dl` and `dt`. `steamId` is `None` where the entry has no
      `sid` key at all (the fallback); `Some(Null)` is an explicit `null`. */
  datatype Entry = Entry(id: Value, name: Value, author: Value, steamId: Option<Value>, category: Value,
                         version: Value, tags: Value, width: Value, height: Value, mods: seq<string>,
                         path: string, likes: Value, dislikes: Value, downloads: Value, created: Value)

  function OptionalText(t: Option<string>): Value {
    if t.Some? then Str(t.value) else Null
  }

  /** The entry the fallback makes of one file `f`, stamped with the time `now`: the metadata, the path with
      backslashes turned into slashes, and no `sid`. */
  function FallbackEntry(m: Metadata, f: string, now: string): (e: Entry)
    ensures '\\' !in e.path && |e.path| == |f|
    ensures forall i :: 0 <= i < |f| && f[i] != '\\' ==> e.path[i] == f[i]
    ensures e.steamId.None? && e.likes == Int(m.likes) && e.dislikes == Int(m.dislikes) && e.downloads == Int(m.downloads)
    ensures e.id == Str(m.id) && e.mods == m.mods && e.width == Int(m.width) && e.height == Int(m.height) && e.created == Str(now)
  {
    Entry(Str(m.id), OptionalText(m.name), OptionalText(m.author), None, OptionalText(m.category),
          OptionalText(m.version), OptionalText(m.tags), Int(m.width), Int(m.height), m.mods,
          ReplaceChar(f, '\\', '/'), Int(m.likes), Int(m.dislikes), Int(m.downloads), Str(now))
  }

  /** The entries of the files `files` whose metadata can be read, in order. */
  function FallbackEntries(metadataOf: MetadataOf, files: seq<string>, now: string): (r: seq<Entry>)
    ensures |r| <= |files|
    ensures forall e :: e in r ==> '\\' !in e.path && e.steamId.None?
    decreases |files|
  {
    if |files| == 0 then []
    else
      var rest := FallbackEntries(metadataOf, files[..|files| - 1], now);
      var f := files[|files| - 1];
      match metadataOf(f)
      case None => rest
      case Some(m) => rest + [FallbackEntry(m, f, now)]
  }

  /** One more file adds its entry when its metadata can be read. */
  lemma FallbackEntriesStep(metadataOf: MetadataOf, files: seq<string>, i: nat, now: string)
    requires i < |files|
    ensures var rest := FallbackEntries(metadataOf, files[..i], now);
            FallbackEntries(metadataOf, files[..i + 1], now)
            == if metadataOf(files[i]).Some? then rest + [FallbackEntry(metadataOf(files[i]).value, files[i], now)] else rest
  {
    assert files[..i + 1][..i] == files[..i];
  }

  /** Paths of the recursive glob that the fallback keeps: those not under `.cleanup`. */
  predicate Scanned(f: string) {
    !Contains(f, CleanupMarker)
  }

  /** `scan_filesystem_fallback`: one entry for each globbed XML path outside `.cleanup` that parses. */
  function FallbackScan(onDisk: set<string>, docs: map<string, Element>, globbed: seq<string>, now: string): (r: seq<Entry>)
    ensures |r| <= |globbed|
    ensures forall e :: e in r ==> '\\' !in e.path
  {
    FallbackEntries(MetadataReader(onDisk, docs), Filter(globbed, Scanned), now)
  }

  /** Every fallback entry comes from one of the files, with backslashes turned into slashes, and its
      statistics are those of the metadata read from that file. */
  lemma {:induction false} FallbackEntrySources(metadataOf: MetadataOf, files: seq<string>, now: string)
    ensures forall e :: e in FallbackEntries(metadataOf, files, now) ==>
              exists f :: f in files && metadataOf(f).Some? && e == FallbackEntry(metadataOf(f).value, f, now)
    decreases |files|
  {
    if |files| > 0 {
      var init := files[..|files| - 1];
      FallbackEntrySources(metadataOf, init, now);
      assert forall f :: f in init ==> f in files;
    }
  }

  /** The fallback never lists a path under `.cleanup`, and all its statistics are zero. */
  lemma FallbackSkipsQuarantine(onDisk: set<string>, docs: map<string, Element>, globbed: seq<string>, now: string)
    ensures forall e :: e in FallbackScan(onDisk, docs, globbed, now) ==>
              && (exists f :: f in globbed && !Contains(f, CleanupMarker) && e.path == ReplaceChar(f, '\\', '/'))
              && e.likes == Int(0) && e.dislikes == Int(0) && e.downloads == Int(0)
  {
    var metadataOf := MetadataReader(onDisk, docs);
    var files := Filter(globbed, Scanned);
    FallbackEntrySources(metadataOf, files, now);
    forall e | e in FallbackScan(onDisk, docs, globbed, now)
      ensures && (exists f :: f in globbed && !Contains(f, CleanupMarker) && e.path == ReplaceChar(f, '\\', '/'))
              && e.likes == Int(0) && e.dislikes == Int(0) && e.downloads == Int(0)
    {
      var f :| f in files && metadataOf(f).Some? && e == FallbackEntry(metadataOf(f).value, f, now);
      assert XmlMetadata(onDisk, docs, f).Some?;
    }
  }

  /** `scan_filesystem_fallback`, with its loop. */
  method ScanFilesystemFallback(onDisk: set<string>, docs: map<string, Element>, globbed: seq<string>, now: string)
    returns (blueprints: seq<Entry>)
    ensures blueprints == FallbackScan(onDisk, docs, globbed, now)
  {
    var files := Filter(globbed, Scanned);
    ghost var metadataOf := MetadataReader(onDisk, docs);
    blueprints := [];
    for i := 0 to |files|
      invariant blueprints == FallbackEntries(metadataOf, files[..i], now)
    {
      FallbackEntriesStep(metadataOf, files, i, now);
      var data := ParseFullXmlMetadata(onDisk, docs, files[i]);
      assert data == metadataOf(files[i]);
      if data.Some? {
        blueprints := blueprints + [FallbackEntry(data.value, files[i], now)];
      }
    }
    assert files[..|files|] == files;
  }

  // ---------------------------------------------------------------------------------------------
  // fetch_from_database and the record loop of main

  /** `fetch_from_database`: the records, or `None` where it raises (missing credentials, no response or a
      timeout, a status other than 200, a body that is not a list of records). */
  function FetchFromDatabase(hasCredentials: bool, response: HttpResponse): (r: Option<seq<Object>>)
    ensures r.Some? <==> hasCredentials && response.Response? && response.status == 200 && response.body.Some?
    ensures r.Some? ==> r == response.body
  {
    if !hasCredentials then None
    else match response
      case NoResponse => None
      case Response(status, body) => if status != 200 then None else body
  }

  /** Every key `main` reads with `record[...]`, which raises `KeyError` when one is missing, is there. */
  predicate HasRequiredKeys(record: Object) {
    && "id" in record && "name" in record && "author" in record && "category" in record && "version" in record
    && "tags" in record && "width" in record && "height" in record && "created_at" in record
  }

  /** `record.get("github_path", "")` as a path: `None` where the value is not a string, on which
      `os.path.exists` raises. */
  function RecordPath(record: Object): Option<string> {
    if "github_path" !in record then Some("")
    else match record["github_path"]
      case Str(p) => Some(p)
      case _ => None
  }

  /** `os.path.exists(p)`; the empty path never exists. */
  predicate PathExists(onDisk: set<string>, p: string) {
    p != "" && p in onDisk
  }

  /** `record.get(key, 0)`. */
  function StatOrZero(record: Object, key: string): Value {
    if key in record then record[key] else Int(0)
  }

  /** The outcome of one pass of the record loop. */
  datatype RecordStep = Skip | Emit(entry: Entry) | Raise

  /** One pass of the record loop of `main`: skip a record whose file does not exist, raise when the path is
      not a string or a required key is missing, otherwise project the record, with its mods read from
      the XML (none when that does not parse). */
  function ProjectRecord(onDisk: set<string>, metadataOf: MetadataOf, record: Object): (r: RecordStep)
    ensures r.Skip? <==> RecordPath(record).Some? && !PathExists(onDisk, RecordPath(record).value)
    ensures r.Raise? <==> RecordPath(record).None? || (PathExists(onDisk, RecordPath(record).value) && !HasRequiredKeys(record))
  {
    match RecordPath(record)
    case None => Raise
    case Some(p) =>
      if !PathExists(onDisk, p) then Skip
      else if !HasRequiredKeys(record) then Raise
      else
        var xmlData := metadataOf(p);
        var mods := if xmlData.Some? then xmlData.value.mods else [];
        Emit(Entry(record["id"], record["name"], record["author"],
                   Some(if "author_steam_id" in record then record["author_steam_id"] else Null),
                   record["category"], record["version"], record["tags"], record["width"], record["height"],
                   mods, p, StatOrZero(record, "stat_likes"), StatOrZero(record, "stat_dislikes"),
                   StatOrZero(record, "stat_added_to_library"), record["created_at"]))
  }

  /** An entry carries the record's fields under the index keys: missing statistics become 0, a missing
      `author_steam_id` becomes `null`, and the mods come from the XML (none when that does not parse). */
  lemma ProjectedEntry(onDisk: set<string>, docs: map<string, Element>, record: Object)
    requires ProjectRecord(onDisk, MetadataReader(onDisk, docs), record).Emit?
    ensures var e := ProjectRecord(onDisk, MetadataReader(onDisk, docs), record).entry;
            var m := XmlMetadata(onDisk, docs, e.path);
            && e.path == RecordPath(record).value && e.path in onDisk
            && e.id == record["id"] && e.name == record["name"] && e.author == record["author"]
            && e.category == record["category"] && e.version == record["version"] && e.tags == record["tags"]
            && e.width == record["width"] && e.height == record["height"] && e.created == record["created_at"]
            && e.steamId == Some(if "author_steam_id" in record then record["author_steam_id"] else Null)
            && e.likes == (if "stat_likes" in record then record["stat_likes"] else Int(0))
            && e.dislikes == (if "stat_dislikes" in record then record["stat_dislikes"] else Int(0))
            && e.downloads == (if "stat_added_to_library" in record then record["stat_added_to_library"] else Int(0))
            && (m.None? ==> e.mods == []) && (m.Some? ==> e.mods == m.value.mods)
  {
  }

  /** The records whose file exists. */
  function Listed(onDisk: set<string>): Object -> bool {
    record => RecordPath(record).Some? && PathExists(onDisk, RecordPath(record).value)
  }

  /** The paths of a list of records, and of a list of entries. */
  function RecordPaths(records: seq<Object>): seq<string> {
    seq(|records|, i requires 0 <= i < |records| => RecordPath(records[i]).GetOr(""))
  }

  function EntryPaths(entries: seq<Entry>): seq<string> {
    seq(|entries|, i requires 0 <= i < |entries| => entries[i].path)
  }

  lemma RecordPathsSnoc(records: seq<Object>, r: Object)
    ensures RecordPaths(records + [r]) == RecordPaths(records) + [RecordPath(r).GetOr("")]
  {
    var a, b := RecordPaths(records + [r]), RecordPaths(records) + [RecordPath(r).GetOr("")];
    assert forall i :: 0 <= i < |a| ==> a[i] == b[i] by {
      forall i | 0 <= i < |a| ensures a[i] == b[i] {
        if i < |records| {
          assert (records + [r])[i] == records[i];
        }
      }
    }
  }

  lemma EntryPathsSnoc(entries: seq<Entry>, e: Entry)
    ensures EntryPaths(entries + [e]) == EntryPaths(entries) + [e.path]
  {
    var a, b := EntryPaths(entries + [e]), EntryPaths(entries) + [e.path];
    assert forall i :: 0 <= i < |a| ==> a[i] == b[i] by {
      forall i | 0 <= i < |a| ensures a[i] == b[i] {
        if i < |entries| {
          assert (entries + [e])[i] == entries[i];
        }
      }
    }
  }

  /** The record loop of `main`: `None` where some pass raises, otherwise the entries in record order. */
  function DatabaseEntries(onDisk: set<string>, metadataOf: MetadataOf, records: seq<Object>): (r: Option<seq<Entry>>)
    ensures r.None? <==> exists i :: 0 <= i < |records| && ProjectRecord(onDisk, metadataOf, records[i]).Raise?
    ensures r.Some? ==> forall e :: e in r.value ==> PathExists(onDisk, e.path)
    decreases |records|
  {
    if |records| == 0 then Some([])
    else
      var init := records[..|records| - 1];
      var last := records[|records| - 1];
      var rest := DatabaseEntries(onDisk, metadataOf, init);
      assert forall i :: 0 <= i < |init| ==> records[i] == init[i];
      if rest.None? then None
      else match ProjectRecord(onDisk, metadataOf, last)
        case Raise => None
        case Skip => rest
        case Emit(e) => Some(rest.value + [e])
  }

  /** One entry per record whose file exists, in record order: the i-th entry is the projection of the
      i-th such record. */
  lemma {:induction false} DatabaseEntryOrder(onDisk: set<string>, metadataOf: MetadataOf, records: seq<Object>)
    requires DatabaseEntries(onDisk, metadataOf, records).Some?
    ensures EntryPaths(DatabaseEntries(onDisk, metadataOf, records).value) == RecordPaths(Filter(records, Listed(onDisk)))
    ensures var entries := DatabaseEntries(onDisk, metadataOf, records).value;
            var listed := Filter(records, Listed(onDisk));
            && |entries| == |listed|
            && forall i :: 0 <= i < |listed| ==> ProjectRecord(onDisk, metadataOf, listed[i]) == Emit(entries[i])
    decreases |records|
  {
    if |records| > 0 {
      var init := records[..|records| - 1];
      var last := records[|records| - 1];
      var rest := DatabaseEntries(onDisk, metadataOf, init);
      assert rest.Some?;
      DatabaseEntryOrder(onDisk, metadataOf, init);
      SplitLast(records);
      FilterSnoc(init, last, Listed(onDisk));
      var step := ProjectRecord(onDisk, metadataOf, last);
      assert Listed(onDisk)(last) <==> step.Emit?;
      if step.Emit? {
        EntryPathsSnoc(rest.value, step.entry);
        RecordPathsSnoc(Filter(init, Listed(onDisk)), last);
        ProjectedSnoc(onDisk, metadataOf, Filter(init, Listed(onDisk)), last, rest.value, step.entry);
      }
    }
  }

  /** Entries that project their records pairwise stay so when each list grows by one such pair. */
  lemma ProjectedSnoc(onDisk: set<string>, metadataOf: MetadataOf, listed: seq<Object>, last: Object,
                      entries: seq<Entry>, e: Entry)
    requires |entries| == |listed|
    requires forall i :: 0 <= i < |listed| ==> ProjectRecord(onDisk, metadataOf, listed[i]) == Emit(entries[i])
    requires ProjectRecord(onDisk, metadataOf, last) == Emit(e)
    ensures forall i :: 0 <= i < |listed| + 1 ==>
              ProjectRecord(onDisk, metadataOf, (listed + [last])[i]) == Emit((entries + [e])[i])
  {
    forall i | 0 <= i < |listed| + 1
      ensures ProjectRecord(onDisk, metadataOf, (listed + [last])[i]) == Emit((entries + [e])[i])
    {
      if i < |listed| {
        assert (listed + [last])[i] == listed[i];
        assert (entries + [e])[i] == entries[i];
      }
    }
  }

  /** A pass that raises in a prefix makes the whole loop raise. */
  lemma DatabaseEntriesPrefix(onDisk: set<string>, metadataOf: MetadataOf, records: seq<Object>, n: nat)
    requires n <= |records| && DatabaseEntries(onDisk, metadataOf, records[..n]).None?
    ensures DatabaseEntries(onDisk, metadataOf, records).None?
  {
    var i :| 0 <= i < n && ProjectRecord(onDisk, metadataOf, records[..n][i]).Raise?;
    assert records[..n][i] == records[i];
  }

  // ---------------------------------------------------------------------------------------------
  // main

  datatype Mode = Database | FilesystemFallback

  /** The `mode` string of the index. */
  function ModeName(m: Mode): (s: string)
    ensures s == "database" <==> m == Database
  {
    match m
    case Database => "database"
    case FilesystemFallback => "filesystem_fallback"
  }

  /** The document `main` writes to `index.json`. */
  datatype IndexDocument = IndexDocument(version: string, generatedAt: string, mode: string, count: nat, blueprints: seq<Entry>)

  /** `main`: the database entries when the fetch and the whole record loop succeed; otherwise the list is
      replaced wholesale by the filesystem scan. `now` is the clock reading used for the timestamps. */
  function Index(hasCredentials: bool, response: HttpResponse, onDisk: set<string>, docs: map<string, Element>,
                 globbed: seq<string>, now: string): (d: IndexDocument)
    ensures d.version == IndexVersion && d.count == |d.blueprints|
    ensures var fetched := FetchFromDatabase(hasCredentials, response);
            d.mode == "database" <==> fetched.Some? && DatabaseEntries(onDisk, MetadataReader(onDisk, docs), fetched.value).Some?
    ensures d.mode == "database" ==> d.blueprints == DatabaseEntries(onDisk, MetadataReader(onDisk, docs), response.body.value).value
    ensures d.mode != "database" ==> d.mode == "filesystem_fallback" && d.blueprints == FallbackScan(onDisk, docs, globbed, now)
  {
    var fetched := FetchFromDatabase(hasCredentials, response);
    var entries := if fetched.Some? then DatabaseEntries(onDisk, MetadataReader(onDisk, docs), fetched.value) else None;
    var (mode, list) := if entries.Some? then (Database, entries.value)
                        else (FilesystemFallback, FallbackScan(onDisk, docs, globbed, now));
    IndexDocument(IndexVersion, now, ModeName(mode), |list|, list)
  }

  /** Missing credentials and a failed request both end in the fallback. */
  lemma FetchFailureFallsBack(hasCredentials: bool, response: HttpResponse, onDisk: set<string>,
                              docs: map<string, Element>, globbed: seq<string>, now: string)
    requires !hasCredentials || response.NoResponse? || (response.Response? && response.status != 200)
    ensures Index(hasCredentials, response, onDisk, docs, globbed, now).mode == "filesystem_fallback"
  {
  }

  /** A record that raises mid-loop discards the entries made so far and ends in the fallback. */
  lemma RaisingRecordFallsBack(response: HttpResponse, onDisk: set<string>, docs: map<string, Element>,
                               globbed: seq<string>, now: string, i: nat)
    requires response.Response? && response.status == 200 && response.body.Some?
    requires i < |response.body.value| && ProjectRecord(onDisk, MetadataReader(onDisk, docs), response.body.value[i]).Raise?
    ensures Index(true, response, onDisk, docs, globbed, now).blueprints == FallbackScan(onDisk, docs, globbed, now)
  {
  }

  /** `main`: the fallback runs when the fetch fails or a pass of the record loop raises. */
  method GenerateIndex(hasCredentials: bool, response: HttpResponse, onDisk: set<string>, docs: map<string, Element>,
                       globbed: seq<string>, now: string) returns (d: IndexDocument)
    ensures d == Index(hasCredentials, response, onDisk, docs, globbed, now)
  {
    var finalList: seq<Entry> := [];
    var sourceMode := FilesystemFallback;
    var raised := false;
    var dbRecords := FetchFromDatabase(hasCredentials, response);
    if dbRecords.None? {
      raised := true;
    } else {
      sourceMode := Database;
      var entries := RecordLoop(onDisk, docs, dbRecords.value);
      if entries.None? {
        raised := true;
      } else {
        finalList := entries.value;
      }
    }
    if raised {
      finalList := ScanFilesystemFallback(onDisk, docs, globbed, now);
      sourceMode := FilesystemFallback;
    }
    d := IndexDocument(IndexVersion, now, ModeName(sourceMode), |finalList|, finalList);
  }

  /** The record loop of `main`: `None` when a pass raises (the `except` branch takes over). */
  method RecordLoop(onDisk: set<string>, docs: map<string, Element>, records: seq<Object>) returns (entries: Option<seq<Entry>>)
    ensures entries == DatabaseEntries(onDisk, MetadataReader(onDisk, docs), records)
  {
    ghost var metadataOf := MetadataReader(onDisk, docs);
    var finalList: seq<Entry> := [];
    for i := 0 to |records|
      invariant Some(finalList) == DatabaseEntries(onDisk, metadataOf, records[..i])
    {
      assert records[..i + 1][..i] == records[..i];
      var step := RecordLoopPass(onDisk, docs, records[i]);
      if step.Raise? {
        assert DatabaseEntries(onDisk, metadataOf, records[..i + 1]).None?;
        DatabaseEntriesPrefix(onDisk, metadataOf, records, i + 1);
        return None;
      } else if step.Emit? {
        finalList := finalList + [step.entry];
      }
    }
    assert records[..|records|] == records;
    entries := Some(finalList);
  }

  /** One pass of the record loop, reading the mods with `parse_full_xml_metadata`. */
  method RecordLoopPass(onDisk: set<string>, docs: map<string, Element>, record: Object) returns (step: RecordStep)
    ensures step == ProjectRecord(onDisk, MetadataReader(onDisk, docs), record)
  {
    var path := RecordPath(record);
    if path.None? {
      return Raise;
    }
    var filePath := path.value;
    if !PathExists(onDisk, filePath) {
      return Skip;
    }
    if !HasRequiredKeys(record) {
      return Raise;
    }
    var xmlData := ParseFullXmlMetadata(onDisk, docs, filePath);
    var modsList := if xmlData.Some? then xmlData.value.mods else [];
    step := Emit(Entry(record["id"], record["name"], record["author"],
                       Some(if "author_steam_id" in record then record["author_steam_id"] else Null),
                       record["category"], record["version"], record["tags"], record["width"], record["height"],
                       modsList, filePath, StatOrZero(record, "stat_likes"), StatOrZero(record, "stat_dislikes"),
                       StatOrZero(record, "stat_added_to_library"), record["created_at"]));
  }
}
