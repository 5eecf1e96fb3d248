/** The orphan reconciler and cleanup executor of scripts/cleanup_orphaned_files.py.

    The script lists the blueprint XML files, reads the `BuildingID` each one embeds, splits the files
    into groups whose id the database still lists as active (valid) and the rest (orphaned), and then
    moves the orphaned groups (XML plus its images) into `.cleanup/` or deletes them.

    The directory listings that `glob` returns are parameters (their order is whatever the platform
    gives), the parsed XML of each file is the map `docs` (a missing key is a file that does not
    parse), and the filesystem is a `FileSystem` object whose `files` map each existing file to its size. */
module Cleanup {
  import opened Wrappers
  import opened Seqs
  import opened Strings
  import opened Paths
  import opened Json
  import opened Xml

  const CleanupMarker := ".cleanup"
  const ImagesDir := "images"
  const CleanupBlueprintsDir := ".cleanup/blueprints"
  const CleanupImagesDir := ".cleanup/images"

  /** Every existing file, with its size in bytes. */
  type Files = map<string, nat>

  /** The result of `os.rename(src, dst)` on POSIX: an existing `dst` is replaced. */
  function Renamed(files: Files, src: string, dst: string): (r: Files)
    requires src in files
    ensures dst in r && r[dst] == files[src]
    ensures src != dst ==> src !in r
    ensures forall p :: p != src && p != dst ==> (p in r <==> p in files) && (p in r ==> r[p] == files[p])
  {
    (files - {src})[dst := files[src]]
  }

  /** The local filesystem. `failing` are the paths on which the operating system refuses
      `os.rename` and `os.remove` (permissions, locks): the calls that raise in the script. */
  class FileSystem {
    var files: Files
    const failing: set<string>

    constructor (files: Files, failing: set<string>)
      ensures this.files == files && this.failing == failing
    {
      this.files := files;
      this.failing := failing;
    }

    /** `os.rename(src, dst)`; `ok` is false where it raises. */
    method Rename(src: string, dst: string) returns (ok: bool)
      modifies this
      ensures ok == (src in old(files) && src !in failing)
      ensures files == if ok then Renamed(old(files), src, dst) else old(files)
    {
      ok := src in files && src !in failing;
      if ok {
        files := Renamed(files, src, dst);
      }
    }

    /** `os.remove(path)`; `ok` is false where it raises. */
    method Remove(path: string) returns (ok: bool)
      modifies this
      ensures ok == (path in old(files) && path !in failing)
      ensures files == if ok then old(files) - {path} else old(files)
    {
      ok := path in files && path !in failing;
      if ok {
        files := files - {path};
      }
    }
  }

  // ---------------------------------------------------------------------------------------------
  // get_valid_blueprint_ids

  /** `bp.get("is_active", True)` is truthy: a record without the field counts as active. */
  predicate IsActive(rec: Object) {
    "is_active" !in rec || Truthy(rec["is_active"])
  }

  /** The set comprehension `{bp["id"] for bp in blueprints if bp.get("is_active", True)}`;
      `None` where `bp["id"]` raises KeyError for an active record. */
  function ActiveIds(records: seq<Object>): (r: Option<set<Value>>)
    ensures r.None? <==> exists rec :: rec in records && IsActive(rec) && "id" !in rec
    ensures r.Some? ==> forall id :: id in r.value <==>
                          exists rec :: rec in records && IsActive(rec) && "id" in rec && rec["id"] == id
    decreases |records|
  {
    if |records| == 0 then Some({})
    else
      var rec := records[0];
      var rest := ActiveIds(records[1..]);
      assert forall x :: x in records <==> x == rec || x in records[1..];
      if !IsActive(rec) then rest
      else if "id" !in rec then None
      else if rest.None? then None
      else Some({rec["id"]} + rest.value)
  }

  /** `get_valid_blueprint_ids`: the active ids when the request returns 200 with a body that iterates
      as records (an empty object or string iterates as none); `None` (the script's `return None`) on any
      other status, on an exception, or on a body whose iteration raises. */
  function ValidBlueprintIds(response: HttpResponse): (r: Option<set<Value>>)
    ensures r.Some? ==> response.Response? && response.status == 200 && response.body.Some?
    ensures response.Response? && response.status == 200 && response.body.Some? ==> r == ActiveIds(response.body.value)
  {
    if response.Response? && response.status == 200 && response.body.Some? then ActiveIds(response.body.value)
    else None
  }

  // ---------------------------------------------------------------------------------------------
  // scan_local_files, scan_all_files

  predicate OutsideQuarantine(p: string) {
    !Contains(p, CleanupMarker)
  }

  /** `scan_local_files`: the XML paths that glob returned, without those under `.cleanup`. */
  function ScanLocalFiles(globbed: seq<string>): (r: seq<string>)
    ensures forall p :: p in r <==> p in globbed && !Contains(p, CleanupMarker)
    ensures |r| <= |globbed|
  {
    Filter(globbed, OutsideQuarantine)
  }

  /** The image half of `scan_all_files`: the `.png` and `.jpg` paths glob returned for `images/`,
      without those under `.cleanup`. */
  function ScanImageFiles(pngGlob: seq<string>, jpgGlob: seq<string>): (r: seq<string>)
    ensures forall p :: p in r <==> (p in pngGlob || p in jpgGlob) && !Contains(p, CleanupMarker)
  {
    Filter(pngGlob + jpgGlob, OutsideQuarantine)
  }

  // ---------------------------------------------------------------------------------------------
  // extract_blueprint_id

  /** The text of `extraInfo/BuildingID`, if both elements are there. */
  function BuildingIdText(root: Element): Option<string> {
    match Find(root, "extraInfo")
    case None => None
    case Some(extra) =>
      match Find(extra, "BuildingID")
      case None => None
      case Some(el) => el.text
  }

  /** `extract_blueprint_id`: the stripped `BuildingID` text. `None` when the file does not parse or
      the element is missing or has no text; it never raises. A text of only whitespace gives `""`. */
  function ExtractBlueprintId(docs: map<string, Element>, path: string): (r: Option<string>)
    ensures r.None? <==> path !in docs || BuildingIdText(docs[path]) == None || BuildingIdText(docs[path]) == Some("")
    ensures r.Some? ==> r.value == Strip(BuildingIdText(docs[path]).value)
    ensures r.Some? ==> IsTrimmed(r.value) && Contains(BuildingIdText(docs[path]).value, r.value)
  {
    if path in docs && BuildingIdText(docs[path]).Some? && BuildingIdText(docs[path]).value != "" then
      Some(Strip(BuildingIdText(docs[path]).value))
    else None
  }

  // ---------------------------------------------------------------------------------------------
  // identify_orphaned_files, find_related_files

  /** How the selection reads a file's id: `extract_blueprint_id` applied to one path. */
  type IdOf = string -> Option<string>

  function IdReader(docs: map<string, Element>): IdOf {
    p => ExtractBlueprintId(docs, p)
  }

  /** The file at `p` carries `id`. */
  predicate HasId(idOf: IdOf, p: string, id: string) {
    idOf(p) == Some(id)
  }

  /** The ids the loop of `identify_orphaned_files` processes: the non-empty ids of `xmls` in the order
      they are first met. Files without an id are skipped; a later file with an id already seen is ignored. */
  function FirstSeenIds(idOf: IdOf, xmls: seq<string>): (ids: seq<string>)
    ensures NoDuplicates(ids)
    ensures forall id :: id in ids <==> id != "" && exists p :: p in xmls && HasId(idOf, p, id)
    decreases |xmls|
  {
    if |xmls| == 0 then []
    else
      var init := xmls[..|xmls| - 1];
      var last := xmls[|xmls| - 1];
      var prev := FirstSeenIds(idOf, init);
      var id := idOf(last);
      assert forall p :: p in xmls <==> p in init || p == last by {
        SplitLast(xmls);
      }
      if id.Some? && id.value != "" && id.value !in prev then
        var ids := prev + [id.value];
        assert HasId(idOf, last, id.value);
        assert NoDuplicates(ids) by {
          forall i, j | 0 <= i < j < |ids| ensures ids[i] != ids[j] {
            if j == |ids| - 1 {
              assert ids[i] in prev;
            } else {
              assert ids[i] == prev[i] && ids[j] == prev[j];
            }
          }
        }
        ids
      else prev
  }

  /** The index of the first path of `xmls` at or after `start` whose id is `id`. */
  function FirstIndexFrom(idOf: IdOf, xmls: seq<string>, id: string, start: nat): (r: Option<nat>)
    requires start <= |xmls|
    ensures r.None? <==> forall i :: start <= i < |xmls| ==> !HasId(idOf, xmls[i], id)
    ensures r.Some? ==> start <= r.value < |xmls| && HasId(idOf, xmls[r.value], id)
                        && forall j :: start <= j < r.value ==> !HasId(idOf, xmls[j], id)
    decreases |xmls| - start
  {
    if start == |xmls| then None
    else if HasId(idOf, xmls[start], id) then Some(start)
    else FirstIndexFrom(idOf, xmls, id, start + 1)
  }

  /** The first path of `xmls` whose id is `id`: the search at the top of `find_related_files`. */
  function FirstWithId(idOf: IdOf, xmls: seq<string>, id: string): (r: Option<string>)
    ensures r.None? <==> forall i :: 0 <= i < |xmls| ==> !HasId(idOf, xmls[i], id)
    ensures r.Some? ==> r.value in xmls && HasId(idOf, r.value, id)
  {
    var k := FirstIndexFrom(idOf, xmls, id, 0);
    if k.None? then None else Some(xmls[k.value])
  }

  /** The dictionary `find_related_files` builds. */
  datatype Group = Group(blueprintId: string, xml: Option<string>, png: Option<string>,
                         minimapPng: Option<string>, minimapJpg: Option<string>, totalSize: nat)

  /** `os.path.join("images", f"{base_name}{suffix}")`, `base_name` the XML basename without extension. */
  function ImagePath(xml: string, suffix: string): string {
    Join(ImagesDir, NameStem(Basename(xml)) + suffix)
  }

  lemma ImagePathShape(xml: string, suffix: string)
    requires '/' !in suffix
    ensures ImagePath(xml, suffix) == "images/" + NameStem(Basename(xml)) + suffix
  {
    var stem := NameStem(Basename(xml));
    NotInAppend(stem, suffix, '/');
    assert ImagesDir[|ImagesDir| - 1] != '/';
    assert ImagesDir + "/" == "images/";
    Regroup(ImagesDir, "/", stem + suffix, "");
    Regroup("images/", stem, suffix, "");
  }

  function IfExists(files: Files, p: string): (r: Option<string>)
    ensures r.Some? <==> p in files
    ensures r.Some? ==> r.value == p
  {
    if p in files then Some(p) else None
  }

  /** The image `find_related_files` records for `suffix`: its path, when that file exists. */
  function ImageOf(files: Files, xml: string, suffix: string): Option<string> {
    IfExists(files, ImagePath(xml, suffix))
  }

  /** The size of a group member, 0 when it is absent or does not exist. */
  function SizeOf(files: Files, p: Option<string>): nat {
    if p.Some? && p.value in files then files[p.value] else 0
  }

  /** The group `find_related_files(id)` returns. */
  function RelatedGroup(files: Files, idOf: IdOf, xmls: seq<string>, id: string): (g: Group)
    ensures g.blueprintId == id && g.xml == FirstWithId(idOf, xmls, id)
    ensures g.xml.None? ==> g.png.None? && g.minimapPng.None? && g.minimapJpg.None? && g.totalSize == 0
    ensures g.xml.Some? ==>
              && g.png == ImageOf(files, g.xml.value, ".png")
              && g.minimapPng == ImageOf(files, g.xml.value, "_minimap.png")
              && g.minimapJpg == ImageOf(files, g.xml.value, "_minimap.jpg")
    ensures g.totalSize == SizeOf(files, g.xml) + SizeOf(files, g.png) + SizeOf(files, g.minimapPng) + SizeOf(files, g.minimapJpg)
  {
    var xml := FirstWithId(idOf, xmls, id);
    if xml.None? then Group(id, None, None, None, None, 0)
    else
      var png := ImageOf(files, xml.value, ".png");
      var mmPng := ImageOf(files, xml.value, "_minimap.png");
      var mmJpg := ImageOf(files, xml.value, "_minimap.jpg");
      Group(id, xml, png, mmPng, mmJpg, SizeOf(files, xml) + SizeOf(files, png) + SizeOf(files, mmPng) + SizeOf(files, mmJpg))
  }

  /** One image of `find_related_files`: `os.path.exists` on the image path and, when it exists, its size. */
  method LookupImage(fs: FileSystem, xml: string, suffix: string) returns (found: Option<string>, size: nat)
    ensures found == ImageOf(fs.files, xml, suffix)
    ensures size == SizeOf(fs.files, found)
  {
    var path := ImagePath(xml, suffix);
    if path in fs.files {
      found, size := Some(path), fs.files[path];
    } else {
      found, size := None, 0;
    }
  }

  /** The search at the top of `find_related_files`: the first scanned file carrying `id`, and its size. */
  method FindDefinition(fs: FileSystem, idOf: IdOf, xmls: seq<string>, id: string) returns (xml: Option<string>, size: nat)
    ensures xml == FirstWithId(idOf, xmls, id)
    ensures size == SizeOf(fs.files, xml)
  {
    xml, size := None, 0;
    var i := 0;
    while i < |xmls|
      invariant 0 <= i <= |xmls|
      invariant FirstIndexFrom(idOf, xmls, id, 0) == FirstIndexFrom(idOf, xmls, id, i)
    {
      if idOf(xmls[i]) == Some(id) {
        xml := Some(xmls[i]);
        if xmls[i] in fs.files {
          size := fs.files[xmls[i]];
        }
        return;
      }
      i := i + 1;
    }
  }

  /** `find_related_files`: searches the scanned XML files for the first one with `id`, then looks up the
      three images named after it, adding up the sizes of the files it finds. The scan and the id reader
      are those of `identify_orphaned_files`, which the script repeats here over the same listing. */
  method FindRelatedFiles(fs: FileSystem, idOf: IdOf, xmls: seq<string>, id: string) returns (g: Group)
    ensures g == RelatedGroup(fs.files, idOf, xmls, id)
  {
    var xml, total := FindDefinition(fs, idOf, xmls, id);
    var png, mmPng, mmJpg: Option<string> := None, None, None;
    if xml.Some? {
      var size: nat;
      png, size := LookupImage(fs, xml.value, ".png");
      total := total + size;
      mmPng, size := LookupImage(fs, xml.value, "_minimap.png");
      total := total + size;
      mmJpg, size := LookupImage(fs, xml.value, "_minimap.jpg");
      total := total + size;
    }
    g := Group(id, xml, png, mmPng, mmJpg, total);
  }

  /** Selects the ids that are in the database's valid set. */
  function Selects(validIds: set<Value>): string -> bool {
    id => Str(id) in validIds
  }

  /** Selects the ids that are not. */
  function Rejects(validIds: set<Value>): string -> bool {
    id => Str(id) !in validIds
  }

  function GroupsFor(files: Files, idOf: IdOf, xmls: seq<string>, ids: seq<string>): (gs: seq<Group>)
    ensures |gs| == |ids| && forall k :: 0 <= k < |ids| ==> gs[k] == RelatedGroup(files, idOf, xmls, ids[k])
  {
    seq(|ids|, k requires 0 <= k < |ids| => RelatedGroup(files, idOf, xmls, ids[k]))
  }

  function IdsOf(gs: seq<Group>): (ids: seq<string>)
    ensures |ids| == |gs| && forall k :: 0 <= k < |gs| ==> ids[k] == gs[k].blueprintId
  {
    seq(|gs|, k requires 0 <= k < |gs| => gs[k].blueprintId)
  }

  /** The (valid, orphaned) pair `identify_orphaned_files` returns. */
  function Partition(files: Files, idOf: IdOf, xmls: seq<string>, validIds: set<Value>): (seq<Group>, seq<Group>) {
    var ids := FirstSeenIds(idOf, xmls);
    (GroupsFor(files, idOf, xmls, Filter(ids, Selects(validIds))),
     GroupsFor(files, idOf, xmls, Filter(ids, Rejects(validIds))))
  }

  /** The groups of ids that occur in the files each have their XML file, which carries the group's id. */
  lemma GroupsForFound(files: Files, idOf: IdOf, xmls: seq<string>, ids: seq<string>)
    requires forall id :: id in ids ==> exists p :: p in xmls && HasId(idOf, p, id)
    ensures IdsOf(GroupsFor(files, idOf, xmls, ids)) == ids
    ensures forall g :: g in GroupsFor(files, idOf, xmls, ids) ==>
              g.blueprintId in ids && g.xml.Some? && g.xml.value in xmls && HasId(idOf, g.xml.value, g.blueprintId)
  {
    var gs := GroupsFor(files, idOf, xmls, ids);
    forall g | g in gs
      ensures g.blueprintId in ids && g.xml.Some? && g.xml.value in xmls && HasId(idOf, g.xml.value, g.blueprintId)
    {
      var k :| 0 <= k < |gs| && gs[k] == g;
      assert g == RelatedGroup(files, idOf, xmls, ids[k]);
      assert ids[k] in ids;
      var p :| p in xmls && HasId(idOf, p, ids[k]);
      var i :| 0 <= i < |xmls| && xmls[i] == p;
      assert HasId(idOf, xmls[i], ids[k]);
    }
  }

  /** What the partition promises: valid groups have a valid id and orphaned ones do not; every group has
      its XML file, which carries the group's id; no id occurs twice; and the ids are exactly the
      non-empty ids found in the files. */
  lemma PartitionProperties(files: Files, idOf: IdOf, xmls: seq<string>, validIds: set<Value>)
    ensures var parts := Partition(files, idOf, xmls, validIds);
            && (forall g :: g in parts.0 ==> Str(g.blueprintId) in validIds)
            && (forall g :: g in parts.1 ==> Str(g.blueprintId) !in validIds)
            && (forall g :: g in parts.0 + parts.1 ==>
                  g.xml.Some? && g.xml.value in xmls && HasId(idOf, g.xml.value, g.blueprintId))
            && NoDuplicates(IdsOf(parts.0) + IdsOf(parts.1))
            && (forall id :: id in IdsOf(parts.0) + IdsOf(parts.1) <==>
                  id != "" && exists p :: p in xmls && HasId(idOf, p, id))
  {
    var ids := FirstSeenIds(idOf, xmls);
    var parts := Partition(files, idOf, xmls, validIds);
    var vs, os := Filter(ids, Selects(validIds)), Filter(ids, Rejects(validIds));
    GroupsForFound(files, idOf, xmls, vs);
    GroupsForFound(files, idOf, xmls, os);
    FilterNoDuplicates(ids, Selects(validIds));
    FilterNoDuplicates(ids, Rejects(validIds));
    ConcatNoDuplicates(vs, os);
    assert forall g :: g in parts.0 + parts.1 <==> g in parts.0 || g in parts.1;
    assert forall id :: id in vs + os <==> id in vs || id in os;
  }

  /** One more file either adds its id to the ids seen so far or leaves them as they are. */
  lemma FirstSeenStep(idOf: IdOf, xmls: seq<string>, i: nat)
    requires i < |xmls|
    ensures var before := FirstSeenIds(idOf, xmls[..i]);
            var id := idOf(xmls[i]);
            FirstSeenIds(idOf, xmls[..i + 1]) == if id.Some? && id.value != "" && id.value !in before then before + [id.value] else before
  {
    assert xmls[..i + 1][..i] == xmls[..i];
  }

  /** Appending a new id appends its group to the valid or the orphaned list. */
  lemma SelectStep(files: Files, idOf: IdOf, xmls: seq<string>, ids: seq<string>, id: string, validIds: set<Value>)
    ensures var g := RelatedGroup(files, idOf, xmls, id);
            && GroupsFor(files, idOf, xmls, Filter(ids + [id], Selects(validIds)))
               == GroupsFor(files, idOf, xmls, Filter(ids, Selects(validIds))) + (if Str(id) in validIds then [g] else [])
            && GroupsFor(files, idOf, xmls, Filter(ids + [id], Rejects(validIds)))
               == GroupsFor(files, idOf, xmls, Filter(ids, Rejects(validIds))) + (if Str(id) in validIds then [] else [g])
  {
    FilterGroupsStep(files, idOf, xmls, ids, id, Selects(validIds));
    FilterGroupsStep(files, idOf, xmls, ids, id, Rejects(validIds));
  }

  /** Appending an id to a list of ids appends its group to the groups of the ids `keep` selects, when
      `keep` selects it. */
  lemma FilterGroupsStep(files: Files, idOf: IdOf, xmls: seq<string>, ids: seq<string>, id: string, keep: string -> bool)
    ensures GroupsFor(files, idOf, xmls, Filter(ids + [id], keep))
            == GroupsFor(files, idOf, xmls, Filter(ids, keep)) + (if keep(id) then [RelatedGroup(files, idOf, xmls, id)] else [])
  {
    FilterSnoc(ids, id, keep);
    var kept := Filter(ids, keep);
    if keep(id) {
      GroupsForAppend(files, idOf, xmls, kept, [id]);
      GroupsForOne(files, idOf, xmls, id);
    } else {
      assert kept + [] == kept;
    }
  }

  lemma GroupsForOne(files: Files, idOf: IdOf, xmls: seq<string>, id: string)
    ensures GroupsFor(files, idOf, xmls, [id]) == [RelatedGroup(files, idOf, xmls, id)]
  {
    var gs := GroupsFor(files, idOf, xmls, [id]);
    assert gs[0] == RelatedGroup(files, idOf, xmls, [id][0]);
  }

  lemma GroupsForAppend(files: Files, idOf: IdOf, xmls: seq<string>, a: seq<string>, b: seq<string>)
    ensures GroupsFor(files, idOf, xmls, a + b) == GroupsFor(files, idOf, xmls, a) + GroupsFor(files, idOf, xmls, b)
  {
    var l, r := GroupsFor(files, idOf, xmls, a + b), GroupsFor(files, idOf, xmls, a) + GroupsFor(files, idOf, xmls, b);
    assert |l| == |r|;
    forall k | 0 <= k < |l| ensures l[k] == r[k] {
      if k < |a| {
        assert (a + b)[k] == a[k];
      } else {
        assert (a + b)[k] == b[k - |a|];
      }
    }
  }

  /** `identify_orphaned_files`: walks the scanned XML files once, keeping a set of ids already processed,
      and appends the related group of each new id to the valid or the orphaned list. */
  method IdentifyOrphanedFiles(fs: FileSystem, docs: map<string, Element>, globbed: seq<string>, validIds: set<Value>)
    returns (valid: seq<Group>, orphaned: seq<Group>)
    ensures (valid, orphaned) == Partition(fs.files, IdReader(docs), ScanLocalFiles(globbed), validIds)
  {
    valid, orphaned := PartitionLoop(fs, IdReader(docs), ScanLocalFiles(globbed), validIds);
  }

  /** The loop of `identify_orphaned_files` over the scanned files `xmls`, reading ids with `idOf`. */
  method PartitionLoop(fs: FileSystem, idOf: IdOf, xmls: seq<string>, validIds: set<Value>)
    returns (valid: seq<Group>, orphaned: seq<Group>)
    ensures (valid, orphaned) == Partition(fs.files, idOf, xmls, validIds)
  {
    valid, orphaned := [], [];
    var processed: set<string> := {};
    for i := 0 to |xmls|
      invariant forall x :: x in processed <==> x in FirstSeenIds(idOf, xmls[..i])
      invariant valid == GroupsFor(fs.files, idOf, xmls, Filter(FirstSeenIds(idOf, xmls[..i]), Selects(validIds)))
      invariant orphaned == GroupsFor(fs.files, idOf, xmls, Filter(FirstSeenIds(idOf, xmls[..i]), Rejects(validIds)))
    {
      ghost var before := FirstSeenIds(idOf, xmls[..i]);
      FirstSeenStep(idOf, xmls, i);
      var blueprintId := idOf(xmls[i]);
      if blueprintId.Some? && blueprintId.value != "" && blueprintId.value !in processed {
        var id := blueprintId.value;
        ghost var after := before + [id];
        processed := processed + {id};
        var group := FindRelatedFiles(fs, idOf, xmls, id);
        assert group.xml.Some? by {
          assert HasId(idOf, xmls[i], id);
        }
        SelectStep(fs.files, idOf, xmls, before, id, validIds);
        if Str(id) in validIds {
          if group.xml.Some? {
            valid := valid + [group];
          }
        } else {
          if group.xml.Some? {
            orphaned := orphaned + [group];
          }
        }
        assert valid == GroupsFor(fs.files, idOf, xmls, Filter(after, Selects(validIds)));
        assert orphaned == GroupsFor(fs.files, idOf, xmls, Filter(after, Rejects(validIds)));
        assert forall x :: x in after <==> x in before || x == id;
      }
    }
    assert xmls[..|xmls|] == xmls;
  }

  // ---------------------------------------------------------------------------------------------
  // Outcomes of the destructive operations

  /** The filesystem after a run of moves or deletions, and the paths the run reports. */
  datatype Outcome = Outcome(files: Files, listed: seq<string>)

  // ---------------------------------------------------------------------------------------------
  // move_blueprint_group

  /** A planned move: source, destination. */
  type Move = (string, string)

  /** `os.path.join(dir, os.path.basename(p))`. */
  function QuarantineMove(p: string, dir: string): Move {
    (p, Join(dir, Basename(p)))
  }

  function ImageMoves(p: Option<string>): seq<Move> {
    if p.Some? then [QuarantineMove(p.value, CleanupImagesDir)] else []
  }

  /** The files of a group in the order `move_blueprint_group` handles them: the XML to
      `.cleanup/blueprints/`, then png, minimap png and minimap jpg to `.cleanup/images/`. */
  function MoveCandidates(g: Group): seq<Move> {
    (if g.xml.Some? then [QuarantineMove(g.xml.value, CleanupBlueprintsDir)] else [])
    + ImageMoves(g.png) + ImageMoves(g.minimapPng) + ImageMoves(g.minimapJpg)
  }

  /** One file of `move_blueprint_group`: nothing when the source is gone; in dry run the source is listed;
      otherwise the rename is attempted and, when it succeeds, the destination is listed. */
  function MoveStep(e: Outcome, failing: set<string>, m: Move, dryRun: bool): Outcome {
    if m.0 !in e.files then e
    else if dryRun then Outcome(e.files, e.listed + [m.0])
    else if m.0 in failing then e
    else Outcome(Renamed(e.files, m.0, m.1), e.listed + [m.1])
  }

  /** The moves applied one after the other. */
  function ApplyMoves(files: Files, failing: set<string>, moves: seq<Move>, dryRun: bool): Outcome
    decreases |moves|
  {
    if |moves| == 0 then Outcome(files, [])
    else MoveStep(ApplyMoves(files, failing, moves[..|moves| - 1], dryRun), failing, moves[|moves| - 1], dryRun)
  }

  /** The run of a non-empty list is its last step after the run of the others. */
  lemma ApplyMovesLast(files: Files, failing: set<string>, moves: seq<Move>, dryRun: bool)
    requires |moves| > 0
    ensures ApplyMoves(files, failing, moves, dryRun)
            == MoveStep(ApplyMoves(files, failing, moves[..|moves| - 1], dryRun), failing, moves[|moves| - 1], dryRun)
  {
  }

  /** `move_blueprint_group`. The source's XML block and its loop over the three image keys perform the
      same step with different destination directories; here one loop runs over the four candidates. */
  method MoveBlueprintGroup(fs: FileSystem, g: Group, dryRun: bool) returns (moved: seq<string>)
    modifies fs
    ensures Outcome(fs.files, moved) == ApplyMoves(old(fs.files), fs.failing, MoveCandidates(g), dryRun)
  {
    moved := RunMoves(fs, MoveCandidates(g), dryRun);
  }

  /** The loop of `move_blueprint_group` over a list of planned moves. */
  method RunMoves(fs: FileSystem, moves: seq<Move>, dryRun: bool) returns (moved: seq<string>)
    modifies fs
    ensures Outcome(fs.files, moved) == ApplyMoves(old(fs.files), fs.failing, moves, dryRun)
  {
    moved := [];
    for i := 0 to |moves|
      invariant Outcome(fs.files, moved) == ApplyMoves(old(fs.files), fs.failing, moves[..i], dryRun)
    {
      assert moves[..i + 1][..i] == moves[..i];
      var (src, dst) := moves[i];
      if src in fs.files {
        if dryRun {
          moved := moved + [src];
        } else {
          var ok := fs.Rename(src, dst);
          if ok {
            moved := moved + [dst];
          }
        }
      }
    }
    assert moves[..|moves|] == moves;
  }

  function Sources(moves: seq<Move>): (r: seq<string>)
    ensures |r| == |moves| && forall k :: 0 <= k < |moves| ==> r[k] == moves[k].0
  {
    seq(|moves|, k requires 0 <= k < |moves| => moves[k].0)
  }

  function Dests(moves: seq<Move>): (r: seq<string>)
    ensures |r| == |moves| && forall k :: 0 <= k < |moves| ==> r[k] == moves[k].1
  {
    seq(|moves|, k requires 0 <= k < |moves| => moves[k].1)
  }

  function SourceExists(files: Files): Move -> bool {
    (m: Move) => m.0 in files
  }

  function Succeeds(files: Files, failing: set<string>): Move -> bool {
    (m: Move) => m.0 in files && m.0 !in failing
  }

  /** Dry run: the filesystem is unchanged and the result lists the source of every move whose source exists. */
  lemma {:induction false} DryRunMovesNothing(files: Files, failing: set<string>, moves: seq<Move>)
    ensures ApplyMoves(files, failing, moves, true) == Outcome(files, Sources(Filter(moves, SourceExists(files))))
    decreases |moves|
  {
    if |moves| > 0 {
      var init := moves[..|moves| - 1];
      DryRunMovesNothing(files, failing, init);
      var f := Filter(init, SourceExists(files));
      var m := moves[|moves| - 1];
      assert Sources(f + [m]) == Sources(f) + [m.0];
    }
  }

  /** A run of moves changes no path other than their sources and destinations, and lists only those. */
  lemma {:induction false} MovesOnlyTouchCandidates(files: Files, failing: set<string>, moves: seq<Move>, dryRun: bool)
    ensures var r := ApplyMoves(files, failing, moves, dryRun);
            && (forall p :: p !in Sources(moves) && p !in Dests(moves) ==>
                  (p in r.files <==> p in files) && (p in files ==> r.files[p] == files[p]))
            && (forall p :: p in r.listed ==> p in Sources(moves) || p in Dests(moves))
    decreases |moves|
  {
    if |moves| > 0 {
      var init := moves[..|moves| - 1];
      MovesOnlyTouchCandidates(files, failing, init, dryRun);
      assert forall p :: p in Sources(init) ==> p in Sources(moves) by {
        forall p | p in Sources(init) ensures p in Sources(moves) {
          var k :| 0 <= k < |init| && Sources(init)[k] == p;
          assert Sources(moves)[k] == p;
        }
      }
      assert forall p :: p in Dests(init) ==> p in Dests(moves) by {
        forall p | p in Dests(init) ensures p in Dests(moves) {
          var k :| 0 <= k < |init| && Dests(init)[k] == p;
          assert Dests(moves)[k] == p;
        }
      }
      assert Sources(moves)[|moves| - 1] == moves[|moves| - 1].0;
      assert Dests(moves)[|moves| - 1] == moves[|moves| - 1].1;
    }
  }

  /** No two moves share a source or a destination, and no destination is a source. */
  predicate DistinctMoves(moves: seq<Move>) {
    && (forall i, j :: 0 <= i < j < |moves| ==> moves[i].0 != moves[j].0 && moves[i].1 != moves[j].1)
    && (forall i, j :: 0 <= i < |moves| && 0 <= j < |moves| ==> moves[i].1 != moves[j].0)
  }

  /** Dropping the last move keeps the moves distinct, and the last move is unrelated to the earlier ones. */
  lemma LastMoveFresh(moves: seq<Move>)
    requires DistinctMoves(moves) && |moves| > 0
    ensures var init := moves[..|moves| - 1];
            var m := moves[|moves| - 1];
            && DistinctMoves(init)
            && m.0 != m.1
            && m.0 !in Sources(init) && m.0 !in Dests(init)
            && m.1 !in Sources(init) && m.1 !in Dests(init)
  {
    var n := |moves| - 1;
    var init := moves[..n];
    var m := moves[n];
    assert forall k :: 0 <= k < n ==> init[k] == moves[k];
    assert m.0 !in Sources(init) && m.0 !in Dests(init) by {
      forall k | 0 <= k < n ensures Sources(init)[k] != m.0 && Dests(init)[k] != m.0 {
        assert init[k] == moves[k];
      }
    }
    assert m.1 !in Sources(init) && m.1 !in Dests(init) by {
      forall k | 0 <= k < n ensures Sources(init)[k] != m.1 && Dests(init)[k] != m.1 {
        assert init[k] == moves[k];
      }
    }
  }

  /** A real run of distinct moves: every source that exists and can be renamed ends at its destination
      with its size and is gone from its old place; a source the system refuses to rename stays where it
      was, and the moves after it still happen; the result lists exactly the destinations reached. */
  lemma MoveLanding(files: Files, failing: set<string>, moves: seq<Move>)
    requires DistinctMoves(moves)
    ensures var r := ApplyMoves(files, failing, moves, false);
            && (forall k :: 0 <= k < |moves| && moves[k].0 in files && moves[k].0 !in failing ==>
                  moves[k].1 in r.files && r.files[moves[k].1] == files[moves[k].0] && moves[k].0 !in r.files)
            && (forall k :: 0 <= k < |moves| && moves[k].0 in files && moves[k].0 in failing ==>
                  moves[k].0 in r.files && r.files[moves[k].0] == files[moves[k].0])
            && r.listed == Dests(Filter(moves, Succeeds(files, failing)))
  {
    forall k | 0 <= k < |moves|
      ensures var r := ApplyMoves(files, failing, moves, false).files;
              && (moves[k].0 in files && moves[k].0 !in failing ==>
                    moves[k].1 in r && r[moves[k].1] == files[moves[k].0] && moves[k].0 !in r)
              && (moves[k].0 in files && moves[k].0 in failing ==> moves[k].0 in r && r[moves[k].0] == files[moves[k].0])
    {
      MoveLandingAt(files, failing, moves, k);
    }
    MovesListed(files, failing, moves);
  }

  /** `MoveLanding` for the move at index `k`. */
  lemma {:induction false} MoveLandingAt(files: Files, failing: set<string>, moves: seq<Move>, k: nat)
    requires DistinctMoves(moves) && k < |moves|
    ensures var r := ApplyMoves(files, failing, moves, false).files;
            && (moves[k].0 in files && moves[k].0 !in failing ==>
                  moves[k].1 in r && r[moves[k].1] == files[moves[k].0] && moves[k].0 !in r)
            && (moves[k].0 in files && moves[k].0 in failing ==> moves[k].0 in r && r[moves[k].0] == files[moves[k].0])
    decreases |moves|
  {
    var n := |moves| - 1;
    var init := moves[..n];
    var m := moves[n];
    LastMoveFresh(moves);
    var ri := ApplyMoves(files, failing, init, false);
    ApplyMovesLast(files, failing, moves, false);
    if k == n {
      MovesOnlyTouchCandidates(files, failing, init, false);
    } else {
      MoveLandingAt(files, failing, init, k);
      assert init[k] == moves[k];
      assert Sources(init)[k] == init[k].0 && Dests(init)[k] == init[k].1;
    }
  }

  /** A real run of distinct moves lists exactly the destinations of the moves that succeed. */
  lemma {:induction false} MovesListed(files: Files, failing: set<string>, moves: seq<Move>)
    requires DistinctMoves(moves)
    ensures ApplyMoves(files, failing, moves, false).listed == Dests(Filter(moves, Succeeds(files, failing)))
    decreases |moves|
  {
    if |moves| > 0 {
      var n := |moves| - 1;
      var init := moves[..n];
      var m := moves[n];
      LastMoveFresh(moves);
      MovesListed(files, failing, init);
      var ri := ApplyMoves(files, failing, init, false);
      UntouchedPath(files, failing, init, m.0);
      ApplyMovesLast(files, failing, moves, false);
      ListedStep(files, failing, init, m, ri);
      SplitLast(moves);
    }
  }

  /** A path that no move names is present after the run exactly when it was before. */
  lemma UntouchedPath(files: Files, failing: set<string>, moves: seq<Move>, p: string)
    requires p !in Sources(moves) && p !in Dests(moves)
    ensures p in ApplyMoves(files, failing, moves, false).files <==> p in files
  {
    MovesOnlyTouchCandidates(files, failing, moves, false);
  }

  /** One more move lists its destination exactly when it succeeds. */
  lemma ListedStep(files: Files, failing: set<string>, init: seq<Move>, m: Move, ri: Outcome)
    requires ri.listed == Dests(Filter(init, Succeeds(files, failing)))
    requires m.0 in ri.files <==> m.0 in files
    ensures MoveStep(ri, failing, m, false).listed == Dests(Filter(init + [m], Succeeds(files, failing)))
  {
    FilterSnoc(init, m, Succeeds(files, failing));
    var f := Filter(init, Succeeds(files, failing));
    assert Dests(f + [m]) == Dests(f) + [m.1];
  }

  /** Running `a` and then `b` is running `a + b`. */
  lemma {:induction false} ApplyMovesAppend(files: Files, failing: set<string>, a: seq<Move>, b: seq<Move>, dryRun: bool)
    ensures var ra := ApplyMoves(files, failing, a, dryRun);
            var rb := ApplyMoves(ra.files, failing, b, dryRun);
            ApplyMoves(files, failing, a + b, dryRun) == Outcome(rb.files, ra.listed + rb.listed)
    decreases |b|
  {
    if |b| == 0 {
      assert a + b == a;
    } else {
      var b' := b[..|b| - 1];
      assert (a + b)[..|a + b| - 1] == a + b';
      assert (a + b)[|a + b| - 1] == b[|b| - 1];
      ApplyMovesAppend(files, failing, a, b', dryRun);
    }
  }

  // ---------------------------------------------------------------------------------------------
  // delete_file

  /** The four paths `delete_file(path)` tries: the path itself and three siblings built from the path
      without its extension. */
  function DeleteCandidates(path: string): seq<string> {
    var stem := PathStem(path);
    [path, stem + ".png", stem + "_minimap.png", stem + "_minimap.jpg"]
  }

  /** One candidate of `delete_file`: nothing when it does not exist; listed in dry run; otherwise removed
      and listed when the removal succeeds. */
  function RemoveStep(e: Outcome, failing: set<string>, p: string, dryRun: bool): Outcome {
    if p !in e.files then e
    else if dryRun then Outcome(e.files, e.listed + [p])
    else if p in failing then e
    else Outcome(e.files - {p}, e.listed + [p])
  }

  function ApplyRemovals(files: Files, failing: set<string>, paths: seq<string>, dryRun: bool): Outcome
    decreases |paths|
  {
    if |paths| == 0 then Outcome(files, [])
    else RemoveStep(ApplyRemovals(files, failing, paths[..|paths| - 1], dryRun), failing, paths[|paths| - 1], dryRun)
  }

  /** Running deletions `a` and then `b` is running `a + b`. */
  lemma {:induction false} ApplyRemovalsAppend(files: Files, failing: set<string>, a: seq<string>, b: seq<string>, dryRun: bool)
    ensures var ra := ApplyRemovals(files, failing, a, dryRun);
            var rb := ApplyRemovals(ra.files, failing, b, dryRun);
            ApplyRemovals(files, failing, a + b, dryRun) == Outcome(rb.files, ra.listed + rb.listed)
    decreases |b|
  {
    if |b| == 0 {
      assert a + b == a;
    } else {
      var b' := b[..|b| - 1];
      assert (a + b)[..|a + b| - 1] == a + b';
      assert (a + b)[|a + b| - 1] == b[|b| - 1];
      ApplyRemovalsAppend(files, failing, a, b', dryRun);
    }
  }

  /** `delete_file`. */
  method DeleteFile(fs: FileSystem, path: string, dryRun: bool) returns (deleted: seq<string>)
    modifies fs
    ensures Outcome(fs.files, deleted) == ApplyRemovals(old(fs.files), fs.failing, DeleteCandidates(path), dryRun)
  {
    deleted := RunRemovals(fs, DeleteCandidates(path), dryRun);
  }

  /** The loop of `delete_file` over its candidates. */
  method RunRemovals(fs: FileSystem, candidates: seq<string>, dryRun: bool) returns (deleted: seq<string>)
    modifies fs
    ensures Outcome(fs.files, deleted) == ApplyRemovals(old(fs.files), fs.failing, candidates, dryRun)
  {
    deleted := [];
    for i := 0 to |candidates|
      invariant Outcome(fs.files, deleted) == ApplyRemovals(old(fs.files), fs.failing, candidates[..i], dryRun)
    {
      assert candidates[..i + 1][..i] == candidates[..i];
      var f := candidates[i];
      if f in fs.files {
        if dryRun {
          deleted := deleted + [f];
        } else {
          var ok := fs.Remove(f);
          if ok {
            deleted := deleted + [f];
          }
        }
      }
    }
    assert candidates[..|candidates|] == candidates;
  }

  function InFiles(files: Files): string -> bool {
    p => p in files
  }

  /** Deletion only ever lists candidates and only removes candidates; it never changes a size. */
  lemma {:induction false} RemovalsOnlyTouchCandidates(files: Files, failing: set<string>, paths: seq<string>, dryRun: bool)
    ensures var r := ApplyRemovals(files, failing, paths, dryRun);
            && (forall p :: p in r.listed ==> p in paths)
            && (forall p :: p in r.files ==> p in files && r.files[p] == files[p])
            && (forall p :: p in files && p !in paths ==> p in r.files)
    decreases |paths|
  {
    if |paths| > 0 {
      RemovalsOnlyTouchCandidates(files, failing, paths[..|paths| - 1], dryRun);
      assert forall p :: p in paths[..|paths| - 1] ==> p in paths;
    }
  }

  /** Dry run: nothing is removed, and the result lists the candidates that exist, in order. */
  lemma {:induction false} DryRunDeletesNothing(files: Files, failing: set<string>, paths: seq<string>)
    ensures ApplyRemovals(files, failing, paths, true) == Outcome(files, Filter(paths, InFiles(files)))
    decreases |paths|
  {
    if |paths| > 0 {
      DryRunDeletesNothing(files, failing, paths[..|paths| - 1]);
    }
  }

  /** A real run removes exactly the candidates the system lets it remove, and lists each removed file once. */
  lemma {:induction false} RealRemovals(files: Files, failing: set<string>, paths: seq<string>)
    ensures var r := ApplyRemovals(files, failing, paths, false);
            && r.files == files - (set p | p in paths && p !in failing)
            && (forall p :: p in r.listed <==> p in paths && p in files && p !in failing)
            && NoDuplicates(r.listed)
    decreases |paths|
  {
    if |paths| > 0 {
      var init := paths[..|paths| - 1];
      var last := paths[|paths| - 1];
      RealRemovals(files, failing, init);
      var ri := ApplyRemovals(files, failing, init, false);
      assert forall p :: p in paths <==> p in init || p == last by {
        SplitLast(paths);
      }
      if last in ri.files && last !in failing {
        var l := ri.listed + [last];
        assert last !in ri.listed;
        forall i, j | 0 <= i < j < |l| ensures l[i] != l[j] {
          if j == |l| - 1 {
            assert l[i] in ri.listed;
          } else {
            assert l[i] == ri.listed[i] && l[j] == ri.listed[j];
          }
        }
      }
    }
  }

  /** The three extra candidates are siblings of the XML: same directory, name = the XML's stem plus the suffix. */
  lemma DeleteCandidatesAreSiblings(path: string)
    ensures var c := DeleteCandidates(path);
            var stem := NameStem(Basename(path));
            && c[0] == path
            && DirPart(c[1]) == DirPart(path) && Basename(c[1]) == stem + ".png"
            && DirPart(c[2]) == DirPart(path) && Basename(c[2]) == stem + "_minimap.png"
            && DirPart(c[3]) == DirPart(path) && Basename(c[3]) == stem + "_minimap.jpg"
  {
    assert '/' !in ".png" && '/' !in "_minimap.png" && '/' !in "_minimap.jpg";
    var c := DeleteCandidates(path);
    var stem := PathStem(path);
    assert c[1] == stem + ".png" && c[2] == stem + "_minimap.png" && c[3] == stem + "_minimap.jpg";
    StemSibling(path, ".png");
    StemSibling(path, "_minimap.png");
    StemSibling(path, "_minimap.jpg");
  }

  /** A path under `blueprints/` is not under `images/`. */
  lemma BlueprintsNotImages(p: string)
    requires IsPrefix("blueprints/", p)
    ensures !IsPrefix(ImagesDir + "/", p)
  {
    assert p[0] == "blueprints/"[0] == 'b';
    assert (ImagesDir + "/")[0] == 'i';
  }

  /** For an XML under `blueprints/`, every candidate of `delete_file` is under `blueprints/` too:
      the group's images in `images/` are never among them. */
  lemma DeleteStaysBesideDefinition(path: string)
    requires IsPrefix("blueprints/", path)
    ensures forall c :: c in DeleteCandidates(path) ==> IsPrefix("blueprints/", c) && !IsPrefix(ImagesDir + "/", c)
  {
    var dir := "blueprints/";
    DirPartKeepsPrefix(path, dir);
    var stem := PathStem(path);
    PrefixOfAppend(dir, DirPart(path), NameStem(Basename(path)));
    PrefixOfAppend(dir, stem, ".png");
    PrefixOfAppend(dir, stem, "_minimap.png");
    PrefixOfAppend(dir, stem, "_minimap.jpg");
    BlueprintsNotImages(path);
    BlueprintsNotImages(stem + ".png");
    BlueprintsNotImages(stem + "_minimap.png");
    BlueprintsNotImages(stem + "_minimap.jpg");
  }

  // ---------------------------------------------------------------------------------------------
  // cleanup_orphaned_files

  /** The strategies the script offers; `backup` is handled by the same branch as `move`. */
  datatype Strategy = MoveStrategy | DeleteStrategy | BackupStrategy

  /** `input(...).lower()` checked against `['move', 'delete', 'backup']`; anything else keeps `move`. */
  function ParseStrategy(answer: string): Strategy {
    var a := Lower(answer);
    if a == "delete" then DeleteStrategy else if a == "backup" then BackupStrategy else MoveStrategy
  }

  /** `should_cleanup`: `auto_delete`, or an interactive run that is not a dry run and whose user typed `y`. */
  predicate ShouldCleanup(dryRun: bool, autoDelete: bool, isatty: bool, confirmAnswer: string) {
    autoDelete || (!dryRun && isatty && Lower(confirmAnswer) == "y")
  }

  /** The strategy: `move` under `auto_delete`, the user's answer in an interactive real run, `move` otherwise. */
  function ChosenStrategy(dryRun: bool, autoDelete: bool, isatty: bool, strategyAnswer: string): Strategy {
    if autoDelete then MoveStrategy
    else if !dryRun && isatty then ParseStrategy(strategyAnswer)
    else MoveStrategy
  }

  /** `strategy in ['move', 'backup'] or auto_delete`. */
  predicate MovesFiles(strategy: Strategy, autoDelete: bool) {
    strategy == MoveStrategy || strategy == BackupStrategy || autoDelete
  }

  /** Every move of every group, group after group. */
  function AllMoves(groups: seq<Group>): seq<Move>
    decreases |groups|
  {
    if |groups| == 0 then [] else AllMoves(groups[..|groups| - 1]) + MoveCandidates(groups[|groups| - 1])
  }

  /** Every deletion candidate of every group that has an XML file. */
  function AllDeletions(groups: seq<Group>): seq<string>
    decreases |groups|
  {
    if |groups| == 0 then []
    else
      var g := groups[|groups| - 1];
      AllDeletions(groups[..|groups| - 1]) + (if g.xml.Some? then DeleteCandidates(g.xml.value) else [])
  }

  /** What the cleanup step does to the orphaned groups: nothing unless `should_cleanup`; otherwise the
      moves (note: always with `dry_run=False`) or the deletions. */
  function CleanupEffect(files: Files, failing: set<string>, orphaned: seq<Group>, dryRun: bool, autoDelete: bool,
                         isatty: bool, confirmAnswer: string, strategyAnswer: string): Outcome
  {
    if !ShouldCleanup(dryRun, autoDelete, isatty, confirmAnswer) then Outcome(files, [])
    else if MovesFiles(ChosenStrategy(dryRun, autoDelete, isatty, strategyAnswer), autoDelete) then
      ApplyMoves(files, failing, AllMoves(orphaned), false)
    else ApplyRemovals(files, failing, AllDeletions(orphaned), false)
  }

  /** Whether a group has an XML file (`if group['xml']`). */
  function HasXml(): Group -> bool {
    (g: Group) => g.xml.Some?
  }

  /** The delete branch handles only the groups that have an XML file: the others add no deletion. */
  lemma {:induction false} DeletionsOnlyWithXml(groups: seq<Group>)
    ensures AllDeletions(groups) == AllDeletions(Filter(groups, HasXml()))
    decreases |groups|
  {
    if |groups| > 0 {
      var init, g := groups[..|groups| - 1], groups[|groups| - 1];
      DeletionsOnlyWithXml(init);
      SplitLast(groups);
      FilterSnoc(init, g, HasXml());
      var kept := Filter(init, HasXml());
      if g.xml.Some? {
        assert (kept + [g])[..|kept + [g]| - 1] == kept;
      }
    }
  }

  /** The content of the JSON report `generate_cleanup_report` writes (its timestamp and file name aside). */
  datatype Report = Report(dryRun: bool, totalScanned: nat, validCount: nat, orphanedCount: nat, orphaned: seq<Group>)

  /** The return value of `cleanup_orphaned_files`, the report it writes (if any), the files its moves or
      deletions list, and whether it starts the index regeneration. */
  datatype CleanupResult = CleanupResult(success: bool, report: Option<Report>, processed: seq<string>, regenerateIndex: bool)

  /** The move branch of `cleanup_orphaned_files`: every group moved with `dry_run=False`. */
  method MoveGroups(fs: FileSystem, groups: seq<Group>) returns (processed: seq<string>)
    modifies fs
    ensures Outcome(fs.files, processed) == ApplyMoves(old(fs.files), fs.failing, AllMoves(groups), false)
  {
    processed := [];
    for i := 0 to |groups|
      invariant Outcome(fs.files, processed) == ApplyMoves(old(fs.files), fs.failing, AllMoves(groups[..i]), false)
    {
      assert groups[..i + 1][..i] == groups[..i];
      assert AllMoves(groups[..i + 1]) == AllMoves(groups[..i]) + MoveCandidates(groups[i]);
      ApplyMovesAppend(old(fs.files), fs.failing, AllMoves(groups[..i]), MoveCandidates(groups[i]), false);
      var moved := MoveBlueprintGroup(fs, groups[i], false);
      processed := processed + moved;
    }
    assert groups[..|groups|] == groups;
  }

  /** The delete branch of `cleanup_orphaned_files`: `delete_file` on the XML of every group that has one. */
  method DeleteGroups(fs: FileSystem, groups: seq<Group>) returns (processed: seq<string>)
    modifies fs
    ensures Outcome(fs.files, processed) == ApplyRemovals(old(fs.files), fs.failing, AllDeletions(groups), false)
  {
    processed := [];
    for i := 0 to |groups|
      invariant Outcome(fs.files, processed) == ApplyRemovals(old(fs.files), fs.failing, AllDeletions(groups[..i]), false)
    {
      assert groups[..i + 1][..i] == groups[..i];
      var g := groups[i];
      if g.xml.Some? {
        assert AllDeletions(groups[..i + 1]) == AllDeletions(groups[..i]) + DeleteCandidates(g.xml.value);
        ApplyRemovalsAppend(old(fs.files), fs.failing, AllDeletions(groups[..i]), DeleteCandidates(g.xml.value), false);
        var deleted := DeleteFile(fs, g.xml.value, false);
        processed := processed + deleted;
      } else {
        assert AllDeletions(groups[..i + 1]) == AllDeletions(groups[..i]) + [];
        assert AllDeletions(groups[..i]) + [] == AllDeletions(groups[..i]);
      }
    }
    assert groups[..|groups|] == groups;
  }

  /** Steps 1 and 2 of `cleanup_orphaned_files`: the (valid, orphaned) partition, or `None` when the
      valid ids cannot be fetched. */
  function Classify(files: Files, idOf: IdOf, xmls: seq<string>, response: HttpResponse): (r: Option<(seq<Group>, seq<Group>)>)
    ensures r.Some? <==> ValidBlueprintIds(response).Some?
  {
    var validIds := ValidBlueprintIds(response);
    if validIds.None? then None else Some(Partition(files, idOf, xmls, validIds.value))
  }

  /** What `cleanup_orphaned_files` does with the partition: the filesystem afterwards and the result.
      A failed fetch returns False and touches nothing; no orphans returns True without a report;
      otherwise the cleanup step runs (or not) and the report is written. */
  function CleanupRun(files: Files, failing: set<string>, classified: Option<(seq<Group>, seq<Group>)>,
                      dryRun: bool, autoDelete: bool, isatty: bool, confirmAnswer: string, strategyAnswer: string)
    : (r: (Files, CleanupResult))
    ensures r.1.success <==> classified.Some?
    ensures !r.1.success ==> r.0 == files && r.1.report.None? && !r.1.regenerateIndex
    ensures !ShouldCleanup(dryRun, autoDelete, isatty, confirmAnswer) ==> r.0 == files && r.1.processed == []
    ensures dryRun && !autoDelete ==> r.0 == files && !r.1.regenerateIndex
    ensures r.1.regenerateIndex ==> !dryRun && ShouldCleanup(dryRun, autoDelete, isatty, confirmAnswer)
    ensures r.1.report.Some? ==> var rep := r.1.report.value;
              rep.dryRun == dryRun && rep.orphanedCount == |rep.orphaned| > 0
              && rep.totalScanned == rep.validCount + rep.orphanedCount
  {
    if classified.None? then (files, CleanupResult(false, None, [], false))
    else
      var valid := classified.value.0;
      var orphaned := classified.value.1;
      if orphaned == [] then (files, CleanupResult(true, None, [], false))
      else
        var e := CleanupEffect(files, failing, orphaned, dryRun, autoDelete, isatty, confirmAnswer, strategyAnswer);
        var report := Report(dryRun, |valid| + |orphaned|, |valid|, |orphaned|, orphaned);
        (e.files, CleanupResult(true, Some(report), e.listed, ShouldCleanup(dryRun, autoDelete, isatty, confirmAnswer) && !dryRun))
  }

  /** `backup` is handled by the move branch: any answer that lower-cases to `backup` has exactly the
      effect of answering `move`. */
  lemma BackupIsMove(files: Files, failing: set<string>, classified: Option<(seq<Group>, seq<Group>)>,
                     dryRun: bool, autoDelete: bool, isatty: bool, confirmAnswer: string, strategyAnswer: string)
    requires Lower(strategyAnswer) == "backup"
    ensures CleanupRun(files, failing, classified, dryRun, autoDelete, isatty, confirmAnswer, strategyAnswer)
            == CleanupRun(files, failing, classified, dryRun, autoDelete, isatty, confirmAnswer, "move")
  {
    assert Lower("move") == "move";
    assert ParseStrategy(strategyAnswer) == BackupStrategy;
    assert ParseStrategy("move") == MoveStrategy;
  }

  /** `cleanup_orphaned_files`. The two `input()` answers and `sys.stdin.isatty()` are parameters. */
  method CleanupOrphanedFiles(fs: FileSystem, docs: map<string, Element>, globbed: seq<string>, response: HttpResponse,
                              dryRun: bool, autoDelete: bool, isatty: bool, confirmAnswer: string, strategyAnswer: string)
    returns (result: CleanupResult)
    modifies fs
    ensures (fs.files, result) == CleanupRun(old(fs.files), fs.failing,
                                             Classify(old(fs.files), IdReader(docs), ScanLocalFiles(globbed), response),
                                             dryRun, autoDelete, isatty, confirmAnswer, strategyAnswer)
  {
    var validIds := ValidBlueprintIds(response);
    if validIds.None? {
      return CleanupResult(false, None, [], false);
    }
    var valid, orphaned := IdentifyOrphanedFiles(fs, docs, globbed, validIds.value);
    result := ProcessGroups(fs, valid, orphaned, dryRun, autoDelete, isatty, confirmAnswer, strategyAnswer);
  }

  /** Step 4 of `cleanup_orphaned_files`: whether to clean up at all. */
  method DecideCleanup(dryRun: bool, autoDelete: bool, isatty: bool, confirmAnswer: string) returns (shouldCleanup: bool)
    ensures shouldCleanup <==> ShouldCleanup(dryRun, autoDelete, isatty, confirmAnswer)
  {
    shouldCleanup := false;
    if autoDelete {
      shouldCleanup := true;
    } else if !dryRun {
      if isatty {
        shouldCleanup := Lower(confirmAnswer) == "y";
      } else {
        shouldCleanup := false;
      }
    }
  }

  /** Step 5 of `cleanup_orphaned_files`: the strategy, `move` unless an interactive real run asks otherwise. */
  method DecideStrategy(dryRun: bool, autoDelete: bool, isatty: bool, strategyAnswer: string) returns (strategy: Strategy)
    ensures strategy == ChosenStrategy(dryRun, autoDelete, isatty, strategyAnswer)
  {
    strategy := MoveStrategy;
    if autoDelete {
      strategy := MoveStrategy;
    } else if !dryRun && isatty {
      strategy := ParseStrategy(strategyAnswer);
    }
  }

  /** Steps 3 to 7 of `cleanup_orphaned_files`, once the groups are known. */
  method ProcessGroups(fs: FileSystem, valid: seq<Group>, orphaned: seq<Group>,
                       dryRun: bool, autoDelete: bool, isatty: bool, confirmAnswer: string, strategyAnswer: string)
    returns (result: CleanupResult)
    modifies fs
    ensures (fs.files, result) == CleanupRun(old(fs.files), fs.failing, Some((valid, orphaned)),
                                             dryRun, autoDelete, isatty, confirmAnswer, strategyAnswer)
  {
    if orphaned == [] {
      return CleanupResult(true, None, [], false);
    }
    var shouldCleanup := DecideCleanup(dryRun, autoDelete, isatty, confirmAnswer);
    var processed: seq<string> := [];
    var regenerate := false;
    if shouldCleanup {
      var strategy := DecideStrategy(dryRun, autoDelete, isatty, strategyAnswer);
      if strategy == MoveStrategy || strategy == BackupStrategy || autoDelete {
        processed := MoveGroups(fs, orphaned);
      } else {
        processed := DeleteGroups(fs, orphaned);
      }
      regenerate := !dryRun;
    }
    result := CleanupResult(true, Some(Report(dryRun, |valid| + |orphaned|, |valid|, |orphaned|, orphaned)), processed, regenerate);
  }

  // ---------------------------------------------------------------------------------------------
  // What the cleanup leaves alone

  predicate EndsWith(s: string, c: char) {
    |s| > 0 && s[|s| - 1] == c
  }

  lemma EndsWithAppend(a: string, b: string)
    requires |b| > 0
    ensures EndsWith(a + b, b[|b| - 1])
  {
  }

  /** Image paths end with their suffix's last character. */
  lemma ImagePathEnd(xml: string, suffix: string)
    requires '/' !in suffix && |suffix| > 0
    ensures EndsWith(ImagePath(xml, suffix), suffix[|suffix| - 1])
  {
    ImagePathShape(xml, suffix);
    EndsWithAppend("images/" + NameStem(Basename(xml)), suffix);
    assert "images/" + NameStem(Basename(xml)) + suffix == ("images/" + NameStem(Basename(xml))) + suffix;
  }

  /** Every quarantine destination lies under `.cleanup`. */
  lemma QuarantineMarked(p: string, dir: string)
    requires IsPrefix(CleanupMarker, dir) && dir[|dir| - 1] != '/'
    ensures Contains(QuarantineMove(p, dir).1, CleanupMarker)
  {
    var b := Basename(p);
    assert QuarantineMove(p, dir).1 == dir + "/" + b;
    Regroup(dir, "/", b, "");
    PrefixContained(CleanupMarker, dir, "/" + b);
  }

  /** The image fields of a group hold image paths: each ends in 'g' (".png", ".jpg"). */
  predicate ImagesEndInG(g: Group) {
    && (g.png.Some? ==> EndsWith(g.png.value, 'g'))
    && (g.minimapPng.Some? ==> EndsWith(g.minimapPng.value, 'g'))
    && (g.minimapJpg.Some? ==> EndsWith(g.minimapJpg.value, 'g'))
  }

  lemma RelatedImagesEndInG(files: Files, idOf: IdOf, xmls: seq<string>, id: string)
    ensures ImagesEndInG(RelatedGroup(files, idOf, xmls, id))
  {
    var g := RelatedGroup(files, idOf, xmls, id);
    if g.xml.Some? {
      assert '/' !in ".png" && '/' !in "_minimap.png" && '/' !in "_minimap.jpg";
      ImagePathEnd(g.xml.value, ".png");
      ImagePathEnd(g.xml.value, "_minimap.png");
      ImagePathEnd(g.xml.value, "_minimap.jpg");
    }
  }

  /** No move has `v` as its source or its destination. */
  predicate MovesAvoid(moves: seq<Move>, v: string) {
    forall m :: m in moves ==> m.0 != v && m.1 != v
  }

  lemma MovesAvoidAppend(a: seq<Move>, b: seq<Move>, v: string)
    requires MovesAvoid(a, v) && MovesAvoid(b, v)
    ensures MovesAvoid(a + b, v)
  {
  }

  /** The quarantine move of an image leaves alone a `v` that ends in 'l' and lies outside `.cleanup`. */
  lemma ImageMovesAvoid(p: Option<string>, v: string)
    requires p.Some? ==> EndsWith(p.value, 'g')
    requires EndsWith(v, 'l') && !Contains(v, CleanupMarker)
    ensures MovesAvoid(ImageMoves(p), v)
  {
    if p.Some? {
      assert IsPrefix(CleanupMarker, CleanupImagesDir);
      QuarantineMarked(p.value, CleanupImagesDir);
    }
  }

  /** The moves of one group whose XML is not `v` leave `v` alone. */
  lemma GroupMovesAvoid(o: Group, v: string)
    requires o.xml.Some? && o.xml.value != v && ImagesEndInG(o)
    requires EndsWith(v, 'l') && !Contains(v, CleanupMarker)
    ensures MovesAvoid(MoveCandidates(o), v)
  {
    assert IsPrefix(CleanupMarker, CleanupBlueprintsDir);
    QuarantineMarked(o.xml.value, CleanupBlueprintsDir);
    var xmlMove := [QuarantineMove(o.xml.value, CleanupBlueprintsDir)];
    assert MovesAvoid(xmlMove, v);
    ImageMovesAvoid(o.png, v);
    ImageMovesAvoid(o.minimapPng, v);
    ImageMovesAvoid(o.minimapJpg, v);
    MovesAvoidAppend(xmlMove, ImageMoves(o.png), v);
    MovesAvoidAppend(xmlMove + ImageMoves(o.png), ImageMoves(o.minimapPng), v);
    MovesAvoidAppend(xmlMove + ImageMoves(o.png) + ImageMoves(o.minimapPng), ImageMoves(o.minimapJpg), v);
  }

  /** The moves of groups whose XML is not `v` leave a definition file `v` outside `.cleanup` alone. */
  lemma {:induction false} AllMovesAvoid(gs: seq<Group>, v: string)
    requires forall o :: o in gs ==> o.xml.Some? && o.xml.value != v && ImagesEndInG(o)
    requires EndsWith(v, 'l') && !Contains(v, CleanupMarker)
    ensures MovesAvoid(AllMoves(gs), v)
    decreases |gs|
  {
    if |gs| > 0 {
      var init := gs[..|gs| - 1];
      var o := gs[|gs| - 1];
      assert forall x :: x in init ==> x in gs;
      AllMovesAvoid(init, v);
      GroupMovesAvoid(o, v);
      MovesAvoidAppend(AllMoves(init), MoveCandidates(o), v);
    }
  }

  /** The deletions of groups whose XML is not `v` never name a definition file `v`. */
  lemma {:induction false} AllDeletionsAvoid(gs: seq<Group>, v: string)
    requires forall o :: o in gs ==> o.xml.Some? ==> o.xml.value != v
    requires EndsWith(v, 'l')
    ensures v !in AllDeletions(gs)
    decreases |gs|
  {
    if |gs| > 0 {
      var init := gs[..|gs| - 1];
      var o := gs[|gs| - 1];
      assert forall x :: x in init ==> x in gs;
      AllDeletionsAvoid(init, v);
      if o.xml.Some? {
        DeletionsAvoid(o.xml.value, v);
      }
    }
  }

  /** `delete_file` on a path other than `v` never names a `v` that ends in 'l': every sibling is an image. */
  lemma DeletionsAvoid(path: string, v: string)
    requires path != v && EndsWith(v, 'l')
    ensures v !in DeleteCandidates(path)
  {
    ImageSuffixesEndInG();
    SiblingsAvoid(path, PathStem(path), ".png", "_minimap.png", "_minimap.jpg", v);
  }

  lemma SiblingsAvoid(path: string, stem: string, s1: string, s2: string, s3: string, v: string)
    requires path != v && EndsWith(v, 'l')
    requires EndsWith(s1, 'g') && EndsWith(s2, 'g') && EndsWith(s3, 'g')
    ensures v !in [path, stem + s1, stem + s2, stem + s3]
  {
    EndsDiffer(v, stem, s1);
    EndsDiffer(v, stem, s2);
    EndsDiffer(v, stem, s3);
  }

  lemma ImageSuffixesEndInG()
    ensures EndsWith(".png", 'g') && EndsWith("_minimap.png", 'g') && EndsWith("_minimap.jpg", 'g')
  {
  }

  /** A string ending in 'l' is none of the strings ending in `suffix`, when `suffix` ends in 'g'. */
  lemma EndsDiffer(v: string, stem: string, suffix: string)
    requires EndsWith(v, 'l') && EndsWith(suffix, 'g')
    ensures v != stem + suffix
  {
    EndsWithAppend(stem, suffix);
  }

  /** A 200 response whose body iterates as nothing (`[]`, `{}` or `""`) yields the empty set of valid
      ids, not `None`: no group is valid and every group found is orphaned. */
  lemma EmptyBodyOrphansAll(files: Files, idOf: IdOf, xmls: seq<string>)
    ensures var r := Classify(files, idOf, xmls, Response(200, Some([])));
            && r.Some? && r.value.0 == []
            && r.value.1 == GroupsFor(files, idOf, xmls, FirstSeenIds(idOf, xmls))
  {
    var ids := FirstSeenIds(idOf, xmls);
    FilterAll(ids, Rejects({}));
    FilterNone(ids, Selects({}));
  }

  /** Every group of the partition is the related group of its own id. */
  lemma PartitionGroupsAreRelated(files: Files, idOf: IdOf, xmls: seq<string>, validIds: set<Value>)
    ensures var parts := Partition(files, idOf, xmls, validIds);
            forall g :: g in parts.0 + parts.1 ==> g == RelatedGroup(files, idOf, xmls, g.blueprintId)
  {
    var parts := Partition(files, idOf, xmls, validIds);
    var valid, orphaned := parts.0, parts.1;
    forall g: Group | g in valid + orphaned ensures g == RelatedGroup(files, idOf, xmls, g.blueprintId) {
      if g in valid {
        var k :| 0 <= k < |valid| && valid[k] == g;
      } else {
        var k :| 0 <= k < |orphaned| && orphaned[k] == g;
      }
    }
  }

  /** A file `v` that is none of the orphaned groups' XML files, ends in 'l' and lies outside `.cleanup`
      keeps its entry through the cleanup step, whichever strategy runs. */
  lemma DefinitionUntouched(files: Files, failing: set<string>, orphaned: seq<Group>, v: string,
                            dryRun: bool, autoDelete: bool, isatty: bool, confirmAnswer: string, strategyAnswer: string)
    requires v in files && EndsWith(v, 'l') && !Contains(v, CleanupMarker)
    requires forall o :: o in orphaned ==> o.xml.Some? && o.xml.value != v && ImagesEndInG(o)
    ensures var after := CleanupEffect(files, failing, orphaned, dryRun, autoDelete, isatty, confirmAnswer, strategyAnswer).files;
            v in after && after[v] == files[v]
  {
    var moves := AllMoves(orphaned);
    AllMovesAvoid(orphaned, v);
    AllDeletionsAvoid(orphaned, v);
    assert v !in Sources(moves) && v !in Dests(moves) by {
      forall k | 0 <= k < |moves| ensures Sources(moves)[k] != v && Dests(moves)[k] != v {
        assert moves[k] in moves;
      }
    }
    MovesOnlyTouchCandidates(files, failing, moves, false);
    RemovalsOnlyTouchCandidates(files, failing, AllDeletions(orphaned), false);
  }

  /** Cleaning up the orphaned groups, by moving or by deleting, never removes or alters the XML file of a
      valid group (given that every listed definition file has the `.xml` extension, as the glob
      of `.xml` files under `blueprints` guarantees). */
  lemma ValidDefinitionsSurvive(files: Files, failing: set<string>, idOf: IdOf, globbed: seq<string>, validIds: set<Value>,
                                dryRun: bool, autoDelete: bool, isatty: bool, confirmAnswer: string, strategyAnswer: string)
    requires forall p :: p in globbed ==> IsSuffix(".xml", p)
    ensures var parts := Partition(files, idOf, ScanLocalFiles(globbed), validIds);
            var after := CleanupEffect(files, failing, parts.1, dryRun, autoDelete, isatty, confirmAnswer, strategyAnswer).files;
            forall g :: g in parts.0 && g.xml.Some? && g.xml.value in files ==>
              g.xml.value in after && after[g.xml.value] == files[g.xml.value]
  {
    var xmls := ScanLocalFiles(globbed);
    var parts := Partition(files, idOf, xmls, validIds);
    var orphaned := parts.1;
    PartitionProperties(files, idOf, xmls, validIds);
    PartitionGroupsAreRelated(files, idOf, xmls, validIds);
    forall o: Group | o in orphaned ensures ImagesEndInG(o) {
      assert o in parts.0 + parts.1;
      RelatedImagesEndInG(files, idOf, xmls, o.blueprintId);
    }
    forall g: Group | g in parts.0 && g.xml.Some? && g.xml.value in files
      ensures var after := CleanupEffect(files, failing, orphaned, dryRun, autoDelete, isatty, confirmAnswer, strategyAnswer).files;
              g.xml.value in after && after[g.xml.value] == files[g.xml.value]
    {
      var v := g.xml.value;
      assert g in parts.0 + parts.1;
      assert v in xmls && HasId(idOf, v, g.blueprintId);
      assert IsSuffix(".xml", v) && !Contains(v, CleanupMarker);
      assert EndsWith(v, 'l') by {
        assert v[|v| - 4..][3] == 'l';
      }
      forall o: Group | o in orphaned ensures o.xml.Some? && o.xml.value != v {
        assert o in parts.0 + parts.1;
        assert HasId(idOf, o.xml.value, o.blueprintId);
        assert Str(o.blueprintId) !in validIds;
      }
      DefinitionUntouched(files, failing, orphaned, v, dryRun, autoDelete, isatty, confirmAnswer, strategyAnswer);
    }
  }

  // ---------------------------------------------------------------------------------------------
  // The moves of one group never collide

  /** Distinct move lists whose paths are all unrelated concatenate to a distinct list. */
  lemma DistinctAppend(a: seq<Move>, b: seq<Move>)
    requires DistinctMoves(a) && DistinctMoves(b)
    requires forall m, n :: m in a && n in b ==> m.0 != n.0 && m.1 != n.1 && m.0 != n.1 && m.1 != n.0
    ensures DistinctMoves(a + b)
  {
    var r := a + b;
    forall i, j | 0 <= i < j < |r| ensures r[i].0 != r[j].0 && r[i].1 != r[j].1 {
      if j < |a| {
        assert r[i] == a[i] && r[j] == a[j];
      } else if i >= |a| {
        assert r[i] == b[i - |a|] && r[j] == b[j - |a|];
      } else {
        assert r[i] in a && r[j] in b;
      }
    }
    forall i, j | 0 <= i < |r| && 0 <= j < |r| ensures r[i].1 != r[j].0 {
      if i < |a| && j < |a| {
        assert r[i] == a[i] && r[j] == a[j];
      } else if i >= |a| && j >= |a| {
        assert r[i] == b[i - |a|] && r[j] == b[j - |a|];
      } else if i < |a| {
        assert r[i] in a && r[j] in b;
      } else {
        assert r[i] in b && r[j] in a;
      }
    }
  }

  /** Quarantining `pre + name`, where `pre` ends with '/' and `name` has none, moves it to `dir/name`. */
  lemma QuarantineOfPlain(dir: string, pre: string, name: string)
    requires |pre| > 0 && pre[|pre| - 1] == '/' && '/' !in name
    requires |dir| > 0 && dir[|dir| - 1] != '/'
    ensures QuarantineMove(pre + name, dir) == (pre + name, dir + "/" + name)
  {
    BasenameOfAppend(pre, name);
  }

  /** The quarantine move of the image `find_related_files` records for `suffix`, if any: from
      `images/<stem><suffix>` to `.cleanup/images/<stem><suffix>`. */
  lemma ImageMoveShape(files: Files, xml: string, suffix: string)
    requires '/' !in suffix
    ensures var stem := NameStem(Basename(xml));
            var moves := ImageMoves(ImageOf(files, xml, suffix));
            && |moves| <= 1
            && forall m :: m in moves ==> m == ("images/" + stem + suffix, CleanupImagesDir + "/" + stem + suffix)
  {
    var stem := NameStem(Basename(xml));
    var name := stem + suffix;
    NotInAppend(stem, suffix, '/');
    ImagePathShape(xml, suffix);
    var q := ImagePath(xml, suffix);
    Regroup("images/", stem, suffix, "");
    assert q == "images/" + name;
    QuarantineOfPlain(CleanupImagesDir, "images/", name);
    Regroup(CleanupImagesDir + "/", stem, suffix, "");
    assert QuarantineMove(q, CleanupImagesDir) == ("images/" + stem + suffix, CleanupImagesDir + "/" + stem + suffix);
  }

  /** Image moves with sources `p + s` and destinations `d + s`: one of them alone is distinct when `p` and
      `d` start differently, and two of them for different suffixes share no path. */
  lemma ImageMovesApart(a: seq<Move>, b: seq<Move>, p: string, d: string, s: string, t: string)
    requires |a| <= 1 && |b| <= 1
    requires forall m :: m in a ==> m == (p + s, d + s)
    requires forall m :: m in b ==> m == (p + t, d + t)
    requires s != t && |p| > 0 && |d| > 0 && p[0] != d[0]
    ensures DistinctMoves(a) && DistinctMoves(b)
    ensures forall m, n :: m in a && n in b ==> m.0 != n.0 && m.1 != n.1 && m.0 != n.1 && m.1 != n.0
  {
    assert forall x: string, y: string :: |x| > 0 ==> (x + y)[0] == x[0];
    forall m, n | m in a && n in b ensures m.0 != n.0 && m.1 != n.1 && m.0 != n.1 && m.1 != n.0 {
      assert (p + s)[|p|..] == s && (p + t)[|p|..] == t;
      assert (d + s)[|d|..] == s && (d + t)[|d|..] == t;
    }
    if |a| == 1 {
      assert a[0] in a;
    }
    if |b| == 1 {
      assert b[0] in b;
    }
  }

  /** Moves whose paths all end in `c1` and moves whose paths all end in `c2 != c1` share no path. */
  lemma EndingsApart(a: seq<Move>, b: seq<Move>, c1: char, c2: char)
    requires c1 != c2
    requires forall m :: m in a ==> EndsWith(m.0, c1) && EndsWith(m.1, c1)
    requires forall m :: m in b ==> EndsWith(m.0, c2) && EndsWith(m.1, c2)
    ensures forall m, n :: m in a && n in b ==> m.0 != n.0 && m.1 != n.1 && m.0 != n.1 && m.1 != n.0
  {
  }

  /** A quarantine destination ends like its source, for an ending other than '/'. */
  lemma QuarantineEnds(x: string, dir: string, c: char)
    requires EndsWith(x, c) && c != '/'
    requires |dir| > 0 && dir[|dir| - 1] != '/'
    ensures EndsWith(QuarantineMove(x, dir).1, c)
  {
    var b := Basename(x);
    assert b != "";
    assert b[|b| - 1] == c by {
      assert x[|x| - |b|..] == b;
    }
    EndsWithAppend(dir + "/", b);
  }

  /** The quarantine move of a definition file that ends in 'l' outside `.cleanup`: the destination ends
      in 'l' too, and differs from the source. */
  lemma DefinitionMoveShape(x: string)
    requires EndsWith(x, 'l') && !Contains(x, CleanupMarker)
    ensures var m := QuarantineMove(x, CleanupBlueprintsDir);
            EndsWith(m.1, 'l') && m.0 != m.1 && DistinctMoves([m])
  {
    QuarantineDirs();
    QuarantineEnds(x, CleanupBlueprintsDir, 'l');
    QuarantineMarked(x, CleanupBlueprintsDir);
  }

  /** Both quarantine directories lie under `.cleanup` and do not end with '/'. */
  lemma QuarantineDirs()
    ensures IsPrefix(CleanupMarker, CleanupBlueprintsDir) && IsPrefix(CleanupMarker, CleanupImagesDir)
    ensures |CleanupBlueprintsDir| > 0 && CleanupBlueprintsDir[|CleanupBlueprintsDir| - 1] != '/'
    ensures |CleanupImagesDir| > 0 && CleanupImagesDir[|CleanupImagesDir| - 1] != '/'
  {
  }

  /** The image moves of a group: each endpoint ends in 'g'. */
  lemma ImageMovesEndInG(files: Files, xml: string, suffix: string)
    requires '/' !in suffix && EndsWith(suffix, 'g')
    ensures forall m :: m in ImageMoves(ImageOf(files, xml, suffix)) ==> EndsWith(m.0, 'g') && EndsWith(m.1, 'g')
  {
    var stem := NameStem(Basename(xml));
    ImageMoveShape(files, xml, suffix);
    EndsWithAppend("images/" + stem, suffix);
    EndsWithAppend(CleanupImagesDir + "/" + stem, suffix);
  }

  /** A definition move followed by up to three image moves is distinct when the definition's paths end
      in 'l', the images' in 'g', the image suffixes differ, and image sources and destinations start
      differently. */
  lemma FourMovesDistinct(xm: seq<Move>, a: seq<Move>, b: seq<Move>, c: seq<Move>,
                          p: string, d: string, s1: string, s2: string, s3: string)
    requires DistinctMoves(xm) && forall m :: m in xm ==> EndsWith(m.0, 'l') && EndsWith(m.1, 'l')
    requires |a| <= 1 && forall m :: m in a ==> m == (p + s1, d + s1) && EndsWith(m.0, 'g') && EndsWith(m.1, 'g')
    requires |b| <= 1 && forall m :: m in b ==> m == (p + s2, d + s2) && EndsWith(m.0, 'g') && EndsWith(m.1, 'g')
    requires |c| <= 1 && forall m :: m in c ==> m == (p + s3, d + s3) && EndsWith(m.0, 'g') && EndsWith(m.1, 'g')
    requires s1 != s2 && s1 != s3 && s2 != s3 && |p| > 0 && |d| > 0 && p[0] != d[0]
    ensures DistinctMoves(xm + a + b + c)
  {
    ImagesDistinct(a, b, c, p, d, s1, s2, s3);
    EndingsApart(xm, a + b + c, 'l', 'g');
    DistinctAppend(xm, a + b + c);
    assert xm + (a + b + c) == xm + a + b + c;
  }

  /** Up to three image moves with different suffixes are distinct, and all their paths end in 'g'. */
  lemma ImagesDistinct(a: seq<Move>, b: seq<Move>, c: seq<Move>, p: string, d: string, s1: string, s2: string, s3: string)
    requires |a| <= 1 && forall m :: m in a ==> m == (p + s1, d + s1) && EndsWith(m.0, 'g') && EndsWith(m.1, 'g')
    requires |b| <= 1 && forall m :: m in b ==> m == (p + s2, d + s2) && EndsWith(m.0, 'g') && EndsWith(m.1, 'g')
    requires |c| <= 1 && forall m :: m in c ==> m == (p + s3, d + s3) && EndsWith(m.0, 'g') && EndsWith(m.1, 'g')
    requires s1 != s2 && s1 != s3 && s2 != s3 && |p| > 0 && |d| > 0 && p[0] != d[0]
    ensures DistinctMoves(a + b + c)
    ensures forall m :: m in a + b + c ==> EndsWith(m.0, 'g') && EndsWith(m.1, 'g')
  {
    ImageMovesApart(a, b, p, d, s1, s2);
    ImageMovesApart(a, c, p, d, s1, s3);
    ImageMovesApart(b, c, p, d, s2, s3);
    DistinctAppend(a, b);
    assert forall m :: m in a + b ==> m in a || m in b;
    DistinctAppend(a + b, c);
  }

  /** The three image suffixes differ, hold no '/', and end in 'g'. */
  lemma ImageSuffixFacts()
    ensures ".png" != "_minimap.png" && ".png" != "_minimap.jpg" && "_minimap.png" != "_minimap.jpg"
    ensures '/' !in ".png" && '/' !in "_minimap.png" && '/' !in "_minimap.jpg"
    ensures EndsWith(".png", 'g') && EndsWith("_minimap.png", 'g') && EndsWith("_minimap.jpg", 'g')
  {
  }

  /** The moves `move_blueprint_group` plans for a group that `find_related_files` builds from definition
      files ending in 'l' outside `.cleanup` never share a path: the XML and the images end differently,
      the images differ in their suffix, and their destinations start with '.' where their sources start
      with 'i'. */
  lemma RelatedMovesDistinct(files: Files, idOf: IdOf, xmls: seq<string>, id: string)
    requires forall p :: p in xmls ==> EndsWith(p, 'l') && !Contains(p, CleanupMarker)
    ensures DistinctMoves(MoveCandidates(RelatedGroup(files, idOf, xmls, id)))
  {
    var g := RelatedGroup(files, idOf, xmls, id);
    if g.xml.Some? {
      var x := g.xml.value;
      var stem := NameStem(Basename(x));
      ImageSuffixFacts();
      DefinitionMoveShape(x);
      ImageMovesEndInG(files, x, ".png");
      ImageMovesEndInG(files, x, "_minimap.png");
      ImageMovesEndInG(files, x, "_minimap.jpg");
      ImageMoveShape(files, x, ".png");
      ImageMoveShape(files, x, "_minimap.png");
      ImageMoveShape(files, x, "_minimap.jpg");
      QuarantineDirs();
      assert ("images/" + stem)[0] == 'i' && (CleanupImagesDir + "/" + stem)[0] == '.';
      FourMovesDistinct([QuarantineMove(x, CleanupBlueprintsDir)], ImageMoves(g.png), ImageMoves(g.minimapPng),
                        ImageMoves(g.minimapJpg), "images/" + stem, CleanupImagesDir + "/" + stem,
                        ".png", "_minimap.png", "_minimap.jpg");
    }
  }

  /** A real run of `move_blueprint_group` on a group of the partition: every file of the group that exists
      and can be renamed ends at its `.cleanup` path with its size and is gone from its old place, a file
      that cannot be renamed stays, and the files after it are still moved; the result lists exactly the
      destinations reached. */
  lemma PartitionGroupLanding(files: Files, failing: set<string>, idOf: IdOf, globbed: seq<string>,
                              validIds: set<Value>, g: Group)
    requires forall p :: p in globbed ==> IsSuffix(".xml", p)
    requires var parts := Partition(files, idOf, ScanLocalFiles(globbed), validIds);
             g in parts.0 + parts.1
    ensures DistinctMoves(MoveCandidates(g))
    ensures var moves := MoveCandidates(g);
            var r := ApplyMoves(files, failing, moves, false);
            && (forall k :: 0 <= k < |moves| && moves[k].0 in files && moves[k].0 !in failing ==>
                  moves[k].1 in r.files && r.files[moves[k].1] == files[moves[k].0] && moves[k].0 !in r.files)
            && (forall k :: 0 <= k < |moves| && moves[k].0 in files && moves[k].0 in failing ==>
                  moves[k].0 in r.files && r.files[moves[k].0] == files[moves[k].0])
            && r.listed == Dests(Filter(moves, Succeeds(files, failing)))
  {
    var xmls := ScanLocalFiles(globbed);
    PartitionGroupsAreRelated(files, idOf, xmls, validIds);
    forall p | p in xmls ensures EndsWith(p, 'l') && !Contains(p, CleanupMarker) {
      assert p in globbed;
      assert p[|p| - 4..][3] == 'l';
    }
    RelatedMovesDistinct(files, idOf, xmls, g.blueprintId);
    MoveLanding(files, failing, MoveCandidates(g));
  }

  // ---------------------------------------------------------------------------------------------
  // main

  /** What `main` decides before cleaning: exit early with a code, or run the cleanup with these flags. */
  datatype MainDecision = ExitEarly(code: int) | RunCleanup(dryRun: bool, autoDelete: bool)

  /** The flag logic of `main`. `ciVariable` is the `CI` environment variable (absent: `"false"`), and
      `answer` the line typed at the "yes/no" prompt (`None`: EOF). */
  function MainFlags(hasCredentials: bool, args: seq<string>, ciVariable: Option<string>, isatty: bool,
                     answer: Option<string>): (r: MainDecision)
    ensures !hasCredentials ==> r == ExitEarly(1)
    ensures hasCredentials && "--execute" !in args && "--auto-delete" !in args ==> r == RunCleanup(true, false)
    ensures r.RunCleanup? && r.autoDelete ==> !r.dryRun
    ensures r.RunCleanup? && !r.dryRun ==> "--execute" in args || "--auto-delete" in args
    ensures r.RunCleanup? && !r.dryRun && !r.autoDelete ==> isatty && answer.Some? && Lower(answer.value) == "yes"
    ensures hasCredentials && "--auto-delete" in args ==> r == RunCleanup(false, true)
    ensures r == ExitEarly(1) && hasCredentials ==> answer.None?
  {
    if !hasCredentials then ExitEarly(1)
    else
      var isCi := Lower(ciVariable.GetOr("false")) == "true" || !isatty;
      var dryRun := "--execute" !in args && "--auto-delete" !in args;
      var autoDelete := "--auto-delete" in args || ("--execute" in args && isCi);
      if !dryRun && !autoDelete then
        if isatty then
          match answer
          case None => ExitEarly(1)
          case Some(a) => if Lower(a) != "yes" then ExitEarly(0) else RunCleanup(dryRun, autoDelete)
        else ExitEarly(1)
      else RunCleanup(dryRun, autoDelete)
  }
}
