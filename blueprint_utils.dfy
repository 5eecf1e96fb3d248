/** `web/utils/blueprintUtils.ts`: what the web client derives from one index entry, and how it orders
    a list of entries. */
module BlueprintUtils {
  import opened Wrappers
  import opened Strings
  import opened Paths
  import Seqs
  import Cleanup

  /** An index entry as the client reads it (`BlueprintRaw` in `web/types.ts`). Counts are integers;
      `dt` is the upload time as `new Date(dt).getTime()` reads it. */
  datatype BlueprintRaw = BlueprintRaw(id: string, n: string, a: string, sid: string, c: string, v: string,
                                       t: string, w: int, h: int, m: seq<string>, p: string, s_l: int,
                                       s_d: int, s_dl: int, dt: int, ut: string, fe: int)

  /** `BlueprintDerived`: the raw entry and what `parseBlueprintData` adds to it. */
  datatype BlueprintDerived = BlueprintDerived(raw: BlueprintRaw, imageMain: string, imageMinimap: string,
                                               rating: Option<real>, comprehensiveScore: int)

  const BlueprintsPrefix := "blueprints/"
  const XmlSuffix := ".xml"

  /** `s.replace(/^prefix/, '')`. */
  function DropPrefix(s: string, prefix: string): (r: string)
    ensures IsPrefix(prefix, s) ==> s == prefix + r
    ensures !IsPrefix(prefix, s) ==> r == s
  {
    if IsPrefix(prefix, s) then s[|prefix|..] else s
  }

  /** `s.replace(/suffix$/, '')`. */
  function DropSuffix(s: string, suffix: string): (r: string)
    ensures IsSuffix(suffix, s) ==> s == r + suffix
    ensures !IsSuffix(suffix, s) ==> r == s
  {
    if IsSuffix(suffix, s) then s[..|s| - |suffix|] else s
  }

  /** `cleanPath`: the XML path without one leading `blueprints/` and then one trailing `.xml`. */
  function CleanPath(p: string): (r: string)
    ensures |p| - |BlueprintsPrefix| - |XmlSuffix| <= |r| <= |p|
  {
    DropSuffix(DropPrefix(p, BlueprintsPrefix), XmlSuffix)
  }

  /** `blueprints/<x>.xml` cleans to `<x>`, whatever `x` holds, so only one prefix and one suffix go. */
  lemma CleanPathOfDefinition(x: string)
    ensures CleanPath(BlueprintsPrefix + x + XmlSuffix) == x
  {
    var p := BlueprintsPrefix + x + XmlSuffix;
    assert p[..|BlueprintsPrefix|] == BlueprintsPrefix;
    assert p[|BlueprintsPrefix|..] == x + XmlSuffix;
    var s := x + XmlSuffix;
    assert s[|s| - |XmlSuffix|..] == XmlSuffix;
  }

  /** A path with neither the prefix nor the suffix is left as it is. */
  lemma CleanPathUnchanged(p: string)
    requires !IsPrefix(BlueprintsPrefix, p) && !IsSuffix(XmlSuffix, p)
    ensures CleanPath(p) == p
  {
  }

  function ImageMain(basePath: string, cleanPath: string): string {
    basePath + "images/" + cleanPath + ".png"
  }

  function ImageMinimap(basePath: string, cleanPath: string): string {
    basePath + "images/" + cleanPath + "_minimap.png"
  }

  /** The rating: `null` with five votes or fewer, otherwise the percentage of likes. */
  function Rating(likes: int, dislikes: int): (r: Option<real>)
    ensures r.None? <==> likes + dislikes <= 5
    ensures r.Some? && likes >= 0 && dislikes >= 0 ==> 0.0 <= r.value <= 100.0
  {
    var totalVotes := likes + dislikes;
    if totalVotes > 5 then
      var q := likes as real / totalVotes as real;
      assert likes >= 0 && dislikes >= 0 ==> 0.0 <= q <= 1.0 by {
        if likes >= 0 && dislikes >= 0 {
          assert q * totalVotes as real == likes as real;
          assert likes as real <= totalVotes as real;
        }
      }
      Some(q * 100.0)
    else None
  }

  /** The weighted score: downloads, five per like, fifty when featured. */
  function Score(raw: BlueprintRaw): (s: int)
    ensures raw.s_dl >= 0 && raw.s_l >= 0 && raw.fe >= 0 ==> s >= raw.s_dl && s >= 5 * raw.s_l
  {
    raw.s_dl * 1 + raw.s_l * 5 + raw.fe * 50
  }

  /** `parseBlueprintData(raw, basePath)`: the entry itself, unchanged, and what is derived from it. */
  function ParseBlueprintData(raw: BlueprintRaw, basePath: string): (d: BlueprintDerived)
    ensures d.raw == raw
    ensures d.rating.None? <==> raw.s_l + raw.s_d <= 5
    ensures d.rating.Some? && raw.s_l >= 0 && raw.s_d >= 0 ==> 0.0 <= d.rating.value <= 100.0
    ensures IsPrefix(basePath + "images/", d.imageMain) && IsSuffix(".png", d.imageMain)
    ensures IsPrefix(basePath + "images/", d.imageMinimap) && IsSuffix("_minimap.png", d.imageMinimap)
    ensures d.imageMain == basePath + "images/" + CleanPath(raw.p) + ".png"
    ensures d.imageMinimap == basePath + "images/" + CleanPath(raw.p) + "_minimap.png"
    ensures d.comprehensiveScore == Score(raw)
  {
    var cleanPath := CleanPath(raw.p);
    BlueprintDerived(raw, ImageMain(basePath, cleanPath), ImageMinimap(basePath, cleanPath),
                     Rating(raw.s_l, raw.s_d), Score(raw))
  }

  /** Facts about the constant path pieces. */
  lemma PieceFacts()
    ensures '/' !in XmlSuffix && '.' !in XmlSuffix[1..] && XmlSuffix[0] == '.'
    ensures '/' !in ".png" && '/' !in "_minimap.png"
  {
  }

  /** The stem Python's `os.path.splitext` gives for `blueprints/<x>.xml` is `<x>`. */
  lemma DefinitionStem(x: string)
    requires '/' !in x && exists k :: 0 <= k < |x| && x[k] != '.'
    ensures NameStem(Basename(BlueprintsPrefix + x + XmlSuffix)) == x
  {
    PieceFacts();
    var name := x + XmlSuffix;
    assert '/' !in name by {
      assert forall i :: 0 <= i < |name| ==> name[i] == if i < |x| then x[i] else XmlSuffix[i - |x|];
    }
    Regroup(BlueprintsPrefix, x, XmlSuffix, "");
    BasenameOfAppend(BlueprintsPrefix, name);
    NameStemOfExtension(x, XmlSuffix);
  }

  /** For a definition `blueprints/<x>.xml` directly under `blueprints/`, the client looks for its images
      where the cleanup script's `find_related_files` looks for them. */
  lemma ImageConventionsAgree(raw: BlueprintRaw, basePath: string, x: string)
    requires raw.p == BlueprintsPrefix + x + XmlSuffix
    requires '/' !in x && exists k :: 0 <= k < |x| && x[k] != '.'
    ensures ParseBlueprintData(raw, basePath).imageMain == basePath + Cleanup.ImagePath(raw.p, ".png")
    ensures ParseBlueprintData(raw, basePath).imageMinimap == basePath + Cleanup.ImagePath(raw.p, "_minimap.png")
  {
    PieceFacts();
    CleanPathOfDefinition(x);
    DefinitionStem(x);
    Cleanup.ImagePathShape(raw.p, ".png");
    Cleanup.ImagePathShape(raw.p, "_minimap.png");
    Regroup(basePath, "images/", x, ".png");
    Regroup(basePath, "images/", x, "_minimap.png");
  }

  // ---------------------------------------------------------------------------------------------
  // sortBlueprints

  /** The orders `sortBlueprints` knows; `score` and every other option fall to the default branch. */
  datatype SortOrder = Newest | Downloads | Likes | ByRating | ByScore

  /** The `switch (sortBy)` of the comparator. */
  function OrderOf(sortBy: string): (o: SortOrder)
    ensures sortBy !in ["newest", "downloads", "likes", "rating"] ==> o == ByScore
    ensures o == ByRating <==> sortBy == "rating"
  {
    match sortBy
    case "newest" => Newest
    case "downloads" => Downloads
    case "likes" => Likes
    case "rating" => ByRating
    case _ => ByScore
  }

  /** The number the comparator subtracts for an order: it orders by this, largest first.
      `rating` counts a missing rating as 0. */
  function Key(o: SortOrder, b: BlueprintDerived): real {
    match o
    case Newest => b.raw.dt as real
    case Downloads => b.raw.s_dl as real
    case Likes => b.raw.s_l as real
    case ByRating => if b.rating.Some? then b.rating.value else 0.0
    case ByScore => b.comprehensiveScore as real
  }

  /** The key for the option `sortBy`: an option it does not know orders by score. */
  function SortKey(sortBy: string, b: BlueprintDerived): (k: real)
    ensures sortBy !in ["newest", "downloads", "likes", "rating"] ==> k == b.comprehensiveScore as real
    ensures sortBy == "rating" && b.rating.None? ==> k == 0.0
  {
    Key(OrderOf(sortBy), b)
  }

  /** Non-increasing in the key of `o`. */
  predicate Ordered(o: SortOrder, s: seq<BlueprintDerived>) {
    forall i, j :: 0 <= i < j < |s| ==> Key(o, s[i]) >= Key(o, s[j])
  }

  /** Non-increasing in the key of the option `sortBy`. */
  predicate SortedBy(sortBy: string, s: seq<BlueprintDerived>) {
    Ordered(OrderOf(sortBy), s)
  }

  /** Puts `x` into the sorted `t` after every element whose key is at least its own (a stable insertion). */
  function Insert(o: SortOrder, t: seq<BlueprintDerived>, x: BlueprintDerived): (r: seq<BlueprintDerived>)
    requires Ordered(o, t)
    ensures Ordered(o, r)
    ensures multiset(r) == multiset(t) + multiset{x}
    ensures |r| == |t| + 1
    ensures forall y :: y in r ==> y in t || y == x
    decreases |t|
  {
    if |t| == 0 then [x]
    else
      var last := t[|t| - 1];
      var init := t[..|t| - 1];
      Seqs.SplitLast(t);
      OrderedInit(o, t);
      AboveLast(o, t);
      if Key(o, last) >= Key(o, x) then
        OrderedSnoc(o, t, x);
        t + [x]
      else
        var rest := Insert(o, init, x);
        OrderedSnoc(o, rest, last);
        rest + [last]
  }

  /** Every element of a list in order has a key at least that of the last one. */
  lemma AboveLast(o: SortOrder, s: seq<BlueprintDerived>)
    requires Ordered(o, s) && |s| > 0
    ensures forall y :: y in s ==> Key(o, y) >= Key(o, s[|s| - 1])
    ensures forall y :: y in s[..|s| - 1] ==> Key(o, y) >= Key(o, s[|s| - 1])
  {
    forall y | y in s[..|s| - 1] ensures Key(o, y) >= Key(o, s[|s| - 1]) {
      var k :| 0 <= k < |s| - 1 && s[..|s| - 1][k] == y;
      assert s[k] == y;
    }
  }

  /** Appending an element whose key is at most every key of a list in order keeps it in order. */
  lemma OrderedSnoc(o: SortOrder, s: seq<BlueprintDerived>, z: BlueprintDerived)
    requires Ordered(o, s)
    requires forall y :: y in s ==> Key(o, y) >= Key(o, z)
    ensures Ordered(o, s + [z])
  {
    var r := s + [z];
    forall i, j | 0 <= i < j < |r| ensures Key(o, r[i]) >= Key(o, r[j]) {
      if j == |s| {
        assert r[i] in s;
      } else {
        assert r[i] == s[i] && r[j] == s[j];
      }
    }
  }

  /** Insertion sort by the key of `o`, stable as `Array.prototype.sort` is. */
  function SortWith(blueprints: seq<BlueprintDerived>, o: SortOrder): (r: seq<BlueprintDerived>)
    ensures Ordered(o, r)
    ensures multiset(r) == multiset(blueprints)
    ensures |r| == |blueprints|
    decreases |blueprints|
  {
    if |blueprints| == 0 then []
    else
      var init := blueprints[..|blueprints| - 1];
      Seqs.SplitLast(blueprints);
      Insert(o, SortWith(init, o), blueprints[|blueprints| - 1])
  }

  /** `sortBlueprints(blueprints, sortBy)`: a sorted copy; the input list is a value and stays as it was. */
  function SortBlueprints(blueprints: seq<BlueprintDerived>, sortBy: string): (r: seq<BlueprintDerived>)
    ensures SortedBy(sortBy, r)
    ensures multiset(r) == multiset(blueprints)
    ensures |r| == |blueprints|
  {
    SortWith(blueprints, OrderOf(sortBy))
  }

  /** Every sorted element comes from the input and every input element is in the result. */
  lemma SortKeepsElements(blueprints: seq<BlueprintDerived>, sortBy: string)
    ensures forall b :: b in SortBlueprints(blueprints, sortBy) <==> b in blueprints
  {
    var r := SortBlueprints(blueprints, sortBy);
    forall b ensures b in r <==> b in blueprints {
      assert b in r <==> b in multiset(r);
      assert b in blueprints <==> b in multiset(blueprints);
    }
  }

  /** A list already in order comes back unchanged: equal keys keep their order. */
  lemma {:induction false} SortSortedIsIdentity(blueprints: seq<BlueprintDerived>, o: SortOrder)
    requires Ordered(o, blueprints)
    ensures SortWith(blueprints, o) == blueprints
    decreases |blueprints|
  {
    if |blueprints| > 0 {
      var init := blueprints[..|blueprints| - 1];
      var last := blueprints[|blueprints| - 1];
      OrderedInit(o, blueprints);
      SortSortedIsIdentity(init, o);
      InsertAtEnd(o, init, last);
      Seqs.SplitLast(blueprints);
    }
  }

  /** An element whose key is at most the last key of a list in order is inserted at the end. */
  lemma InsertAtEnd(o: SortOrder, t: seq<BlueprintDerived>, x: BlueprintDerived)
    requires Ordered(o, t) && (|t| > 0 ==> Key(o, t[|t| - 1]) >= Key(o, x))
    ensures Insert(o, t, x) == t + [x]
  {
  }

  /** Selects the blueprints whose key under `o` is `k`. */
  function KeyIs(o: SortOrder, k: real): BlueprintDerived -> bool {
    b => Key(o, b) == k
  }

  /** Inserting keeps, for every key, the elements with that key in the order of `t + [x]`. */
  lemma {:induction false} InsertStable(o: SortOrder, t: seq<BlueprintDerived>, x: BlueprintDerived, k: real)
    requires Ordered(o, t)
    ensures Seqs.Filter(Insert(o, t, x), KeyIs(o, k)) == Seqs.Filter(t + [x], KeyIs(o, k))
    decreases |t|
  {
    if |t| > 0 && Key(o, t[|t| - 1]) < Key(o, x) {
      var init := t[..|t| - 1];
      var last := t[|t| - 1];
      OrderedInit(o, t);
      Seqs.SplitLast(t);
      InsertPassesLast(o, t, x);
      InsertStable(o, init, x, k);
      // `last` and `x` have different keys, so at most one of them is selected.
      Seqs.FilterSnocSwap(init, Insert(o, init, x), last, x, KeyIs(o, k));
    } else {
      InsertAtEnd(o, t, x);
    }
  }

  /** An element with a greater key than the last one is inserted before it. */
  lemma InsertPassesLast(o: SortOrder, t: seq<BlueprintDerived>, x: BlueprintDerived)
    requires Ordered(o, t) && |t| > 0 && Key(o, t[|t| - 1]) < Key(o, x)
    requires Ordered(o, t[..|t| - 1])
    ensures Insert(o, t, x) == Insert(o, t[..|t| - 1], x) + [t[|t| - 1]]
  {
  }

  /** The sort is stable: for every key, the elements with that key keep their input order. */
  lemma {:induction false} SortStable(blueprints: seq<BlueprintDerived>, o: SortOrder, k: real)
    ensures Seqs.Filter(SortWith(blueprints, o), KeyIs(o, k)) == Seqs.Filter(blueprints, KeyIs(o, k))
    decreases |blueprints|
  {
    if |blueprints| > 0 {
      var init := blueprints[..|blueprints| - 1];
      var last := blueprints[|blueprints| - 1];
      Seqs.SplitLast(blueprints);
      SortStable(init, o, k);
      InsertStable(o, SortWith(init, o), last, k);
      Seqs.FilterSnoc(SortWith(init, o), last, KeyIs(o, k));
      Seqs.FilterSnoc(init, last, KeyIs(o, k));
    }
  }

  /** Dropping the last element keeps a list in order, and that element's key is at most its predecessor's. */
  lemma OrderedInit(o: SortOrder, s: seq<BlueprintDerived>)
    requires Ordered(o, s) && |s| > 0
    ensures Ordered(o, s[..|s| - 1])
    ensures |s| > 1 ==> Key(o, s[|s| - 2]) >= Key(o, s[|s| - 1])
  {
    var init := s[..|s| - 1];
    forall i, j | 0 <= i < j < |init| ensures Key(o, init[i]) >= Key(o, init[j]) {
      assert init[i] == s[i] && init[j] == s[j];
    }
  }

  /** Sorting twice is sorting once. */
  lemma SortIdempotent(blueprints: seq<BlueprintDerived>, sortBy: string)
    ensures SortBlueprints(SortBlueprints(blueprints, sortBy), sortBy) == SortBlueprints(blueprints, sortBy)
  {
    SortSortedIsIdentity(SortBlueprints(blueprints, sortBy), OrderOf(sortBy));
  }
}
