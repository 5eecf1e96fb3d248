/** The derived data of `web/App.tsx`: the category list, the filtered and sorted list of blueprints, and
    the interface language. */
module AppView {
  import opened Seqs
  import opened Strings
  import opened BlueprintUtils

  // ---------------------------------------------------------------------------------------------
  // Language

  datatype Language = En | Cn

  /** The initial language: Chinese when the browser language, lower-cased, starts with "zh". */
  function DetectLanguage(browserLanguage: string): (l: Language)
    ensures l == Cn <==> IsPrefix("zh", Lower(browserLanguage))
  {
    if IsPrefix("zh", Lower(browserLanguage)) then Cn else En
  }

  /** Any "zh" tag, in either case, selects Chinese; an English tag selects English. */
  lemma DetectLanguageExamples(region: string)
    ensures DetectLanguage("zh" + region) == Cn
    ensures DetectLanguage("ZH" + region) == Cn
    ensures DetectLanguage("en-US") == En
  {
    assert Lower("zh" + region)[..2] == "zh";
    assert Lower("ZH" + region)[..2] == "zh";
    assert Lower("en-US")[0] == 'e';
  }

  /** `toggleLanguage`: English and Chinese swap. */
  function ToggleLanguage(l: Language): (r: Language)
    ensures r != l
  {
    if l == En then Cn else En
  }

  lemma ToggleTwice(l: Language)
    ensures ToggleLanguage(ToggleLanguage(l)) == l
  {
  }

  // ---------------------------------------------------------------------------------------------
  // categories

  const AllCategories := "All"
  const Uncategorized := "Uncategorized"

  /** `b.c || 'Uncategorized'`. */
  function CategoryOf(b: BlueprintDerived): (c: string)
    ensures c != ""
  {
    if b.raw.c == "" then Uncategorized else b.raw.c
  }

  /** Strictly ascending in JavaScript's default string order, hence without duplicates. */
  predicate Ascending(s: seq<string>) {
    forall i, j :: 0 <= i < j < |s| ==> LexLess(s[i], s[j])
  }

  /** Adds `x` to the ascending `t` unless it is already there. */
  function InsertUnique(t: seq<string>, x: string): (r: seq<string>)
    requires Ascending(t)
    ensures Ascending(r)
    ensures forall y :: y in r <==> y in t || y == x
    decreases |t|
  {
    if |t| == 0 then [x]
    else
      var last := t[|t| - 1];
      var init := t[..|t| - 1];
      SplitLast(t);
      if x in t then t
      else if LexLess(last, x) then
        var r := t + [x];
        assert Ascending(r) by {
          forall i, j | 0 <= i < j < |r| ensures LexLess(r[i], r[j]) {
            if j == |r| - 1 && i < |t| - 1 {
              LexLessTransitive(r[i], last, x);
            }
          }
        }
        r
      else
        LexLessTotal(last, x);
        var rest := InsertUnique(init, x);
        assert forall y :: y in rest ==> LexLess(y, last) by {
          forall y | y in rest ensures LexLess(y, last) {
            if y != x {
              var k :| 0 <= k < |init| && init[k] == y;
              assert t[k] == y;
            }
          }
        }
        var r := rest + [last];
        assert Ascending(r) by {
          forall i, j | 0 <= i < j < |r| ensures LexLess(r[i], r[j]) {
            if j == |r| - 1 {
              assert r[i] in rest;
            } else {
              assert r[i] == rest[i] && r[j] == rest[j];
            }
          }
        }
        r
  }

  /** `Array.from(new Set(xs)).sort()`: the distinct elements in ascending order. */
  function SortedUnique(xs: seq<string>): (r: seq<string>)
    ensures Ascending(r)
    ensures forall y :: y in r <==> y in xs
    decreases |xs|
  {
    if |xs| == 0 then []
    else
      var init := xs[..|xs| - 1];
      SplitLast(xs);
      InsertUnique(SortedUnique(init), xs[|xs| - 1])
  }

  function CategoryNames(bs: seq<BlueprintDerived>): (r: seq<string>)
    ensures forall c :: c in r <==> exists b :: b in bs && CategoryOf(b) == c
  {
    var r := seq(|bs|, i requires 0 <= i < |bs| => CategoryOf(bs[i]));
    assert forall c :: c in r ==> exists b :: b in bs && CategoryOf(b) == c by {
      forall c | c in r ensures exists b :: b in bs && CategoryOf(b) == c {
        var i :| 0 <= i < |r| && r[i] == c;
        assert bs[i] in bs;
      }
    }
    assert forall b :: b in bs ==> CategoryOf(b) in r by {
      forall b | b in bs ensures CategoryOf(b) in r {
        var i :| 0 <= i < |bs| && bs[i] == b;
        assert r[i] == CategoryOf(b);
      }
    }
    r
  }

  /** `categories`: "All", then every category in use once, in ascending order. */
  function Categories(bs: seq<BlueprintDerived>): (r: seq<string>)
    ensures |r| >= 1 && r[0] == AllCategories
    ensures Ascending(r[1..])
    ensures forall c :: c in r[1..] <==> exists b :: b in bs && CategoryOf(b) == c
  {
    var rest := SortedUnique(CategoryNames(bs));
    assert ([AllCategories] + rest)[1..] == rest;
    [AllCategories] + rest
  }

  // ---------------------------------------------------------------------------------------------
  // filteredAndSortedBlueprints

  /** The search predicate for an already lower-cased term: name, author or category contains it. */
  predicate MatchesSearch(b: BlueprintDerived, lower: string) {
    Contains(Lower(b.raw.n), lower) || Contains(Lower(b.raw.a), lower) || Contains(Lower(b.raw.c), lower)
  }

  function Matches(lower: string): BlueprintDerived -> bool {
    b => MatchesSearch(b, lower)
  }

  function InCategory(selected: string): BlueprintDerived -> bool {
    b => CategoryOf(b) == selected
  }

  /** The search filter: an empty term keeps everything. */
  function SearchFiltered(bs: seq<BlueprintDerived>, searchTerm: string): (r: seq<BlueprintDerived>)
    ensures forall b :: b in r <==> b in bs && (searchTerm == "" || MatchesSearch(b, Lower(searchTerm)))
    ensures multiset(r) <= multiset(bs)
    ensures searchTerm == "" ==> r == bs
  {
    if searchTerm == "" then bs else Filter(bs, Matches(Lower(searchTerm)))
  }

  /** The category filter: "All" keeps everything. */
  function CategoryFiltered(bs: seq<BlueprintDerived>, selected: string): (r: seq<BlueprintDerived>)
    ensures forall b :: b in r <==> b in bs && (selected == AllCategories || CategoryOf(b) == selected)
    ensures multiset(r) <= multiset(bs)
    ensures selected == AllCategories ==> r == bs
  {
    if selected == AllCategories then bs else Filter(bs, InCategory(selected))
  }

  /** Whether a blueprint passes both filters. */
  predicate Shown(b: BlueprintDerived, searchTerm: string, selected: string) {
    && (searchTerm == "" || MatchesSearch(b, Lower(searchTerm)))
    && (selected == AllCategories || CategoryOf(b) == selected)
  }

  function ShownBy(searchTerm: string, selected: string): BlueprintDerived -> bool {
    b => Shown(b, searchTerm, selected)
  }

  /** The search filter followed by the category filter is one filter by `Shown`. */
  lemma FilteredAreShown(bs: seq<BlueprintDerived>, searchTerm: string, selected: string)
    ensures CategoryFiltered(SearchFiltered(bs, searchTerm), selected) == Filter(bs, ShownBy(searchTerm, selected))
  {
    var searched := SearchFiltered(bs, searchTerm);
    var bySearch: BlueprintDerived -> bool := b => searchTerm == "" || MatchesSearch(b, Lower(searchTerm));
    var byCategory: BlueprintDerived -> bool := b => selected == AllCategories || CategoryOf(b) == selected;
    if searchTerm == "" {
      FilterAll(bs, bySearch);
    } else {
      FilterAgree(bs, Matches(Lower(searchTerm)), bySearch);
    }
    if selected == AllCategories {
      FilterAll(searched, byCategory);
    } else {
      FilterAgree(searched, InCategory(selected), byCategory);
    }
    FilterFilter(bs, bySearch, byCategory, ShownBy(searchTerm, selected));
  }

  /** `filteredAndSortedBlueprints`: search, then category, then `sortBlueprints`. The result is the sort
      of the subsequence of blueprints passing both filters, every copy of a shown blueprint kept. */
  function FilteredAndSorted(bs: seq<BlueprintDerived>, searchTerm: string, selected: string, sortBy: string)
    : (r: seq<BlueprintDerived>)
    ensures SortedBy(sortBy, r)
    ensures multiset(r) <= multiset(bs)
    ensures forall b :: multiset(r)[b] == if Shown(b, searchTerm, selected) then multiset(bs)[b] else 0
    ensures forall b :: b in r <==> && b in bs
                                    && (searchTerm == "" || MatchesSearch(b, Lower(searchTerm)))
                                    && (selected == AllCategories || CategoryOf(b) == selected)
    ensures r == SortBlueprints(Filter(bs, ShownBy(searchTerm, selected)), sortBy)
  {
    var kept := CategoryFiltered(SearchFiltered(bs, searchTerm), selected);
    FilteredAreShown(bs, searchTerm, selected);
    FilterCount(bs, ShownBy(searchTerm, selected));
    SortKeepsElements(kept, sortBy);
    SortBlueprints(kept, sortBy)
  }

  /** With no search term and "All" selected the list is only sorted. */
  lemma NoFilterOnlySorts(bs: seq<BlueprintDerived>, sortBy: string)
    ensures FilteredAndSorted(bs, "", AllCategories, sortBy) == SortBlueprints(bs, sortBy)
  {
  }

  /** Every category the list offers, other than "All", selects at least one blueprint. */
  lemma OfferedCategoriesSelectSomething(bs: seq<BlueprintDerived>, c: string, sortBy: string)
    requires c in Categories(bs)[1..]
    ensures |FilteredAndSorted(bs, "", c, sortBy)| > 0
  {
    var b :| b in bs && CategoryOf(b) == c;
    assert b in FilteredAndSorted(bs, "", c, sortBy);
  }
}
