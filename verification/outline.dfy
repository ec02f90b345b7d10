/** The head of `extract_all_toc_entries_with_content`: from the PDF's bookmark
    list (`doc.get_toc()`) to `toc_flat`, the numbered sections in page order,
    one per start page. */
module Outline {
  import opened Wrappers
  import opened Strings
  import opened Sorting

  /** One bookmark `[level, title, start_page]` of the outline. */
  datatype TocEntry = TocEntry(level: int, title: string, startPage: int)

  /** One dictionary of `toc_flat`. The page walk fills in `end_page` and
      `content`; until then they are `None`. */
  datatype Section = Section(index: int, level: int, startPage: int, endPage: Option<int>,
                             title: string, content: Option<string>)

  // ---------------------------------------------------------------------------
  // list comprehensions with a condition

  function Filter<T>(s: seq<T>, keep: T -> bool): (r: seq<T>)
    ensures |r| <= |s|
  {
    if s == [] then [] else (if keep(s[0]) then [s[0]] else []) + Filter(s[1..], keep)
  }

  lemma {:induction false} FilterMembers<T>(s: seq<T>, keep: T -> bool, x: T)
    ensures x in Filter(s, keep) <==> x in s && keep(x)
  {
    if s != [] {
      FilterMembers(s[1..], keep, x);
      assert s == [s[0]] + s[1..];
    }
  }

  /** Filtering a concatenation filters each part. */
  lemma {:induction false} FilterConcat<T>(s: seq<T>, t: seq<T>, keep: T -> bool)
    ensures Filter(s + t, keep) == Filter(s, keep) + Filter(t, keep)
  {
    if s != [] {
      FilterConcat(s[1..], t, keep);
      assert (s + t)[0] == s[0] && (s + t)[1..] == s[1..] + t;
    } else {
      assert s + t == t;
    }
  }

  /** `title.strip() != "Blank Page"`. */
  predicate NotBlank(e: TocEntry) { Strip(e.title) != "Blank Page" }

  /** `e["level"] in (1, 2)`. */
  predicate TopLevels(e: TocEntry) { e.level == 1 || e.level == 2 }

  /** `toc_entries`: the bookmarks without the "Blank Page" placeholders. */
  function Entries(toc: seq<TocEntry>): seq<TocEntry> { Filter(toc, NotBlank) }

  /** `toc_level_1_2` before sorting. */
  function TopEntries(toc: seq<TocEntry>): seq<TocEntry> { Filter(Entries(toc), TopLevels) }

  // ---------------------------------------------------------------------------
  // numbering from zero or one

  /** The length of the run of '0's that opens `s`. */
  function LeadingZeros(s: string): (n: nat)
    ensures n <= |s|
  {
    if s != [] && s[0] == '0' then 1 + LeadingZeros(s[1..]) else 0
  }

  /** `re.match(r'^0+($|[^0-9])', title.strip())`: the greedy run of zeros
      cannot be followed by another digit, and since every shorter run is
      followed by a '0', backtracking finds no other match. */
  predicate ZeroIndexed(title: string)
  {
    var t := Strip(title);
    var n := LeadingZeros(t);
    n > 0 && (n == |t| || !IsDigit(t[n]))
  }

  /** `new_index + 1 * (not ZERO_INDEXED)`'s offset, read from the first bookmark
      of the outline, before any filtering. */
  function Base(toc: seq<TocEntry>): (b: int)
    requires toc != []
    ensures b == 0 || b == 1
    ensures b == 0 <==> var t := Strip(toc[0].title); DigitRun(t) > 0 && DigitsValue(t[..DigitRun(t)]) == 0
  {
    ZeroIndexedMeans(toc[0].title);
    if ZeroIndexed(toc[0].title) then 0 else 1
  }

  lemma {:induction false} LeadingZerosAreZeros(t: string)
    ensures LeadingZeros(t) <= DigitRun(t)
    ensures forall i :: 0 <= i < LeadingZeros(t) ==> t[i] == '0'
  {
    if t != [] && t[0] == '0' {
      LeadingZerosAreZeros(t[1..]);
    }
  }

  lemma {:induction false} ZerosCounted(t: string, k: nat)
    requires k <= |t| && forall i :: 0 <= i < k ==> t[i] == '0'
    ensures LeadingZeros(t) >= k
  {
    if k > 0 {
      ZerosCounted(t[1..], k - 1);
    }
  }

  /** A digit string has value 0 exactly when all its digits are '0'. */
  lemma {:induction false} ValueZero(d: string)
    requires AllDigits(d)
    ensures DigitsValue(d) == 0 <==> forall i :: 0 <= i < |d| ==> d[i] == '0'
  {
    if d != [] {
      var init := d[..|d| - 1];
      ValueZero(init);
      assert (forall i :: 0 <= i < |d| ==> d[i] == '0') <==>
        (forall i :: 0 <= i < |init| ==> init[i] == '0') && d[|d| - 1] == '0' by {
        assert forall i :: 0 <= i < |init| ==> init[i] == d[i];
      }
    }
  }

  /** The outline counts from zero exactly when the first title opens with a
      number whose value is 0 ("0", "00 Intro", "0. Intro"). */
  lemma ZeroIndexedMeans(title: string)
    ensures ZeroIndexed(title) <==>
      (var t := Strip(title); DigitRun(t) > 0 && DigitsValue(t[..DigitRun(t)]) == 0)
  {
    var t := Strip(title);
    var z := LeadingZeros(t);
    var k := DigitRun(t);
    var d := t[..k];
    LeadingZerosAreZeros(t);
    ValueZero(d);
    if ZeroIndexed(title) {
      assert k == z;
      forall i | 0 <= i < |d| ensures d[i] == '0' { assert d[i] == t[i]; }
    }
    if k > 0 && DigitsValue(d) == 0 {
      assert forall i :: 0 <= i < k ==> t[i] == '0' by {
        forall i | 0 <= i < k ensures t[i] == '0' { assert t[i] == d[i]; }
      }
      ZerosCounted(t, k);
    }
  }

  // ---------------------------------------------------------------------------
  // `toc_level_1_2.sort(key=lambda x: x["start_page"])`: a stable sort

  /** Each bookmark paired with its position in the list. */
  function Positioned<T>(s: seq<T>): (r: seq<(T, nat)>)
    ensures |r| == |s|
  {
    seq(|s|, i requires 0 <= i < |s| => (s[i], i))
  }

  /** By start page, and among equal start pages by position: a stable sort
      by start page orders the pairs this way. */
  predicate ByPage(a: (TocEntry, nat), b: (TocEntry, nat))
  {
    a.0.startPage < b.0.startPage || (a.0.startPage == b.0.startPage && a.1 <= b.1)
  }

  lemma ByPageTotal()
    ensures TotalPreorder(ByPage)
  {
  }

  function Firsts<T>(s: seq<(T, nat)>): (r: seq<T>)
    ensures |r| == |s|
  {
    seq(|s|, i requires 0 <= i < |s| => s[i].0)
  }

  /** The level-1 and level-2 bookmarks with their positions, sorted stably by page. */
  function SortedPairs(toc: seq<TocEntry>): (r: seq<(TocEntry, nat)>)
    ensures |r| == |TopEntries(toc)|
  {
    SortBy(Positioned(TopEntries(toc)), ByPage)
  }

  /** `toc_level_1_2` after sorting. */
  function SortedTop(toc: seq<TocEntry>): (r: seq<TocEntry>)
    ensures |r| == |TopEntries(toc)|
  {
    Firsts(SortedPairs(toc))
  }

  // ---------------------------------------------------------------------------
  // keeping the first entry of each start page

  /** The `seen_pages` loop: keeps an element when its key has not been seen. */
  function DedupBy<T>(s: seq<T>, key: T -> int, seen: set<int>): (r: seq<T>)
    ensures |r| <= |s|
  {
    if s == [] then []
    else if key(s[0]) in seen then DedupBy(s[1..], key, seen)
    else [s[0]] + DedupBy(s[1..], key, seen + {key(s[0])})
  }

  function Page(e: TocEntry): int { e.startPage }

  function PairPage(x: (TocEntry, nat)): int { x.0.startPage }

  /** `filtered_toc`. */
  function Deduped(toc: seq<TocEntry>): seq<TocEntry>
  {
    DedupBy(SortedTop(toc), Page, {})
  }

  /** `toc_flat`: the kept entries numbered from `base`. */
  function Number(entries: seq<TocEntry>, base: int): (r: seq<Section>)
    ensures |r| == |entries|
  {
    seq(|entries|, k requires 0 <= k < |entries| =>
      Section(k + base, entries[k].level, entries[k].startPage, None, entries[k].title, None))
  }

  function Flatten(toc: seq<TocEntry>): seq<Section>
    requires toc != []
  {
    Number(Deduped(toc), Base(toc))
  }

  /** The two loops that build `filtered_toc` and `toc_flat`; the comprehensions
      and the library sort before them are the functions above. */
  method FlattenToc(toc: seq<TocEntry>) returns (flat: seq<Section>)
    requires toc != []
    ensures flat == Flatten(toc)
  {
    var filtered := DropRepeatedPages(SortedTop(toc));
    flat := NumberSections(filtered, Base(toc));
  }

  /** The `seen_pages` loop: keeps the first bookmark of every start page. */
  method DropRepeatedPages(sorted: seq<TocEntry>) returns (filtered: seq<TocEntry>)
    ensures filtered == DedupBy(sorted, Page, {})
  {
    var seen: set<int> := {};
    filtered := [];
    for i := 0 to |sorted|
      invariant filtered + DedupBy(sorted[i..], Page, seen) == DedupBy(sorted, Page, {})
    {
      assert sorted[i..] == [sorted[i]] + sorted[i + 1..];
      if sorted[i].startPage !in seen {
        filtered := filtered + [sorted[i]];
        seen := seen + {sorted[i].startPage};
      }
    }
    assert sorted[|sorted|..] == [];
  }

  /** The numbering loop: section `k` gets index `k + base`. */
  method NumberSections(filtered: seq<TocEntry>, base: int) returns (flat: seq<Section>)
    ensures flat == Number(filtered, base)
  {
    flat := [];
    for k := 0 to |filtered|
      invariant flat == Number(filtered[..k], base)
    {
      flat := flat + [Section(k + base, filtered[k].level, filtered[k].startPage, None, filtered[k].title, None)];
    }
    assert filtered[..|filtered|] == filtered;
  }

  // ---------------------------------------------------------------------------
  // properties of DedupBy

  lemma {:induction false} DedupFrom<T>(s: seq<T>, key: T -> int, seen: set<int>, x: T)
    requires x in DedupBy(s, key, seen)
    ensures x in s && key(x) !in seen
  {
    if s != [] {
      if key(s[0]) in seen {
        DedupFrom(s[1..], key, seen, x);
      } else if x != s[0] {
        DedupFrom(s[1..], key, seen + {key(s[0])}, x);
      }
    }
  }

  ghost predicate Increasing<T>(s: seq<T>, key: T -> int)
  {
    forall i, j :: 0 <= i < j < |s| ==> key(s[i]) < key(s[j])
  }

  /** Over a list sorted by key, the kept keys strictly increase. */
  lemma {:induction false} DedupIncreasing<T>(s: seq<T>, key: T -> int, seen: set<int>)
    requires forall i, j :: 0 <= i < j < |s| ==> key(s[i]) <= key(s[j])
    ensures Increasing(DedupBy(s, key, seen), key)
  {
    if s != [] {
      if key(s[0]) in seen {
        DedupIncreasing(s[1..], key, seen);
      } else {
        var seen' := seen + {key(s[0])};
        var rest := DedupBy(s[1..], key, seen');
        DedupIncreasing(s[1..], key, seen');
        forall j | 0 <= j < |rest| ensures key(s[0]) < key(rest[j]) {
          DedupFrom(s[1..], key, seen', rest[j]);
          var m :| 0 <= m < |s[1..]| && s[1..][m] == rest[j];
          assert s[m + 1] == rest[j];
        }
      }
    }
  }

  /** Each kept element is the first of the list with its key. */
  lemma {:induction false} DedupFirst<T>(s: seq<T>, key: T -> int, seen: set<int>, j: nat) returns (i: nat)
    requires j < |DedupBy(s, key, seen)|
    ensures i < |s| && s[i] == DedupBy(s, key, seen)[j]
    ensures forall i' :: 0 <= i' < i ==> key(s[i']) != key(s[i])
  {
    var r := DedupBy(s, key, seen);
    if key(s[0]) in seen {
      var i1 := DedupFirst(s[1..], key, seen, j);
      i := i1 + 1;
      DedupFrom(s, key, seen, r[j]);
    } else if j == 0 {
      i := 0;
    } else {
      var seen' := seen + {key(s[0])};
      var i1 := DedupFirst(s[1..], key, seen', j - 1);
      i := i1 + 1;
      DedupFrom(s[1..], key, seen', r[j]);
    }
    forall i' | 0 <= i' < i ensures key(s[i']) != key(s[i]) {
      if i' > 0 { assert s[i'] == s[1..][i' - 1]; }
    }
  }

  /** Every key of the list that was not already seen has a kept element. */
  lemma {:induction false} DedupCovers<T>(s: seq<T>, key: T -> int, seen: set<int>, i: nat) returns (j: nat)
    requires i < |s| && key(s[i]) !in seen
    ensures j < |DedupBy(s, key, seen)| && key(DedupBy(s, key, seen)[j]) == key(s[i])
  {
    if key(s[0]) in seen {
      j := DedupCovers(s[1..], key, seen, i - 1);
    } else if key(s[0]) == key(s[i]) {
      j := 0;
    } else {
      j := DedupCovers(s[1..], key, seen + {key(s[0])}, i - 1);
      j := j + 1;
    }
  }

  // ---------------------------------------------------------------------------
  // properties of the flattened outline

  lemma PositionedMember<T>(s: seq<T>, x: (T, nat))
    requires x in Positioned(s)
    ensures x.1 < |s| && x.0 == s[x.1]
  {
  }

  lemma SortedPairsSorted(toc: seq<TocEntry>)
    ensures SortedBy(SortedPairs(toc), ByPage)
  {
    ByPageTotal();
    SortSorted(Positioned(TopEntries(toc)), ByPage);
  }

  lemma SortedPairMember(toc: seq<TocEntry>, i: nat)
    requires i < |SortedPairs(toc)|
    ensures var x := SortedPairs(toc)[i]; x.1 < |TopEntries(toc)| && x.0 == TopEntries(toc)[x.1]
  {
    var x := SortedPairs(toc)[i];
    SortMembers(Positioned(TopEntries(toc)), ByPage, x);
    PositionedMember(TopEntries(toc), x);
  }

  /** The sorted level-1/2 list holds every level-1/2 bookmark at some place. */
  lemma SortedPairHas(toc: seq<TocEntry>, q: nat) returns (i: nat)
    requires q < |TopEntries(toc)|
    ensures i < |SortedPairs(toc)| && SortedPairs(toc)[i] == (TopEntries(toc)[q], q)
  {
    var x := (TopEntries(toc)[q], q);
    assert Positioned(TopEntries(toc))[q] == x;
    SortMembers(Positioned(TopEntries(toc)), ByPage, x);
    i :| 0 <= i < |SortedPairs(toc)| && SortedPairs(toc)[i] == x;
  }

  lemma {:induction false} DedupFirsts(s: seq<(TocEntry, nat)>, seen: set<int>)
    ensures DedupBy(Firsts(s), Page, seen) == Firsts(DedupBy(s, PairPage, seen))
  {
    if s != [] {
      assert Firsts(s)[1..] == Firsts(s[1..]);
      if PairPage(s[0]) in seen {
        DedupFirsts(s[1..], seen);
      } else {
        DedupFirsts(s[1..], seen + {PairPage(s[0])});
        assert Firsts([s[0]] + DedupBy(s[1..], PairPage, seen + {PairPage(s[0])}))
          == [s[0].0] + Firsts(DedupBy(s[1..], PairPage, seen + {PairPage(s[0])}));
      }
    }
  }

  /** `filtered_toc` seen through the pairs that remember outline positions. */
  lemma DedupedPairs(toc: seq<TocEntry>)
    ensures Deduped(toc) == Firsts(DedupBy(SortedPairs(toc), PairPage, {}))
  {
    DedupFirsts(SortedPairs(toc), {});
  }

  /** Sections are numbered consecutively from 0 when the first bookmark's title
      opens with a zero number, from 1 otherwise. */
  lemma FlattenIndices(toc: seq<TocEntry>)
    requires toc != []
    ensures forall k :: 0 <= k < |Flatten(toc)| ==>
      Flatten(toc)[k].index == k + (if ZeroIndexed(toc[0].title) then 0 else 1)
    ensures forall k :: 0 <= k < |Flatten(toc)| ==>
      Flatten(toc)[k].endPage == None && Flatten(toc)[k].content == None
  {
  }

  /** Start pages strictly increase along the flattened outline: they are
      sorted and no two sections share one. */
  lemma FlattenIncreasing(toc: seq<TocEntry>)
    requires toc != []
    ensures forall i, j :: 0 <= i < j < |Flatten(toc)| ==> Flatten(toc)[i].startPage < Flatten(toc)[j].startPage
  {
    var s := SortedTop(toc);
    forall i, j | 0 <= i < j < |s| ensures Page(s[i]) <= Page(s[j]) {
      SortedPairsSorted(toc);
      assert ByPage(SortedPairs(toc)[i], SortedPairs(toc)[j]);
    }
    DedupIncreasing(s, Page, {});
    forall i | 0 <= i < |Flatten(toc)| ensures Flatten(toc)[i].startPage == Page(Deduped(toc)[i]) {
    }
  }

  /** Each section is the FIRST level-1 or level-2 bookmark, in outline order
      and other than a "Blank Page", that starts on its page. */
  lemma FlattenSource(toc: seq<TocEntry>, k: nat) returns (p: nat)
    requires toc != [] && k < |Flatten(toc)|
    ensures p < |TopEntries(toc)|
    ensures var e := TopEntries(toc)[p]; var sec := Flatten(toc)[k];
      sec.level == e.level && sec.title == e.title && sec.startPage == e.startPage
    ensures forall q :: 0 <= q < p ==> TopEntries(toc)[q].startPage != TopEntries(toc)[p].startPage
  {
    var top := TopEntries(toc);
    var sp := SortedPairs(toc);
    var d := DedupBy(sp, PairPage, {});
    DedupedPairs(toc);
    assert Flatten(toc)[k].startPage == d[k].0.startPage;
    var i := DedupFirst(sp, PairPage, {}, k);
    SortedPairMember(toc, i);
    p := sp[i].1;
    forall q | 0 <= q < p ensures top[q].startPage != top[p].startPage {
      if top[q].startPage == top[p].startPage {
        var i' := SortedPairHas(toc, q);
        SortedPairsSorted(toc);
      }
    }
  }

  /** Every level-1 or level-2 bookmark's page starts some section. */
  lemma FlattenCovers(toc: seq<TocEntry>, q: nat) returns (k: nat)
    requires toc != [] && q < |TopEntries(toc)|
    ensures k < |Flatten(toc)| && Flatten(toc)[k].startPage == TopEntries(toc)[q].startPage
  {
    var sp := SortedPairs(toc);
    var i := SortedPairHas(toc, q);
    k := DedupCovers(sp, PairPage, {}, i);
    DedupedPairs(toc);
  }

  /** The bookmarks sections come from are level 1 or 2 and not "Blank Page". */
  lemma TopEntriesKept(toc: seq<TocEntry>, p: nat)
    requires p < |TopEntries(toc)|
    ensures TopLevels(TopEntries(toc)[p]) && NotBlank(TopEntries(toc)[p])
    ensures TopEntries(toc)[p] in toc
  {
    var e := TopEntries(toc)[p];
    FilterMembers(Entries(toc), TopLevels, e);
    FilterMembers(toc, NotBlank, e);
  }
}
