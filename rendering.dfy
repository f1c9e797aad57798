/** The policy document renderer shared by both versions of
    `PolicyGraph.generate_policy_text`: clauses grouped by category, the
    categories in the order in which they are first met, the clauses of a
    category sorted by id. The two versions differ only in the lines printed
    under a clause's `[id] title` line, which the caller passes as `detail`. */
module Rendering {
  import opened Text
  import opened Sequences

  /** What the renderer needs of one clause. */
  datatype DocItem = DocItem(id: string, title: string, category: string, detail: seq<string>)

  /** The categories of `items`, each once, in order of first occurrence
      (the key order of the `categories` dictionary). */
  function CategoryOrder(items: seq<DocItem>): seq<string>
    decreases |items|
  {
    if items == [] then []
    else
      var p := CategoryOrder(items[..|items| - 1]);
      var c := items[|items| - 1].category;
      if c in p then p else p + [c]
  }

  /** The items of one category, in their original order
      (the list `categories[c]`). */
  function Group(items: seq<DocItem>, cat: string): seq<DocItem>
    decreases |items|
  {
    if items == [] then []
    else
      var p := Group(items[..|items| - 1], cat);
      if items[|items| - 1].category == cat then p + [items[|items| - 1]] else p
  }

  /** Places `x` before the first item whose id is not smaller than its own,
      so that items with equal ids keep their order (Python's sort is
      stable). */
  function InsertById(x: DocItem, s: seq<DocItem>): (r: seq<DocItem>)
    ensures multiset(r) == multiset(s) + multiset{x}
    decreases |s|
  {
    if s == [] || !StrLess(s[0].id, x.id) then [x] + s
    else
      assert s == [s[0]] + s[1..];
      [s[0]] + InsertById(x, s[1..])
  }

  /** `sorted(clauses, key=lambda c: c.clause_id)` */
  function SortById(s: seq<DocItem>): (r: seq<DocItem>)
    ensures multiset(r) == multiset(s)
    decreases |s|
  {
    if s == [] then []
    else
      assert s == [s[0]] + s[1..];
      InsertById(s[0], SortById(s[1..]))
  }

  ghost predicate SortedById(s: seq<DocItem>) {
    forall i, j :: 0 <= i < j < |s| ==> !StrLess(s[j].id, s[i].id)
  }

  function ItemLines(it: DocItem): seq<string> {
    ["\n[" + it.id + "] " + it.title] + it.detail
  }

  function ItemsLines(s: seq<DocItem>): seq<string>
    decreases |s|
  {
    if s == [] then [] else ItemsLines(s[..|s| - 1]) + ItemLines(s[|s| - 1])
  }

  /** One category: the header line, its underline of `=` as long as the
      category name, then the category's items sorted by id. */
  function SectionLines(cat: string, group: seq<DocItem>): seq<string> {
    ["\n" + cat, Repeat('=', |cat|)] + ItemsLines(SortById(group))
  }

  function SectionsLines(cats: seq<string>, items: seq<DocItem>): seq<string>
    decreases |cats|
  {
    if cats == [] then []
    else SectionsLines(cats[..|cats| - 1], items) + SectionLines(cats[|cats| - 1], Group(items, cats[|cats| - 1]))
  }

  /** The entries of the `policy_text` list before they are joined. */
  function DocumentLines(items: seq<DocItem>): seq<string> {
    SectionsLines(CategoryOrder(items), items)
  }

  /** The first loop of `generate_policy_text`: the `categories`
      dictionary, its keys in insertion order and the list of each key. */
  method GroupByCategory(items: seq<DocItem>) returns (categories: map<string, seq<DocItem>>, keys: seq<string>)
    ensures keys == CategoryOrder(items)
    ensures forall c :: c in categories <==> c in keys
    ensures forall c :: c in categories ==> categories[c] == Group(items, c)
  {
    categories := map[];
    keys := [];
    for i := 0 to |items|
      invariant keys == CategoryOrder(items[..i])
      invariant forall c :: c in categories <==> c in keys
      invariant forall c :: c in categories ==> categories[c] == Group(items[..i], c)
    {
      var it := items[i];
      assert items[..i + 1][..i] == items[..i];
      assert items[..i + 1][i] == it;
      if it.category !in categories {
        GroupAbsent(items[..i], it.category);
        categories := categories[it.category := []];
        keys := keys + [it.category];
      }
      categories := categories[it.category := categories[it.category] + [it]];
      forall c | c in categories ensures categories[c] == Group(items[..i + 1], c) {
        assert Group(items[..i + 1], c) == if it.category == c then Group(items[..i], c) + [it] else Group(items[..i], c);
      }
    }
    assert items[..|items|] == items;
  }

  /** The entries `generate_policy_text` appends for one category: its
      header, its underline, then its items sorted by id. */
  method EmitSection(cat: string, group: seq<DocItem>) returns (lines: seq<string>)
    ensures lines == SectionLines(cat, group)
  {
    lines := ["\n" + cat];
    lines := lines + [Repeat('=', |cat|)];
    var sorted := SortById(group);
    var body := EmitItems(sorted);
    lines := lines + body;
  }

  /** The inner loop of `generate_policy_text`: each item's `[id] title`
      line followed by its detail lines. */
  method EmitItems(sorted: seq<DocItem>) returns (lines: seq<string>)
    ensures lines == ItemsLines(sorted)
  {
    lines := [];
    for k := 0 to |sorted|
      invariant lines == ItemsLines(sorted[..k])
    {
      assert sorted[..k + 1][..k] == sorted[..k];
      ghost var before := lines;
      lines := lines + ["\n[" + sorted[k].id + "] " + sorted[k].title];
      lines := lines + sorted[k].detail;
      assert lines == before + ItemLines(sorted[k]);
    }
    assert sorted[..|sorted|] == sorted;
  }

  /** `generate_policy_text`: emit each group under its header, and join
      the entries with newlines. */
  method RenderDocument(items: seq<DocItem>) returns (text: string)
    ensures text == Join(DocumentLines(items), "\n")
  {
    var categories, keys := GroupByCategory(items);
    var lines: seq<string> := [];
    for j := 0 to |keys|
      invariant lines == SectionsLines(keys[..j], items)
    {
      var cat := keys[j];
      assert keys[..j + 1][..j] == keys[..j];
      var section := EmitSection(cat, categories[cat]);
      lines := lines + section;
    }
    assert keys[..|keys|] == keys;
    text := Join(lines, "\n");
  }

  lemma {:induction false} GroupAbsent(items: seq<DocItem>, cat: string)
    requires cat !in CategoryOrder(items)
    ensures Group(items, cat) == []
    decreases |items|
  {
    if items != [] {
      var p := CategoryOrder(items[..|items| - 1]);
      assert cat !in p;
      GroupAbsent(items[..|items| - 1], cat);
    }
  }

  /** No category is printed twice. */
  lemma {:induction false} CategoryOrderNoDup(items: seq<DocItem>)
    ensures NoDup(CategoryOrder(items))
    decreases |items|
  {
    if items != [] {
      CategoryOrderNoDup(items[..|items| - 1]);
    }
  }

  /** Exactly the categories that occur among the items are printed. */
  lemma {:induction false} CategoryOrderMembers(items: seq<DocItem>, c: string)
    ensures c in CategoryOrder(items) <==> exists i :: 0 <= i < |items| && items[i].category == c
    decreases |items|
  {
    if items != [] {
      var n := |items| - 1;
      CategoryOrderMembers(items[..n], c);
      assert forall i :: 0 <= i < n ==> items[..n][i] == items[i];
    }
  }

  /** First-encounter order: the categories of any prefix of the items are
      printed first, in the same order, before any category first met
      later. */
  lemma {:induction false} CategoryOrderFirstEncounter(items: seq<DocItem>, q: nat)
    requires q <= |items|
    ensures CategoryOrder(items[..q]) <= CategoryOrder(items)
    decreases |items|
  {
    if q < |items| {
      var n := |items| - 1;
      assert items[..n][..q] == items[..q];
      CategoryOrderFirstEncounter(items[..n], q);
    } else {
      assert items[..q] == items;
    }
  }

  /** A group holds exactly the items of its category, in their original
      order. */
  lemma {:induction false} GroupIsCategoryFilter(items: seq<DocItem>, cat: string)
    ensures IsSubseq(Group(items, cat), items)
    ensures forall x :: x in Group(items, cat) <==> x in items && x.category == cat
    decreases |items|
  {
    if items != [] {
      var n := |items| - 1;
      GroupIsCategoryFilter(items[..n], cat);
      assert items == items[..n] + [items[n]];
      if items[n].category == cat {
        SubseqAppend(Group(items[..n], cat), items[..n], items[n]);
      } else {
        SubseqExtendRight(Group(items[..n], cat), items[..n], [items[n]]);
      }
    }
  }

  lemma {:induction false} InsertByIdSorted(x: DocItem, s: seq<DocItem>)
    requires SortedById(s)
    ensures SortedById(InsertById(x, s))
    decreases |s|
  {
    if s == [] || !StrLess(s[0].id, x.id) {
      forall j | 0 <= j < |s| ensures !StrLess(s[j].id, x.id) {
        if j > 0 && StrLess(s[j].id, x.id) {
          StrLessTotal(s[0].id, s[j].id);
          if StrLess(s[0].id, s[j].id) {
            StrLessTransitive(s[0].id, s[j].id, x.id);
          }
        }
      }
    } else {
      InsertByIdSorted(x, s[1..]);
      var r := InsertById(x, s[1..]);
      forall j | 0 <= j < |r| ensures !StrLess(r[j].id, s[0].id) {
        assert r[j] in multiset(s[1..]) + multiset{x};
        if r[j] == x {
          StrLessAsymmetric(s[0].id, x.id);
        } else {
          assert r[j] in s[1..];
        }
      }
    }
  }

  /** The items of a category come out sorted by id and are a rearrangement
      of the group. */
  lemma {:induction false} SortByIdSorted(s: seq<DocItem>)
    ensures SortedById(SortById(s))
    ensures multiset(SortById(s)) == multiset(s)
    decreases |s|
  {
    if s != [] {
      SortByIdSorted(s[1..]);
      InsertByIdSorted(s[0], SortById(s[1..]));
    }
  }

  lemma {:induction false} ItemsLinesHasHeads(s: seq<DocItem>, x: DocItem)
    requires x in s
    ensures ("\n[" + x.id + "] " + x.title) in ItemsLines(s)
    ensures forall d :: d in x.detail ==> d in ItemsLines(s)
    decreases |s|
  {
    var n := |s| - 1;
    if s[n] != x {
      assert s == s[..n] + [s[n]];
      ItemsLinesHasHeads(s[..n], x);
    }
  }

  lemma {:induction false} SectionsLinesHasSections(cats: seq<string>, items: seq<DocItem>, x: DocItem)
    requires x in items && x.category in cats
    ensures ("\n[" + x.id + "] " + x.title) in SectionsLines(cats, items)
    ensures forall d :: d in x.detail ==> d in SectionsLines(cats, items)
    decreases |cats|
  {
    var n := |cats| - 1;
    if cats[n] != x.category {
      assert cats == cats[..n] + [cats[n]];
      SectionsLinesHasSections(cats[..n], items, x);
    } else {
      GroupIsCategoryFilter(items, x.category);
      var g := Group(items, x.category);
      assert x in multiset(SortById(g));
      ItemsLinesHasHeads(SortById(g), x);
    }
  }

  /** Every clause is printed: its `[id] title` line and its detail lines
      are among the document's lines. */
  lemma EveryItemRendered(items: seq<DocItem>, x: DocItem)
    requires x in items
    ensures ("\n[" + x.id + "] " + x.title) in DocumentLines(items)
    ensures forall d :: d in x.detail ==> d in DocumentLines(items)
  {
    var i :| 0 <= i < |items| && items[i] == x;
    CategoryOrderMembers(items, x.category);
    SectionsLinesHasSections(CategoryOrder(items), items, x);
  }
}
