/** The `ContentPersistence` contract as a reference store: the persisted
    contents in insertion order, with category and title views. */
module ContentStore {
  import opened Wrappers
  import opened JavaText
  import opened AvContentModel
  import opened Ordering

  /** The persisted contents, oldest first. */
  type Store = seq<AvContent>

  /** The elements of `s` that satisfy `p`, in order. */
  function Where(s: seq<AvContent>, p: AvContent -> bool): (r: seq<AvContent>)
    ensures forall c :: c in r <==> c in s && p(c)
    ensures |r| <= |s|
  {
    if s == [] then []
    else
      var rest := Where(s[1..], p);
      assert forall c | c in s[1..] :: c in s;
      assert forall c | c in s && c != s[0] :: c in s[1..];
      if p(s[0]) then [s[0]] + rest else rest
  }

  /** The number of elements of `s` that satisfy `p`. */
  function Count(s: seq<AvContent>, p: AvContent -> bool): nat {
    if s == [] then 0 else (if p(s[0]) then 1 else 0) + Count(s[1..], p)
  }

  lemma {:induction false} WhereCount(s: seq<AvContent>, p: AvContent -> bool)
    ensures |Where(s, p)| == Count(s, p)
  {
    if s != [] {
      WhereCount(s[1..], p);
    }
  }

  /** Keeping `p` and keeping its negation split the store: every element is
      counted exactly once. */
  lemma {:induction false} CountSplit(s: seq<AvContent>, p: AvContent -> bool, q: AvContent -> bool)
    requires forall c :: q(c) == !p(c)
    ensures Count(s, p) + Count(s, q) == |s|
  {
    if s != [] {
      CountSplit(s[1..], p, q);
    }
  }

  lemma {:induction false} CountAppend(s: seq<AvContent>, t: seq<AvContent>, p: AvContent -> bool)
    ensures Count(s + t, p) == Count(s, p) + Count(t, p)
  {
    if s != [] {
      assert (s + t)[0] == s[0] && (s + t)[1..] == s[1..] + t;
      CountAppend(s[1..], t, p);
    } else {
      assert s + t == t;
    }
  }

  /** No element satisfying `p` means a count of zero. */
  lemma {:induction false} CountNone(s: seq<AvContent>, p: AvContent -> bool)
    requires forall k | 0 <= k < |s| :: !p(s[k])
    ensures Count(s, p) == 0
  {
    if s != [] {
      CountNone(s[1..], p);
    }
  }

  predicate InCategory(c: AvContent, category: string) {
    c.category == Some(category)
  }

  function IsIn(category: string): AvContent -> bool {
    c => InCategory(c, category)
  }

  function NotIn(category: string): AvContent -> bool {
    c => !InCategory(c, category)
  }

  /** The title contains the query (a content without a title never
      matches). */
  predicate TitleMatches(c: AvContent, query: string) {
    c.title.Some? && Contains(c.title.value, query)
  }

  /** The key alphabetical views sort by: the title, an absent one first. */
  function TitleKey(c: AvContent): string {
    c.title.GetOr("")
  }

  /** `insert(avContent)`: the content is persisted after the others. */
  function Insert(s: Store, c: AvContent): (r: Store)
    ensures |r| == |s| + 1 && r[..|s|] == s && r[|s|] == c
    ensures multiset(r) == multiset(s) + multiset{c}
  {
    s + [c]
  }

  /** `insert(list)`: every content of the list is persisted, in order,
      after the others. */
  function InsertAll(s: Store, cs: seq<AvContent>): (r: Store)
    ensures |r| == |s| + |cs| && r[..|s|] == s && r[|s|..] == cs
    ensures forall c :: c in r <==> c in s || c in cs
  {
    s + cs
  }

  /** `deleteCategory(category)`: the contents of that category are removed,
      the others stay in order. */
  function DeleteCategory(s: Store, category: string): (r: Store)
    ensures forall c :: c in r <==> c in s && !InCategory(c, category)
    ensures |r| <= |s|
  {
    Where(s, NotIn(category))
  }

  /** `deleteAll`: nothing is left. */
  function DeleteAll(s: Store): (r: Store)
    ensures |r| == 0
  {
    []
  }

  /** `size(category)`: the number of contents in the category. */
  function SizeOf(s: Store, category: string): (n: nat)
    ensures n <= |s|
  {
    CountSplit(s, IsIn(category), NotIn(category));
    Count(s, IsIn(category))
  }

  /** `getFromCategory(category, sorted)`: exactly the contents of the
      category, in store order or alphabetically by title. */
  function FromCategory(s: Store, category: string, sorted: bool): (r: seq<AvContent>)
    ensures forall c :: c in r <==> c in s && InCategory(c, category)
    ensures |r| == SizeOf(s, category)
    ensures sorted ==> SortedBy(r, TitleKey)
    ensures !sorted ==> r == Where(s, IsIn(category))
    ensures sorted ==> multiset(r) == multiset(Where(s, IsIn(category)))
  {
    var found := Where(s, IsIn(category));
    WhereCount(s, IsIn(category));
    if sorted then
      var r := SortBy(found, TitleKey);
      SameElements(r, found);
      r
    else found
  }

  /** `getFromTitle(title, sorted)`: exactly the contents whose title
      contains the query, in store order or alphabetically by title. */
  function FromTitle(s: Store, query: string, sorted: bool): (r: seq<AvContent>)
    ensures forall c :: c in r <==> c in s && TitleMatches(c, query)
    ensures sorted ==> SortedBy(r, TitleKey)
    ensures !sorted ==> r == Where(s, c => TitleMatches(c, query))
    ensures sorted ==> multiset(r) == multiset(FromTitle(s, query, false))
  {
    var found := Where(s, c => TitleMatches(c, query));
    if sorted then
      var r := SortBy(found, TitleKey);
      SameElements(r, found);
      r
    else found
  }

  /** Sequences with the same multiset have the same members. */
  lemma SameElements(a: seq<AvContent>, b: seq<AvContent>)
    requires multiset(a) == multiset(b)
    ensures forall c :: c in a <==> c in b
  {
    forall c ensures c in a <==> c in b {
      assert c in a <==> c in multiset(a);
      assert c in b <==> c in multiset(b);
    }
  }

  /** Deleting a category leaves none of it and keeps every other content:
      the store shrinks by exactly the category's size. */
  lemma DeleteCategorySize(s: Store, category: string)
    ensures SizeOf(DeleteCategory(s, category), category) == 0
    ensures |DeleteCategory(s, category)| == |s| - SizeOf(s, category)
  {
    var r := DeleteCategory(s, category);
    WhereCount(s, NotIn(category));
    CountSplit(s, IsIn(category), NotIn(category));
    CountSplit(r, IsIn(category), NotIn(category));
    CountNone(r, IsIn(category));
  }

  /** Inserting a list adds its members of the category to the category's
      size. */
  lemma InsertAllSize(s: Store, cs: seq<AvContent>, category: string)
    ensures SizeOf(InsertAll(s, cs), category) == SizeOf(s, category) + SizeOf(cs, category)
  {
    CountAppend(s, cs, IsIn(category));
  }

  /** Replacing a category (delete, then insert a list of that category)
      leaves the category holding exactly the list. */
  lemma ReplaceCategory(s: Store, cs: seq<AvContent>, category: string)
    requires forall c | c in cs :: InCategory(c, category)
    ensures SizeOf(InsertAll(DeleteCategory(s, category), cs), category) == |cs|
    ensures forall c :: c in FromCategory(InsertAll(DeleteCategory(s, category), cs), category, false) <==> c in cs
  {
    DeleteCategorySize(s, category);
    InsertAllSize(DeleteCategory(s, category), cs, category);
    CountSplit(cs, IsIn(category), NotIn(category));
    CountNone(cs, NotIn(category));
  }
}
