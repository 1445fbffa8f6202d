/**
 * The component palette's grouping step (`categorizedComponents` in the sidebar):
 * each component's `_category` string is split on '.', and the components are gathered
 * into category -> subcategory-or-"_" -> list, every level in first-insertion order.
 *
 * A JavaScript object used as a dictionary is modelled as an association list of
 * `Entry` values whose keys appear in first-insertion order (which is the order
 * `Object.keys` reports as long as no key looks like an array index).
 */
module Palette {
  import opened Wrappers
  import opened Seqs
  import opened Strings

  /** A palette component, reduced to what the grouping and the tree read from it. */
  datatype Component = Component(name: string, category: string)

  datatype Entry<V> = Entry(key: string, value: V)

  /** The components of one subcategory (or of the ungrouped bucket), in input order. */
  type Bucket = seq<Component>
  /** Subcategory-or-"_" -> bucket, for one category. */
  type Subcategories = seq<Entry<Bucket>>
  /** Category -> subcategories: the shape of `categorizedComponents`. */
  type Catalog = seq<Entry<Subcategories>>

  /** The bucket key of components that have no (or an empty) subcategory. */
  const Ungrouped: string := "_"

  // ---------------------------------------------------------------------------
  // Ordered dictionaries
  // ---------------------------------------------------------------------------

  function KeysOf<V>(d: seq<Entry<V>>): (ks: seq<string>)
    ensures |ks| == |d|
    ensures forall i :: 0 <= i < |d| ==> ks[i] == d[i].key
  {
    seq(|d|, i requires 0 <= i < |d| => d[i].key)
  }

  /** The position of key `k` in `d`, or `|d|` when `d` has no such key. */
  function IndexOf<V>(d: seq<Entry<V>>, k: string): (i: nat)
    ensures i <= |d|
    ensures i < |d| ==> d[i].key == k
    ensures forall j :: 0 <= j < i ==> d[j].key != k
  {
    if d == [] then 0
    else if d[0].key == k then 0
    else 1 + IndexOf(d[1..], k)
  }

  /** `!!d[k]`: whether the dictionary has key `k` (every value stored here is truthy). */
  predicate Has<V>(d: seq<Entry<V>>, k: string) {
    IndexOf(d, k) < |d|
  }

  function Get<V>(d: seq<Entry<V>>, k: string): V
    requires Has(d, k)
  {
    d[IndexOf(d, k)].value
  }

  /** The value under `k`, or `absent` when there is none. */
  function Lookup<V>(d: seq<Entry<V>>, k: string, absent: V): V {
    if Has(d, k) then Get(d, k) else absent
  }

  /** `if (!d[k]) { d[k] = init; }` */
  function Ensure<V>(d: seq<Entry<V>>, k: string, init: V): (r: seq<Entry<V>>)
    ensures Has(r, k)
  {
    if Has(d, k) then d
    else
      assert (d + [Entry(k, init)])[|d|].key == k;
      d + [Entry(k, init)]
  }

  /** `d[k] = v` for a key that is already present: its position does not change. */
  function Put<V>(d: seq<Entry<V>>, k: string, v: V): (r: seq<Entry<V>>)
    requires Has(d, k)
    ensures KeysOf(r) == KeysOf(d)
  {
    d[IndexOf(d, k) := Entry(k, v)]
  }

  lemma HasIffKey<V>(d: seq<Entry<V>>, k: string)
    ensures Has(d, k) <==> k in KeysOf(d)
  {
    if k in KeysOf(d) {
      var i :| 0 <= i < |d| && KeysOf(d)[i] == k;
      assert d[i].key == k;
    }
  }

  /** Positions depend on the keys alone. */
  lemma IndexOfKeys<V, W>(a: seq<Entry<V>>, b: seq<Entry<W>>, k: string)
    requires KeysOf(a) == KeysOf(b)
    ensures IndexOf(a, k) == IndexOf(b, k)
  {
    assert forall n :: 0 <= n < |a| ==> a[n].key == KeysOf(a)[n] == KeysOf(b)[n] == b[n].key;
  }

  lemma KeysEnsure<V>(d: seq<Entry<V>>, k: string, init: V)
    ensures KeysOf(Ensure(d, k, init)) == if Has(d, k) then KeysOf(d) else KeysOf(d) + [k]
  {
  }

  lemma LookupEnsure<V>(d: seq<Entry<V>>, k: string, init: V, k': string, absent: V)
    ensures Lookup(Ensure(d, k, init), k', absent)
         == if k' == k && !Has(d, k) then init else Lookup(d, k', absent)
  {
    if !Has(d, k) {
      var r := d + [Entry(k, init)];
      if Has(d, k') {
        assert IndexOf(r, k') == IndexOf(d, k') by {
          assert forall n :: 0 <= n < |d| ==> r[n] == d[n];
        }
      } else if k' == k {
        assert IndexOf(r, k') == |d| by {
          assert r[|d|].key == k';
          assert forall n :: 0 <= n < |d| ==> r[n] == d[n];
        }
      } else {
        assert forall n :: 0 <= n < |d| ==> r[n] == d[n];
      }
    }
  }

  lemma LookupPut<V>(d: seq<Entry<V>>, k: string, v: V, k': string, absent: V)
    requires Has(d, k)
    ensures Lookup(Put(d, k, v), k', absent) == if k' == k then v else Lookup(d, k', absent)
  {
    IndexOfKeys(Put(d, k, v), d, k');
  }

  // ---------------------------------------------------------------------------
  // Splitting the category string
  // ---------------------------------------------------------------------------

  /**
   * `let [category, subcategory] = s.split('.')`: the first segment, and the second one
   * when there is one (`undefined` otherwise); later segments are dropped.
   */
  function SplitCategory(s: string): (string, Option<string>) {
    var parts := Split(s, '.');
    (parts[0], if |parts| >= 2 then Some(parts[1]) else None)
  }

  /**
   * The category is the text before the first '.', the subcategory the text between the first
   * and the second '.', and whatever follows a second '.' is discarded.
   */
  lemma SplitCategorySegments(s: string)
    ensures var (cat, sub) := SplitCategory(s);
      && '.' !in cat
      && (sub == None <==> '.' !in s)
      && (sub == None ==> s == cat)
      && (sub.Some? ==>
            && '.' !in sub.value
            && IsPrefix(cat + "." + sub.value, s)
            && (|s| == |cat| + 1 + |sub.value| || s[|cat| + 1 + |sub.value|] == '.'))
  {
    var parts := Split(s, '.');
    JoinSplit(s, '.');
    if |parts| == 1 {
      assert s == parts[0];
    } else {
      assert s == parts[0] + ['.'] + JoinOn(parts[1..], '.');
      assert '.' in s by {
        assert s[|parts[0]|] == '.';
      }
      var tail := JoinOn(parts[1..], '.');
      if |parts| == 2 {
        assert tail == parts[1];
        assert s == parts[0] + "." + parts[1];
      } else {
        assert tail == parts[1] + ['.'] + JoinOn(parts[2..], '.');
        assert s == (parts[0] + "." + parts[1]) + ['.'] + JoinOn(parts[2..], '.');
      }
    }
  }

  function CategoryOf(c: Component): string {
    SplitCategory(c.category).0
  }

  /** The bucket a component goes to: its subcategory when that is truthy, `"_"` otherwise. */
  function BucketOf(c: Component): string {
    match SplitCategory(c.category).1
    case Some(sub) => if sub != "" then sub else Ungrouped
    case None => Ungrouped
  }

  // ---------------------------------------------------------------------------
  // The grouping
  // ---------------------------------------------------------------------------

  /** The effect of one iteration of the grouping loop on the dictionary built so far. */
  function AddComponent(g: Catalog, c: Component): Catalog {
    var cat, b := CategoryOf(c), BucketOf(c);
    var g1 := Ensure(g, cat, []);
    var subs := Ensure(Get(g1, cat), b, []);
    Put(g1, cat, Put(subs, b, Get(subs, b) + [c]))
  }

  /** The grouping of `cs`, as the loop leaves it after visiting `cs` in order. */
  function Categorized(cs: seq<Component>): Catalog {
    if cs == [] then [] else AddComponent(Categorized(cs[..|cs| - 1]), cs[|cs| - 1])
  }

  /** The callback of the `forEach`: pushes one component into its bucket, creating it when missing. */
  method PushComponent(groups: Catalog, component: Component) returns (result: Catalog)
    ensures result == AddComponent(groups, component)
  {
    var (category, subcategory) := SplitCategory(component.category);
    assert category == CategoryOf(component);
    result := Ensure(groups, category, []);
    var subs := Get(result, category);
    if subcategory.Some? && subcategory.value != "" {
      assert BucketOf(component) == subcategory.value;
      subs := Ensure(subs, subcategory.value, []);
      subs := Put(subs, subcategory.value, Get(subs, subcategory.value) + [component]);
    } else {
      assert BucketOf(component) == Ungrouped;
      subs := Ensure(subs, Ungrouped, []);
      subs := Put(subs, Ungrouped, Get(subs, Ungrouped) + [component]);
    }
    result := Put(result, category, subs);
  }

  lemma CategorizedStep(cs: seq<Component>, n: nat)
    requires n < |cs|
    ensures Categorized(cs[..n + 1]) == AddComponent(Categorized(cs[..n]), cs[n])
  {
    assert cs[..n + 1][..n] == cs[..n];
  }

  /** `categorizedComponents`: one pass over the components, pushing each into its bucket. */
  method CategorizeComponents(components: seq<Component>) returns (result: Catalog)
    ensures result == Categorized(components)
  {
    result := [];
    for n := 0 to |components|
      invariant result == Categorized(components[..n])
    {
      result := PushComponent(result, components[n]);
      CategorizedStep(components, n);
    }
    assert components[..|components|] == components;
  }

  // ---------------------------------------------------------------------------
  // What the grouping is: a reference description
  // ---------------------------------------------------------------------------

  function Categories(cs: seq<Component>): (r: seq<string>)
    ensures |r| == |cs| && forall i :: 0 <= i < |cs| ==> r[i] == CategoryOf(cs[i])
  {
    seq(|cs|, i requires 0 <= i < |cs| => CategoryOf(cs[i]))
  }

  /** The bucket keys of the components of category `cat`, in input order, with repeats. */
  function BucketNames(cs: seq<Component>, cat: string): seq<string> {
    if cs == [] then []
    else
      var last := cs[|cs| - 1];
      BucketNames(cs[..|cs| - 1], cat) + if CategoryOf(last) == cat then [BucketOf(last)] else []
  }

  /** The components of category `cat` whose bucket is `b`, in input order. */
  function Members(cs: seq<Component>, cat: string, b: string): (r: seq<Component>)
    ensures IsSubseq(r, cs)
    ensures forall x :: x in r <==> x in cs && CategoryOf(x) == cat && BucketOf(x) == b
  {
    if cs == [] then []
    else
      var init, last := cs[..|cs| - 1], cs[|cs| - 1];
      assert cs == init + [last];
      var r := Members(init, cat, b) + if CategoryOf(last) == cat && BucketOf(last) == b then [last] else [];
      assert r == Members(init, cat, b) || r[..|r| - 1] == Members(init, cat, b);
      r
  }

  /** The bucket `b` of category `cat` in a grouping, empty when there is none. */
  function BucketIn(g: Catalog, cat: string, b: string): Bucket {
    Lookup(Lookup(g, cat, []), b, [])
  }

  /** The category an added component goes to, with its bucket guaranteed to exist. */
  function TargetBuckets(g: Catalog, c: Component): Subcategories {
    Ensure(Lookup(g, CategoryOf(c), []), BucketOf(c), [])
  }

  lemma AddComponentUnfold(g: Catalog, c: Component, cat: string)
    ensures Lookup(AddComponent(g, c), cat, [])
         == if cat == CategoryOf(c) then
              Put(TargetBuckets(g, c), BucketOf(c), Get(TargetBuckets(g, c), BucketOf(c)) + [c])
            else Lookup(g, cat, [])
  {
    var ccat := CategoryOf(c);
    var g1 := Ensure(g, ccat, []);
    assert Get(g1, ccat) == Lookup(g, ccat, []) by {
      LookupEnsure(g, ccat, [], ccat, []);
    }
    var subs := TargetBuckets(g, c);
    LookupPut(g1, ccat, Put(subs, BucketOf(c), Get(subs, BucketOf(c)) + [c]), cat, []);
    LookupEnsure(g, ccat, [], cat, []);
  }

  lemma AddComponentCategories(g: Catalog, c: Component)
    ensures KeysOf(AddComponent(g, c)) == KeysOf(g) + if Has(g, CategoryOf(c)) then [] else [CategoryOf(c)]
  {
    var ccat := CategoryOf(c);
    assert KeysOf(AddComponent(g, c)) == KeysOf(Ensure(g, ccat, []));
    KeysEnsure(g, ccat, []);
  }

  lemma AddComponentBuckets(g: Catalog, c: Component, b: string)
    ensures var prev := Lookup(g, CategoryOf(c), []);
      && KeysOf(Lookup(AddComponent(g, c), CategoryOf(c), []))
         == KeysOf(prev) + (if Has(prev, BucketOf(c)) then [] else [BucketOf(c)])
      && Lookup(Lookup(AddComponent(g, c), CategoryOf(c), []), b, [])
         == Lookup(prev, b, []) + if b == BucketOf(c) then [c] else []
  {
    var cb := BucketOf(c);
    var prev := Lookup(g, CategoryOf(c), []);
    var subs := TargetBuckets(g, c);
    AddComponentUnfold(g, c, CategoryOf(c));
    KeysEnsure(prev, cb, []);
    LookupPut(subs, cb, Get(subs, cb) + [c], b, []);
    LookupEnsure(prev, cb, [], b, []);
    LookupEnsure(prev, cb, [], cb, []);
  }

  lemma AddComponentEffect(g: Catalog, c: Component, cat: string, b: string)
    ensures KeysOf(AddComponent(g, c))
         == KeysOf(g) + if Has(g, CategoryOf(c)) then [] else [CategoryOf(c)]
    ensures var subs := Lookup(g, cat, []);
      KeysOf(Lookup(AddComponent(g, c), cat, []))
        == if cat == CategoryOf(c) then KeysOf(subs) + (if Has(subs, BucketOf(c)) then [] else [BucketOf(c)])
           else KeysOf(subs)
    ensures BucketIn(AddComponent(g, c), cat, b)
         == BucketIn(g, cat, b) + if cat == CategoryOf(c) && b == BucketOf(c) then [c] else []
  {
    AddComponentCategories(g, c);
    if cat == CategoryOf(c) {
      AddComponentBuckets(g, c, b);
    } else {
      AddComponentUnfold(g, c, cat);
    }
  }

  /** Categories appear in the grouping in order of first occurrence. */
  lemma CategoriesSnoc(cs: seq<Component>)
    requires cs != []
    ensures Categories(cs) == Categories(cs[..|cs| - 1]) + [CategoryOf(cs[|cs| - 1])]
  {
  }

  lemma {:induction false} CategoryOrder(cs: seq<Component>)
    ensures KeysOf(Categorized(cs)) == Dedup(Categories(cs))
  {
    if cs != [] {
      var init, c := cs[..|cs| - 1], cs[|cs| - 1];
      var g, x := Categorized(init), CategoryOf(c);
      var before := Categories(init);
      var keys := KeysOf(g);
      assert keys == Dedup(before) by {
        CategoryOrder(init);
      }
      assert Dedup(Categories(cs)) == if x in before then Dedup(before) else Dedup(before) + [x] by {
        CategoriesSnoc(cs);
        DedupSnoc(before, x);
      }
      assert Has(g, x) <==> x in before by {
        HasIffKey(g, x);
        DedupMembers(before, x);
      }
      assert KeysOf(Categorized(cs)) == keys + if Has(g, x) then [] else [x] by {
        AddComponentCategories(g, c);
      }
    }
  }

  /** Within a category, bucket keys appear in order of first occurrence among its components. */
  lemma {:induction false} BucketOrder(cs: seq<Component>, cat: string)
    ensures KeysOf(Lookup(Categorized(cs), cat, [])) == Dedup(BucketNames(cs, cat))
  {
    if cs != [] {
      var init, c := cs[..|cs| - 1], cs[|cs| - 1];
      var g := Categorized(init);
      var names := BucketNames(init, cat);
      assert KeysOf(Lookup(g, cat, [])) == Dedup(names) by {
        BucketOrder(init, cat);
      }
      if CategoryOf(c) == cat {
        var x := BucketOf(c);
        assert BucketNames(cs, cat) == names + [x];
        DedupSnoc(names, x);
        assert Has(Lookup(g, cat, []), x) <==> x in names by {
          HasIffKey(Lookup(g, cat, []), x);
          DedupMembers(names, x);
        }
        AddComponentBuckets(g, c, "");
      } else {
        assert BucketNames(cs, cat) == names;
        AddComponentUnfold(g, c, cat);
      }
    }
  }

  /** Every bucket holds exactly the components that map to it, in input order. */
  lemma {:induction false} BucketContents(cs: seq<Component>, cat: string, b: string)
    ensures BucketIn(Categorized(cs), cat, b) == Members(cs, cat, b)
  {
    if cs != [] {
      var init, c := cs[..|cs| - 1], cs[|cs| - 1];
      BucketContents(init, cat, b);
      if cat == CategoryOf(c) {
        AddComponentBuckets(Categorized(init), c, b);
      } else {
        AddComponentUnfold(Categorized(init), c, cat);
      }
    }
  }

  /** Keys are distinct among the categories and among the buckets of each category. */
  predicate WellFormed(g: Catalog) {
    && Distinct(KeysOf(g))
    && forall i :: 0 <= i < |g| ==> Distinct(KeysOf(g[i].value))
  }

  lemma LookupDistinct<V>(d: seq<Entry<V>>, i: nat, absent: V)
    requires Distinct(KeysOf(d)) && i < |d|
    ensures Lookup(d, d[i].key, absent) == d[i].value
  {
    assert KeysOf(d)[i] == d[i].key;
  }

  lemma CategorizedWellFormed(cs: seq<Component>)
    ensures WellFormed(Categorized(cs))
  {
    var g := Categorized(cs);
    CategoryOrder(cs);
    forall i | 0 <= i < |g|
      ensures Distinct(KeysOf(g[i].value))
    {
      LookupDistinct(g, i, []);
      BucketOrder(cs, g[i].key);
    }
  }

  /** Every component of every bucket, category by category and bucket by bucket. */
  function Concat<V>(d: seq<Entry<V>>, f: V -> seq<Component>): seq<Component> {
    if d == [] then [] else Concat(d[..|d| - 1], f) + f(d[|d| - 1].value)
  }

  function BucketItems(b: Bucket): seq<Component> {
    b
  }

  function Items(subs: Subcategories): seq<Component> {
    Concat(subs, BucketItems)
  }

  function Flatten(g: Catalog): seq<Component> {
    Concat(g, Items)
  }

  lemma {:induction false} ConcatUpdate<V>(d: seq<Entry<V>>, i: nat, e: Entry<V>, f: V -> seq<Component>)
    requires i < |d|
    ensures multiset(Concat(d[i := e], f)) + multiset(f(d[i].value))
         == multiset(Concat(d, f)) + multiset(f(e.value))
  {
    var n := |d|;
    var d' := d[i := e];
    var p, last := d[..n - 1], d[n - 1];
    var tail := f(last.value);
    if i == n - 1 {
      assert d'[..n - 1] == p;
      assert Concat(d', f) == Concat(p, f) + f(e.value);
      assert Concat(d, f) == Concat(p, f) + tail;
      assert multiset(Concat(p, f) + f(e.value)) == multiset(Concat(p, f)) + multiset(f(e.value));
      assert multiset(Concat(p, f) + tail) == multiset(Concat(p, f)) + multiset(tail);
    } else {
      assert d'[..n - 1] == p[i := e];
      assert d'[n - 1] == last;
      assert p[i] == d[i];
      var a, b := Concat(p[i := e], f), Concat(p, f);
      assert multiset(a) + multiset(f(d[i].value)) == multiset(b) + multiset(f(e.value)) by {
        ConcatUpdate(p, i, e, f);
      }
      assert Concat(d', f) == a + tail;
      assert Concat(d, f) == b + tail;
      assert multiset(a + tail) == multiset(a) + multiset(tail);
      assert multiset(b + tail) == multiset(b) + multiset(tail);
      calc {
        multiset(Concat(d', f)) + multiset(f(d[i].value));
        multiset(a) + multiset(tail) + multiset(f(d[i].value));
        multiset(a) + multiset(f(d[i].value)) + multiset(tail);
        multiset(b) + multiset(f(e.value)) + multiset(tail);
        multiset(Concat(d, f)) + multiset(f(e.value));
      }
    }
  }

  lemma ConcatEnsure<V>(d: seq<Entry<V>>, k: string, init: V, f: V -> seq<Component>)
    requires f(init) == []
    ensures Concat(Ensure(d, k, init), f) == Concat(d, f)
  {
    if !Has(d, k) {
      assert (d + [Entry(k, init)])[..|d|] == d;
    }
  }

  /** Pushing `c` into bucket `b` (created when missing) adds `c` to the category's items. */
  lemma ItemsPush(prior: Subcategories, b: string, c: Component)
    ensures var subs := Ensure(prior, b, []);
      multiset(Items(Put(subs, b, Get(subs, b) + [c]))) == multiset(Items(prior)) + multiset{c}
  {
    var subs := Ensure(prior, b, []);
    var bucket := Get(subs, b);
    var newSubs := Put(subs, b, bucket + [c]);
    assert Items(subs) == Items(prior) by {
      ConcatEnsure(prior, b, [], BucketItems);
    }
    assert newSubs == subs[IndexOf(subs, b) := Entry(b, bucket + [c])];
    ConcatUpdate(subs, IndexOf(subs, b), Entry(b, bucket + [c]), BucketItems);
    MultisetCancel(multiset(Items(newSubs)), multiset(Items(prior)) + multiset{c}, multiset(bucket));
  }

  /** Replacing the buckets of category `cat` (created when missing) swaps its items in the whole. */
  lemma FlattenReplace(g: Catalog, cat: string, newSubs: Subcategories)
    ensures var g1 := Ensure(g, cat, []);
      multiset(Flatten(Put(g1, cat, newSubs))) + multiset(Items(Get(g1, cat)))
        == multiset(Flatten(g)) + multiset(Items(newSubs))
  {
    var g1 := Ensure(g, cat, []);
    assert Flatten(g1) == Flatten(g) by {
      ConcatEnsure(g, cat, [], Items);
    }
    assert Put(g1, cat, newSubs) == g1[IndexOf(g1, cat) := Entry(cat, newSubs)];
    ConcatUpdate(g1, IndexOf(g1, cat), Entry(cat, newSubs), Items);
  }

  lemma AddComponentFlatten(g: Catalog, c: Component)
    ensures multiset(Flatten(AddComponent(g, c))) == multiset(Flatten(g)) + multiset{c}
  {
    var cat, b := CategoryOf(c), BucketOf(c);
    var g1 := Ensure(g, cat, []);
    var prior := Get(g1, cat);
    var subs := Ensure(prior, b, []);
    var newSubs := Put(subs, b, Get(subs, b) + [c]);
    assert AddComponent(g, c) == Put(g1, cat, newSubs);
    ItemsPush(prior, b, c);
    FlattenReplace(g, cat, newSubs);
    MultisetCancel(multiset(Flatten(Put(g1, cat, newSubs))), multiset(Flatten(g)) + multiset{c},
                   multiset(Items(prior)));
  }

  /**
   * The grouping is a partition: taken together, the buckets hold every component exactly
   * as often as the input does.
   */
  lemma {:induction false} CategorizedPartition(cs: seq<Component>)
    ensures multiset(Flatten(Categorized(cs))) == multiset(cs)
  {
    if cs != [] {
      var init, c := cs[..|cs| - 1], cs[|cs| - 1];
      var g := Categorized(init);
      assert multiset(Flatten(g)) == multiset(init) by {
        CategorizedPartition(init);
      }
      assert multiset(Flatten(Categorized(cs))) == multiset(Flatten(g)) + multiset{c} by {
        AddComponentFlatten(g, c);
      }
      assert multiset(cs) == multiset(init) + multiset{c} by {
        MultisetSnoc(cs);
      }
    }
  }

  /** A component sits in the bucket named by its own category and subcategory, and in no other. */
  lemma BucketMembership(cs: seq<Component>, x: Component, cat: string, b: string)
    ensures x in BucketIn(Categorized(cs), cat, b)
        <==> x in cs && CategoryOf(x) == cat && BucketOf(x) == b
  {
    BucketContents(cs, cat, b);
  }
}
