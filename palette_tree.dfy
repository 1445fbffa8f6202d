/**
 * The component palette's tree (`getTreeData` and `collectKeys` in the sidebar), its
 * keys and their decoding. Node titles are JSX in the sidebar; here a node carries the
 * text that the search reads from its title. The search itself is in `PaletteSearch`.
 */
module PaletteTree {
  import opened Wrappers
  import opened Seqs
  import opened Strings
  import opened Palette

  /**
   * A component leaf (`isLeaf: true`, no `children`) or a category/subcategory heading,
   * which always carries a `children` array.
   */
  datatype Node =
    | Leaf(key: string, title: string)
    | Group(key: string, title: string, children: seq<Node>)

  // ---------------------------------------------------------------------------
  // Keys: `category-i`, `category-i-item-k`, `category-i-sub-j`, `category-i-sub-j-item-k`
  // ---------------------------------------------------------------------------

  /** What a key encodes: the category index, and the subcategory and item indices below it. */
  datatype KeyId =
    | CategoryKey(i: nat)
    | ItemKey(i: nat, k: nat)
    | SubKey(i: nat, j: nat)
    | SubItemKey(i: nat, j: nat, k: nat)

  /** The text after `category-i` in a key. */
  function Suffix(id: KeyId): string {
    match id
    case CategoryKey(_) => ""
    case ItemKey(_, k) => "-item-" + Dec(k)
    case SubKey(_, j) => "-sub-" + Dec(j)
    case SubItemKey(_, j, k) => "-sub-" + Dec(j) + "-item-" + Dec(k)
  }

  /** The template strings of `getTreeData`: `category-${index}` followed by the suffix. */
  function Render(id: KeyId): string {
    "category-" + Dec(id.i) + Suffix(id)
  }

  /** `-item-k` at the end of a key: the item index, when the rest is exactly that. */
  function DecodeItem(r: string): Option<nat> {
    if IsPrefix("-item-", r) then
      match ReadNat(r[6..])
      case Some((k, rest)) => if rest == "" then Some(k) else None
      case None => None
    else None
  }

  /** Reads a key back into what it encodes; `None` for text that is no palette key. */
  function Decode(s: string): Option<KeyId> {
    if !IsPrefix("category-", s) then None
    else
      match ReadNat(s[9..])
      case None => None
      case Some((i, r)) => DecodeSuffix(i, r)
  }

  /** Reads what follows `category-i`. */
  function DecodeSuffix(i: nat, r: string): Option<KeyId> {
    if r == "" then Some(CategoryKey(i))
    else if IsPrefix("-item-", r) then
      match DecodeItem(r)
      case Some(k) => Some(ItemKey(i, k))
      case None => None
    else if IsPrefix("-sub-", r) then
      match ReadNat(r[5..])
      case None => None
      case Some((j, r2)) =>
        if r2 == "" then Some(SubKey(i, j))
        else
          match DecodeItem(r2)
          case Some(k) => Some(SubItemKey(i, j, k))
          case None => None
    else None
  }

  lemma DecodeItemRender(k: nat)
    ensures DecodeItem("-item-" + Dec(k)) == Some(k)
  {
    var r := "-item-" + Dec(k);
    assert r[6..] == Dec(k) + "";
    ReadNatDec(k, "");
  }

  /** Text opening with `-sub-` is read as a subcategory suffix. */
  lemma SubSuffixShape(t: string)
    ensures var r := "-sub-" + t;
      r != "" && !IsPrefix("-item-", r) && IsPrefix("-sub-", r) && r[5..] == t
  {
    var r := "-sub-" + t;
    assert r[1] == 's';
    assert r[..5] == "-sub-";
  }

  lemma DecodeSuffixRender(id: KeyId)
    ensures DecodeSuffix(id.i, Suffix(id)) == Some(id)
  {
    match id
    case CategoryKey(_) =>
    case ItemKey(_, k) =>
      DecodeItemRender(k);
      assert "-item-" + Dec(k) != "";
    case SubKey(_, j) =>
      SubSuffixShape(Dec(j));
      assert Dec(j) == Dec(j) + "";
      ReadNatDec(j, "");
    case SubItemKey(_, j, k) =>
      var r2 := "-item-" + Dec(k);
      assert Suffix(id) == "-sub-" + (Dec(j) + r2);
      SubSuffixShape(Dec(j) + r2);
      ReadNatDec(j, r2);
      DecodeItemRender(k);
  }

  /** The key formats are unambiguous: every key reads back as what it was rendered from. */
  lemma DecodeRender(id: KeyId)
    ensures Decode(Render(id)) == Some(id)
  {
    var i, r := id.i, Suffix(id);
    var s := Render(id);
    assert s == "category-" + (Dec(i) + r);
    assert s[..9] == "category-" && s[9..] == Dec(i) + r;
    assert r == [] || r[0] == '-';
    ReadNatDec(i, r);
    DecodeSuffixRender(id);
  }

  lemma RenderInjective(a: KeyId, b: KeyId)
    ensures Render(a) == Render(b) ==> a == b
  {
    DecodeRender(a);
    DecodeRender(b);
  }

  // ---------------------------------------------------------------------------
  // Building the tree (`getTreeData`)
  // ---------------------------------------------------------------------------

  /** The leaves for the ungrouped components of category `i`: `category-i-item-k`. */
  function UngroupedLeaves(i: nat, items: Bucket): seq<Node> {
    seq(|items|, k requires 0 <= k < |items| => Leaf(Render(ItemKey(i, k)), items[k].name))
  }

  /** The leaves for the components of subcategory `j` of category `i`: `category-i-sub-j-item-k`. */
  function SubLeaves(i: nat, j: nat, items: Bucket): seq<Node> {
    seq(|items|, k requires 0 <= k < |items| => Leaf(Render(SubItemKey(i, j, k)), items[k].name))
  }

  /** What one bucket contributes to its category's children. */
  function BucketNodes(i: nat, j: nat, e: Entry<Bucket>): seq<Node> {
    if e.key == Ungrouped then UngroupedLeaves(i, e.value)
    else [Group(Render(SubKey(i, j)), Capitalize(e.key), SubLeaves(i, j, e.value))]
  }

  /** The children of category `i`, bucket by bucket. */
  function CategoryChildren(i: nat, subs: Subcategories): seq<Node> {
    if subs == [] then []
    else CategoryChildren(i, subs[..|subs| - 1]) + BucketNodes(i, |subs| - 1, subs[|subs| - 1])
  }

  function CategoryNode(i: nat, e: Entry<Subcategories>): Node {
    Group(Render(CategoryKey(i)), Capitalize(e.key), CategoryChildren(i, e.value))
  }

  /** `getTreeData`'s value: one top-level group per category, keyed by its index. */
  function TreeData(g: Catalog): (tree: seq<Node>)
    ensures |tree| == |g|
    ensures forall i :: 0 <= i < |g| ==>
      tree[i].Group? && tree[i].key == Render(CategoryKey(i)) && tree[i].title == Capitalize(g[i].key)
  {
    seq(|g|, i requires 0 <= i < |g| => CategoryNode(i, g[i]))
  }

  lemma TreeDataSnoc(g: Catalog)
    requires g != []
    ensures TreeData(g) == TreeData(g[..|g| - 1]) + [CategoryNode(|g| - 1, g[|g| - 1])]
  {
    var n := |g| - 1;
    var front := TreeData(g[..n]);
    var r := front + [CategoryNode(n, g[n])];
    forall i | 0 <= i < |g|
      ensures TreeData(g)[i] == r[i]
    {
      if i < n {
        assert r[i] == front[i] == CategoryNode(i, g[..n][i]);
      }
    }
  }

  /** The callback of `getTreeData`'s `map`: one category node, its children pushed bucket by bucket. */
  method BuildCategoryNode(index: nat, entry: Entry<Subcategories>) returns (node: Node)
    ensures node == CategoryNode(index, entry)
  {
    var category, subCategories := entry.key, entry.value;
    var children: seq<Node> := [];
    for subIndex := 0 to |subCategories|
      invariant children == CategoryChildren(index, subCategories[..subIndex])
    {
      var subCat := subCategories[subIndex].key;
      var items := subCategories[subIndex].value;
      if subCat == Ungrouped {
        children := children + UngroupedLeaves(index, items);
      } else {
        children := children + [Group(Render(SubKey(index, subIndex)), Capitalize(subCat),
                                      SubLeaves(index, subIndex, items))];
      }
      assert subCategories[..subIndex + 1][..subIndex] == subCategories[..subIndex];
    }
    assert subCategories[..|subCategories|] == subCategories;
    node := Group(Render(CategoryKey(index)), Capitalize(category), children);
  }

  /** `getTreeData`: one node per category, in the grouping's category order. */
  method GetTreeData(categorized: Catalog) returns (tree: seq<Node>)
    ensures tree == TreeData(categorized)
  {
    tree := [];
    for index := 0 to |categorized|
      invariant |tree| == index
      invariant forall i :: 0 <= i < index ==> tree[i] == CategoryNode(i, categorized[i])
    {
      var node := BuildCategoryNode(index, categorized[index]);
      tree := tree + [node];
    }
  }

  // ---------------------------------------------------------------------------
  // Keys in preorder (`collectKeys`)
  // ---------------------------------------------------------------------------

  /** Every key of a forest, each node's key before its descendants' keys, siblings in order. */
  function Preorder(t: seq<Node>): seq<string>
    decreases t
  {
    if t == [] then []
    else
      match t[0]
      case Leaf(key, _) => [key] + Preorder(t[1..])
      case Group(key, _, children) => [key] + Preorder(children) + Preorder(t[1..])
  }

  /** The number of nodes in a forest. */
  function Size(t: seq<Node>): nat
    decreases t
  {
    if t == [] then 0
    else
      match t[0]
      case Leaf(_, _) => 1 + Size(t[1..])
      case Group(_, _, children) => 1 + Size(children) + Size(t[1..])
  }

  /** `collectKeys`: a `reduce` that pushes each item's key, then the keys collected below it. */
  method CollectKeys(data: seq<Node>) returns (acc: seq<string>)
    ensures acc == Preorder(data)
    decreases data
  {
    acc := [];
    for n := 0 to |data|
      invariant acc + Preorder(data[n..]) == Preorder(data)
    {
      var item := data[n];
      assert data[n..][1..] == data[n + 1..];
      acc := acc + [item.key];
      if item.Group? {
        var below := CollectKeys(item.children);
        acc := acc + below;
      }
    }
  }

  lemma {:induction false} PreorderSize(t: seq<Node>)
    ensures |Preorder(t)| == Size(t)
    decreases t
  {
    if t != [] {
      PreorderSize(t[1..]);
      if t[0].Group? {
        PreorderSize(t[0].children);
      }
    }
  }

  lemma {:induction false} PreorderConcat(a: seq<Node>, b: seq<Node>)
    ensures Preorder(a + b) == Preorder(a) + Preorder(b)
    decreases a
  {
    if a == [] {
      assert a + b == b;
    } else {
      assert (a + b)[0] == a[0] && (a + b)[1..] == a[1..] + b;
      PreorderConcat(a[1..], b);
    }
  }

  /**
   * Each node's key comes right before its descendants' keys: the preorder of a forest is the
   * preorder of the siblings before node `i`, then `i`'s key, then its subtree, then the rest.
   */
  lemma {:induction false} PreorderAt(t: seq<Node>, i: nat)
    requires i < |t|
    ensures Preorder(t)
         == Preorder(t[..i]) + [t[i].key] + Preorder(if t[i].Group? then t[i].children else [])
            + Preorder(t[i + 1..])
  {
    assert t == t[..i] + t[i..];
    PreorderConcat(t[..i], t[i..]);
    assert t[i..][1..] == t[i + 1..];
  }

  // ---------------------------------------------------------------------------
  // All keys of the tree are distinct
  // ---------------------------------------------------------------------------

  lemma {:induction false} LeavesPreorder(t: seq<Node>)
    requires forall k :: 0 <= k < |t| ==> t[k].Leaf?
    ensures |Preorder(t)| == |t|
    ensures forall k :: 0 <= k < |t| ==> Preorder(t)[k] == t[k].key
  {
    if t != [] {
      LeavesPreorder(t[1..]);
    }
  }

  /** The key reads back as one below category `i`, in bucket `j` (or in the ungrouped bucket). */
  predicate InBucket(x: string, i: nat, j: nat, ungrouped: bool) {
    && Decode(x).Some?
    && var id := Decode(x).value;
    && id.i == i
    && if ungrouped then id.ItemKey? else (id.SubKey? || id.SubItemKey?) && id.j == j
  }

  lemma UngroupedLeavesKeys(i: nat, items: Bucket)
    ensures Distinct(Preorder(UngroupedLeaves(i, items)))
    ensures forall x :: x in Preorder(UngroupedLeaves(i, items)) ==> InBucket(x, i, 0, true)
  {
    var t := UngroupedLeaves(i, items);
    LeavesPreorder(t);
    forall k | 0 <= k < |t|
      ensures Decode(Preorder(t)[k]) == Some(ItemKey(i, k))
    {
      DecodeRender(ItemKey(i, k));
    }
  }

  lemma SubLeavesKeys(i: nat, j: nat, items: Bucket)
    ensures Distinct(Preorder(SubLeaves(i, j, items)))
    ensures forall x :: x in Preorder(SubLeaves(i, j, items)) ==> Decode(x).Some? && Decode(x).value.SubItemKey?
    ensures forall x :: x in Preorder(SubLeaves(i, j, items)) ==> InBucket(x, i, j, false)
  {
    var t := SubLeaves(i, j, items);
    LeavesPreorder(t);
    forall k | 0 <= k < |t|
      ensures Decode(Preorder(t)[k]) == Some(SubItemKey(i, j, k))
    {
      DecodeRender(SubItemKey(i, j, k));
    }
  }

  lemma BucketNodesKeys(i: nat, j: nat, e: Entry<Bucket>)
    ensures Distinct(Preorder(BucketNodes(i, j, e)))
    ensures forall x :: x in Preorder(BucketNodes(i, j, e)) ==> InBucket(x, i, j, e.key == Ungrouped)
  {
    if e.key == Ungrouped {
      UngroupedLeavesKeys(i, e.value);
    } else {
      var t := SubLeaves(i, j, e.value);
      SubLeavesKeys(i, j, e.value);
      DecodeRender(SubKey(i, j));
      var g := Group(Render(SubKey(i, j)), Capitalize(e.key), t);
      assert Preorder([g]) == [g.key] + Preorder(t) + Preorder([]);
      DistinctConcat([g.key], Preorder(t));
    }
  }

  /** What the keys below category `i` read back as, for the first `|subs|` buckets. */
  predicate ChildKey(x: string, i: nat, subs: Subcategories) {
    && Decode(x).Some?
    && var id := Decode(x).value;
    && id.i == i
    && !id.CategoryKey?
    && (id.ItemKey? ==> Ungrouped in KeysOf(subs))
    && (id.SubKey? || id.SubItemKey? ==> id.j < |subs|)
  }

  lemma {:induction false} CategoryChildrenKeys(i: nat, subs: Subcategories)
    requires Distinct(KeysOf(subs))
    ensures Distinct(Preorder(CategoryChildren(i, subs)))
    ensures forall x :: x in Preorder(CategoryChildren(i, subs)) ==> ChildKey(x, i, subs)
  {
    if subs != [] {
      var n := |subs| - 1;
      var init, last := subs[..n], subs[n];
      assert KeysOf(subs) == KeysOf(init) + [last.key];
      assert Distinct(KeysOf(init)) by {
        assert forall p :: 0 <= p < n ==> KeysOf(init)[p] == KeysOf(subs)[p];
      }
      var a, b := Preorder(CategoryChildren(i, init)), Preorder(BucketNodes(i, n, last));
      assert Preorder(CategoryChildren(i, subs)) == a + b by {
        PreorderConcat(CategoryChildren(i, init), BucketNodes(i, n, last));
      }
      CategoryChildrenKeys(i, init);
      BucketNodesKeys(i, n, last);
      forall x | x in a
        ensures x !in b && ChildKey(x, i, subs)
      {
        assert ChildKey(x, i, init);
        if x in b {
          assert false;
        }
      }
      forall x | x in b
        ensures ChildKey(x, i, subs)
      {
        assert InBucket(x, i, n, last.key == Ungrouped);
      }
      DistinctConcat(a, b);
    }
  }

  lemma CategoryNodeKeys(i: nat, e: Entry<Subcategories>)
    requires Distinct(KeysOf(e.value))
    ensures Distinct(Preorder([CategoryNode(i, e)]))
    ensures forall x :: x in Preorder([CategoryNode(i, e)]) ==> Decode(x).Some? && Decode(x).value.i == i
  {
    var node := CategoryNode(i, e);
    var below := Preorder(node.children);
    assert Preorder([node]) == [node.key] + below + Preorder([]);
    CategoryChildrenKeys(i, e.value);
    DecodeRender(CategoryKey(i));
    DistinctConcat([node.key], below);
  }

  /** All keys of the palette tree are distinct, given that no category repeats a bucket key. */
  lemma {:induction false} TreeKeysDistinct(g: Catalog)
    requires forall i :: 0 <= i < |g| ==> Distinct(KeysOf(g[i].value))
    ensures Distinct(Preorder(TreeData(g)))
    ensures forall x :: x in Preorder(TreeData(g)) ==> Decode(x).Some? && Decode(x).value.i < |g|
  {
    if g != [] {
      var n := |g| - 1;
      var front, node := TreeData(g[..n]), CategoryNode(n, g[n]);
      var a, b := Preorder(front), Preorder([node]);
      assert Distinct(a) && forall x :: x in a ==> Decode(x).Some? && Decode(x).value.i < n by {
        assert forall i :: 0 <= i < n ==> g[..n][i] == g[i];
        TreeKeysDistinct(g[..n]);
      }
      assert Distinct(b) && forall x :: x in b ==> Decode(x).Some? && Decode(x).value.i == n by {
        CategoryNodeKeys(n, g[n]);
      }
      assert Preorder(TreeData(g)) == a + b by {
        TreeDataSnoc(g);
        PreorderConcat(front, [node]);
      }
      DistinctConcat(a, b);
    }
  }

  /** The palette tree built from any grouping of the components has pairwise distinct keys. */
  lemma PaletteKeysDistinct(components: seq<Component>)
    ensures Distinct(Preorder(TreeData(Categorized(components))))
  {
    CategorizedWellFormed(components);
    TreeKeysDistinct(Categorized(components));
  }

  // ---------------------------------------------------------------------------
  // Where the components end up in the tree
  // ---------------------------------------------------------------------------

  /** The titles of the leaves of a forest, left to right. */
  function LeafTitles(t: seq<Node>): seq<string>
    decreases t
  {
    if t == [] then []
    else
      match t[0]
      case Leaf(_, title) => [title] + LeafTitles(t[1..])
      case Group(_, _, children) => LeafTitles(children) + LeafTitles(t[1..])
  }

  function Names(cs: seq<Component>): (r: seq<string>)
    ensures |r| == |cs| && forall k :: 0 <= k < |cs| ==> r[k] == cs[k].name
  {
    seq(|cs|, k requires 0 <= k < |cs| => cs[k].name)
  }

  lemma {:induction false} LeafTitlesConcat(a: seq<Node>, b: seq<Node>)
    ensures LeafTitles(a + b) == LeafTitles(a) + LeafTitles(b)
    decreases a
  {
    if a == [] {
      assert a + b == b;
    } else {
      assert (a + b)[0] == a[0] && (a + b)[1..] == a[1..] + b;
      LeafTitlesConcat(a[1..], b);
    }
  }

  lemma {:induction false} LeafTitlesOfLeaves(t: seq<Node>)
    requires forall k :: 0 <= k < |t| ==> t[k].Leaf?
    ensures |LeafTitles(t)| == |t|
    ensures forall k :: 0 <= k < |t| ==> LeafTitles(t)[k] == t[k].title
  {
    if t != [] {
      LeafTitlesOfLeaves(t[1..]);
    }
  }

  lemma BucketLeafTitles(i: nat, j: nat, e: Entry<Bucket>)
    ensures LeafTitles(BucketNodes(i, j, e)) == Names(e.value)
  {
    if e.key == Ungrouped {
      LeafTitlesOfLeaves(UngroupedLeaves(i, e.value));
    } else {
      var t := SubLeaves(i, j, e.value);
      LeafTitlesOfLeaves(t);
      assert LeafTitles(BucketNodes(i, j, e)) == LeafTitles(t) + LeafTitles([]);
    }
  }

  lemma NamesConcat(a: seq<Component>, b: seq<Component>)
    ensures Names(a + b) == Names(a) + Names(b)
  {
  }

  lemma {:induction false} CategoryLeafTitles(i: nat, subs: Subcategories)
    ensures LeafTitles(CategoryChildren(i, subs)) == Names(Items(subs))
  {
    if subs != [] {
      var n := |subs| - 1;
      var front, back := CategoryChildren(i, subs[..n]), BucketNodes(i, n, subs[n]);
      assert LeafTitles(CategoryChildren(i, subs)) == LeafTitles(front) + LeafTitles(back) by {
        LeafTitlesConcat(front, back);
      }
      assert LeafTitles(front) == Names(Items(subs[..n])) by {
        CategoryLeafTitles(i, subs[..n]);
      }
      assert LeafTitles(back) == Names(subs[n].value) by {
        BucketLeafTitles(i, n, subs[n]);
      }
      assert Names(Items(subs)) == Names(Items(subs[..n])) + Names(subs[n].value) by {
        assert Items(subs) == Items(subs[..n]) + subs[n].value;
        NamesConcat(Items(subs[..n]), subs[n].value);
      }
    }
  }

  /** Reading the tree's leaves left to right gives the buckets' components, category by category. */
  lemma {:induction false} TreeLeafTitles(g: Catalog)
    ensures LeafTitles(TreeData(g)) == Names(Flatten(g))
  {
    if g != [] {
      var n := |g| - 1;
      var node := CategoryNode(n, g[n]);
      assert LeafTitles(TreeData(g)) == LeafTitles(TreeData(g[..n])) + LeafTitles([node]) by {
        TreeDataSnoc(g);
        LeafTitlesConcat(TreeData(g[..n]), [node]);
      }
      assert LeafTitles(TreeData(g[..n])) == Names(Flatten(g[..n])) by {
        TreeLeafTitles(g[..n]);
      }
      assert LeafTitles([node]) == Names(Items(g[n].value)) by {
        assert LeafTitles([node]) == LeafTitles(node.children) + LeafTitles([]);
        CategoryLeafTitles(n, g[n].value);
      }
      assert Names(Flatten(g)) == Names(Flatten(g[..n])) + Names(Items(g[n].value)) by {
        assert Flatten(g) == Flatten(g[..n]) + Items(g[n].value);
        NamesConcat(Flatten(g[..n]), Items(g[n].value));
      }
    }
  }

  /** The palette shows one leaf per component: as many leaves as components, bucket by bucket. */
  lemma PaletteLeaves(components: seq<Component>)
    ensures LeafTitles(TreeData(Categorized(components))) == Names(Flatten(Categorized(components)))
    ensures |LeafTitles(TreeData(Categorized(components)))| == |components|
  {
    TreeLeafTitles(Categorized(components));
    CategorizedPartition(components);
    assert |multiset(Flatten(Categorized(components)))| == |multiset(components)|;
  }

  // ---------------------------------------------------------------------------
  // The layout of one category: ungrouped components inline, one group per subcategory
  // ---------------------------------------------------------------------------

  /** The titles of the leaves among `t` itself (not below it), in order. */
  function DirectLeafTitles(t: seq<Node>): seq<string> {
    if t == [] then []
    else
      var last := t[|t| - 1];
      DirectLeafTitles(t[..|t| - 1]) + if last.Leaf? then [last.title] else []
  }

  /** The groups among `t`, each as its title and the titles of the leaves below it, in order. */
  function SubGroups(t: seq<Node>): seq<(string, seq<string>)> {
    if t == [] then []
    else
      var last := t[|t| - 1];
      SubGroups(t[..|t| - 1]) + if last.Group? then [(last.title, LeafTitles(last.children))] else []
  }

  /** The named buckets of a category, each as its heading and its components' names, in order. */
  function NamedBuckets(subs: Subcategories): seq<(string, seq<string>)> {
    if subs == [] then []
    else
      var last := subs[|subs| - 1];
      NamedBuckets(subs[..|subs| - 1])
        + if last.key != Ungrouped then [(Capitalize(last.key), Names(last.value))] else []
  }

  lemma {:induction false} DirectLeafTitlesConcat(a: seq<Node>, b: seq<Node>)
    ensures DirectLeafTitles(a + b) == DirectLeafTitles(a) + DirectLeafTitles(b)
    decreases |b|
  {
    if b == [] {
      assert a + b == a;
    } else {
      var n := |b| - 1;
      assert (a + b)[..|a + b| - 1] == a + b[..n];
      DirectLeafTitlesConcat(a, b[..n]);
    }
  }

  lemma {:induction false} SubGroupsConcat(a: seq<Node>, b: seq<Node>)
    ensures SubGroups(a + b) == SubGroups(a) + SubGroups(b)
    decreases |b|
  {
    if b == [] {
      assert a + b == a;
    } else {
      var n := |b| - 1;
      assert (a + b)[..|a + b| - 1] == a + b[..n];
      SubGroupsConcat(a, b[..n]);
    }
  }

  lemma {:induction false} LeavesLayout(t: seq<Node>)
    requires forall k :: 0 <= k < |t| ==> t[k].Leaf?
    ensures |DirectLeafTitles(t)| == |t|
    ensures forall k :: 0 <= k < |t| ==> DirectLeafTitles(t)[k] == t[k].title
    ensures SubGroups(t) == []
  {
    if t != [] {
      LeavesLayout(t[..|t| - 1]);
    }
  }

  lemma BucketLayout(i: nat, j: nat, e: Entry<Bucket>)
    ensures DirectLeafTitles(BucketNodes(i, j, e)) == if e.key == Ungrouped then Names(e.value) else []
    ensures SubGroups(BucketNodes(i, j, e))
         == if e.key == Ungrouped then [] else [(Capitalize(e.key), Names(e.value))]
  {
    if e.key == Ungrouped {
      LeavesLayout(UngroupedLeaves(i, e.value));
    } else {
      var t := SubLeaves(i, j, e.value);
      LeafTitlesOfLeaves(t);
      assert LeafTitles(t) == Names(e.value);
      assert BucketNodes(i, j, e)[..0] == [];
    }
  }

  /** Dropping the last entry keeps keys distinct, and the dropped key is not among the rest. */
  lemma DistinctInit<V>(d: seq<Entry<V>>)
    requires d != [] && Distinct(KeysOf(d))
    ensures Distinct(KeysOf(d[..|d| - 1]))
    ensures !Has(d[..|d| - 1], d[|d| - 1].key)
  {
    var n := |d| - 1;
    assert forall p :: 0 <= p < n ==> KeysOf(d[..n])[p] == KeysOf(d)[p];
    HasIffKey(d[..n], d[n].key);
  }

  /** With distinct keys, a lookup is answered by the last entry when it has the key. */
  lemma LookupLast<V>(d: seq<Entry<V>>, k: string, absent: V)
    requires d != [] && Distinct(KeysOf(d))
    ensures Lookup(d, k, absent)
         == if d[|d| - 1].key == k then d[|d| - 1].value else Lookup(d[..|d| - 1], k, absent)
  {
    var n := |d| - 1;
    var init, last := d[..n], d[n];
    DistinctInit(d);
    assert d == Ensure(init, last.key, last.value);
    LookupEnsure(init, last.key, last.value, k, absent);
  }

  /** The direct leaves of a category node are its ungrouped components, in order. */
  lemma {:induction false} CategoryDirectLeaves(i: nat, subs: Subcategories)
    requires Distinct(KeysOf(subs))
    ensures DirectLeafTitles(CategoryChildren(i, subs)) == Names(Lookup(subs, Ungrouped, []))
  {
    if subs != [] {
      var n := |subs| - 1;
      var init, last := subs[..n], subs[n];
      DistinctInit(subs);
      var front, back := CategoryChildren(i, init), BucketNodes(i, n, last);
      var a, b := DirectLeafTitles(front), DirectLeafTitles(back);
      assert DirectLeafTitles(CategoryChildren(i, subs)) == a + b by {
        DirectLeafTitlesConcat(front, back);
      }
      assert a == Names(Lookup(init, Ungrouped, [])) by {
        CategoryDirectLeaves(i, init);
      }
      assert b == if last.key == Ungrouped then Names(last.value) else [] by {
        BucketLayout(i, n, last);
      }
      assert Lookup(subs, Ungrouped, [])
          == if last.key == Ungrouped then last.value else Lookup(init, Ungrouped, []) by {
        LookupLast(subs, Ungrouped, []);
      }
      if last.key == Ungrouped {
        assert a == [];
        assert a + b == b;
      } else {
        assert a + b == a;
      }
    }
  }

  /** The groups among a category node's children are its named subcategories, in order. */
  lemma {:induction false} CategorySubGroups(i: nat, subs: Subcategories)
    ensures SubGroups(CategoryChildren(i, subs)) == NamedBuckets(subs)
  {
    if subs != [] {
      var n := |subs| - 1;
      var init, last := subs[..n], subs[n];
      var front, back := CategoryChildren(i, init), BucketNodes(i, n, last);
      assert SubGroups(CategoryChildren(i, subs)) == SubGroups(front) + SubGroups(back) by {
        SubGroupsConcat(front, back);
      }
      assert SubGroups(front) == NamedBuckets(init) by {
        CategorySubGroups(i, init);
      }
      BucketLayout(i, n, last);
    }
  }

  /**
   * In the palette tree, the node of the `i`-th category lists that category's components without
   * a subcategory as direct leaves, and one group per subcategory, in order of first occurrence.
   */
  lemma PaletteLayout(components: seq<Component>, i: nat)
    requires i < |Categorized(components)|
    ensures var g := Categorized(components);
      var node := TreeData(g)[i];
      && node.key == Render(CategoryKey(i))
      && node.title == Capitalize(g[i].key)
      && DirectLeafTitles(node.children) == Names(Members(components, g[i].key, Ungrouped))
      && SubGroups(node.children) == NamedBuckets(g[i].value)
  {
    var g := Categorized(components);
    CategorizedWellFormed(components);
    CategoryDirectLeaves(i, g[i].value);
    CategorySubGroups(i, g[i].value);
    LookupDistinct(g, i, []);
    BucketContents(components, g[i].key, Ungrouped);
  }
}
