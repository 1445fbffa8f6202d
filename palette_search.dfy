/**
 * Searching the component palette: `filterTree`, `filteredTreeData`, and the keys the sidebar
 * expands once the search text or the grouping changes.
 */
module PaletteSearch {
  import opened Wrappers
  import opened Seqs
  import opened Strings
  import opened Palette
  import opened PaletteTree

  // ---------------------------------------------------------------------------
  // `filterTree`
  // ---------------------------------------------------------------------------

  /** `title.toLowerCase().includes(searchValue.toLowerCase())`. */
  predicate Matches(title: string, q: string) {
    Contains(Lower(title), Lower(q))
  }

  /** The surviving node, if any, as the `filter(item => item !== null)` step sees it. */
  function Kept(o: Option<Node>): seq<Node> {
    match o
    case None => []
    case Some(n) => [n]
  }

  /** `filterTree`: the surviving nodes, in their original order. */
  function FilterTree(t: seq<Node>, q: string): seq<Node>
    decreases t
  {
    if t == [] then [] else Kept(FilterItem(t[0], q)) + FilterTree(t[1..], q)
  }

  /**
   * The callback of `filterTree`'s `map`: a leaf survives when its title matches; a group has its
   * children filtered first and survives when its title matches or some child survived.
   */
  function FilterItem(n: Node, q: string): Option<Node>
    decreases n
  {
    match n
    case Leaf(_, title) => if Matches(title, q) then Some(n) else None
    case Group(key, title, children) =>
      var kept := FilterTree(children, q);
      if Matches(title, q) || |kept| > 0 then Some(Group(key, title, kept)) else None
  }

  /** The node's title, or the title of some node below it, matches the search text. */
  predicate HasMatch(n: Node, q: string)
    decreases n
  {
    Matches(n.title, q) || (n.Group? && AnyMatch(n.children, q))
  }

  predicate AnyMatch(t: seq<Node>, q: string)
    decreases t
  {
    t != [] && (HasMatch(t[0], q) || AnyMatch(t[1..], q))
  }

  /** A node survives exactly when it or a descendant matches; it keeps its key, title and kind. */
  lemma {:induction false} FilterItemSurvives(n: Node, q: string)
    ensures FilterItem(n, q).Some? <==> HasMatch(n, q)
    ensures FilterItem(n, q).Some? ==>
      var m := FilterItem(n, q).value;
      m.key == n.key && m.title == n.title && m.Leaf? == n.Leaf?
    decreases n
  {
    if n.Group? {
      FilterTreeEmpty(n.children, q);
    }
  }

  /** The filter drops every node exactly when nothing in the forest matches. */
  lemma {:induction false} FilterTreeEmpty(t: seq<Node>, q: string)
    ensures FilterTree(t, q) == [] <==> !AnyMatch(t, q)
    decreases t
  {
    if t != [] {
      FilterItemSurvives(t[0], q);
      FilterTreeEmpty(t[1..], q);
    }
  }

  lemma {:induction false} FilterItemSubseq(n: Node, q: string)
    ensures IsSubseq(Preorder(Kept(FilterItem(n, q))), Preorder([n]))
    decreases n
  {
    SubseqEmpty(Preorder([n]));
    match n
    case Leaf(_, _) =>
      SubseqRefl(Preorder([n]));
    case Group(key, title, children) =>
      var kept := FilterTree(children, q);
      if FilterItem(n, q).Some? {
        var m := Group(key, title, kept);
        assert FilterItem(n, q) == Some(m);
        assert [m][1..] == [] && [n][1..] == [];
        assert Preorder([m]) == [key] + Preorder(kept) by {
          assert Preorder([m]) == [key] + Preorder(kept) + [];
        }
        assert Preorder([n]) == [key] + Preorder(children) by {
          assert Preorder([n]) == [key] + Preorder(children) + [];
        }
        FilterPreorderSubseq(children, q);
        SubseqRefl([key]);
        SubseqConcat([key], Preorder(kept), [key], Preorder(children));
      }
  }

  /** Filtering only deletes nodes: the surviving keys appear in the same order as before. */
  lemma {:induction false} FilterPreorderSubseq(t: seq<Node>, q: string)
    ensures IsSubseq(Preorder(FilterTree(t, q)), Preorder(t))
    decreases t
  {
    if t == [] {
      SubseqRefl(Preorder(t));
    } else {
      var k, rest := Kept(FilterItem(t[0], q)), FilterTree(t[1..], q);
      FilterItemSubseq(t[0], q);
      FilterPreorderSubseq(t[1..], q);
      PreorderConcat(k, rest);
      assert t == [t[0]] + t[1..];
      PreorderConcat([t[0]], t[1..]);
      SubseqConcat(Preorder(k), Preorder(rest), Preorder([t[0]]), Preorder(t[1..]));
    }
  }

  lemma {:induction false} FilterItemIdempotent(n: Node, q: string)
    requires FilterItem(n, q).Some?
    ensures FilterItem(FilterItem(n, q).value, q) == FilterItem(n, q)
    decreases n
  {
    if n.Group? {
      FilterTreeIdempotent(n.children, q);
    }
  }

  /** Filtering the filtered tree again with the same text changes nothing. */
  lemma {:induction false} FilterTreeIdempotent(t: seq<Node>, q: string)
    ensures FilterTree(FilterTree(t, q), q) == FilterTree(t, q)
    decreases t
  {
    if t != [] {
      var rest := FilterTree(t[1..], q);
      FilterTreeIdempotent(t[1..], q);
      match FilterItem(t[0], q)
      case None =>
        assert Kept(FilterItem(t[0], q)) == [];
        assert FilterTree(t, q) == rest by {
          assert FilterTree(t, q) == [] + rest;
        }
      case Some(m) =>
        FilterItemIdempotent(t[0], q);
        assert ([m] + rest)[0] == m && ([m] + rest)[1..] == rest;
    }
  }

  /** Every title contains the empty string. */
  lemma MatchesEmpty(title: string)
    ensures Matches(title, "")
  {
    assert Lower("") == "";
    assert OccursAt(Lower(title), "", 0);
  }

  lemma {:induction false} FilterItemEmptyQuery(n: Node)
    ensures FilterItem(n, "") == Some(n)
    decreases n
  {
    MatchesEmpty(n.title);
    if n.Group? {
      FilterTreeEmptyQuery(n.children);
    }
  }

  /** The empty search text keeps the whole tree. */
  lemma {:induction false} FilterTreeEmptyQuery(t: seq<Node>)
    ensures FilterTree(t, "") == t
    decreases t
  {
    if t != [] {
      FilterItemEmptyQuery(t[0]);
      FilterTreeEmptyQuery(t[1..]);
      assert t == [t[0]] + t[1..];
    }
  }

  /** Headings are capitalised labels; capitalising never changes whether a search finds them. */
  lemma MatchesCapitalize(s: string, q: string)
    ensures Matches(Capitalize(s), q) <==> Matches(s, q)
  {
    LowerCapitalize(s);
  }

  // ---------------------------------------------------------------------------
  // Which components a search shows
  // ---------------------------------------------------------------------------

  /** The titles among `titles` that match, in order. */
  function MatchingTitles(titles: seq<string>, q: string): seq<string> {
    if titles == [] then []
    else (if Matches(titles[0], q) then [titles[0]] else []) + MatchingTitles(titles[1..], q)
  }

  lemma {:induction false} MatchingTitlesConcat(a: seq<string>, b: seq<string>, q: string)
    ensures MatchingTitles(a + b, q) == MatchingTitles(a, q) + MatchingTitles(b, q)
  {
    if a != [] {
      assert (a + b)[0] == a[0] && (a + b)[1..] == a[1..] + b;
      MatchingTitlesConcat(a[1..], b, q);
    } else {
      assert a + b == b;
    }
  }

  lemma {:induction false} FilterItemLeaves(n: Node, q: string)
    ensures LeafTitles(Kept(FilterItem(n, q))) == MatchingTitles(LeafTitles([n]), q)
    decreases n
  {
    assert [n][1..] == [];
    match n
    case Leaf(_, title) =>
      assert LeafTitles([n]) == [title] + [];
      assert MatchingTitles([title], q) == (if Matches(title, q) then [title] else []) + [];
    case Group(key, title, children) =>
      var kept := FilterTree(children, q);
      assert LeafTitles([n]) == LeafTitles(children) by {
        assert LeafTitles([n]) == LeafTitles(children) + [];
      }
      FilterTreeLeaves(children, q);
      if FilterItem(n, q).Some? {
        var m := Group(key, title, kept);
        assert FilterItem(n, q) == Some(m);
        assert [m][1..] == [];
        assert LeafTitles([m]) == LeafTitles(kept) by {
          assert LeafTitles([m]) == LeafTitles(kept) + [];
        }
      }
  }

  /**
   * The leaves left after a search are exactly the leaves whose titles match, in order: a matching
   * heading does not bring its non-matching components along.
   */
  lemma {:induction false} FilterTreeLeaves(t: seq<Node>, q: string)
    ensures LeafTitles(FilterTree(t, q)) == MatchingTitles(LeafTitles(t), q)
    decreases t
  {
    if t != [] {
      var k, rest := Kept(FilterItem(t[0], q)), FilterTree(t[1..], q);
      LeafTitlesConcat(k, rest);
      FilterItemLeaves(t[0], q);
      FilterTreeLeaves(t[1..], q);
      assert t == [t[0]] + t[1..];
      LeafTitlesConcat([t[0]], t[1..]);
      MatchingTitlesConcat(LeafTitles([t[0]]), LeafTitles(t[1..]), q);
    }
  }

  // ---------------------------------------------------------------------------
  // `filteredTreeData` and the expanded keys
  // ---------------------------------------------------------------------------

  /** `filteredTreeData`: the filtered tree when `searchValue && searchValue.trim()`, else the tree. */
  function FilteredTreeData(tree: seq<Node>, searchValue: string): seq<Node> {
    if searchValue != "" && Trim(searchValue) != "" then FilterTree(tree, searchValue) else tree
  }

  /** Search text made only of white space (the empty text included) shows the whole tree. */
  lemma FilteredTreeDataBlank(tree: seq<Node>, searchValue: string)
    ensures FilteredTreeData(tree, searchValue)
         == if IsBlank(searchValue) then tree else FilterTree(tree, searchValue)
  {
    TrimEmptyIffBlank(searchValue);
  }

  /** `category-0`, …, one key per category in the grouping's order. */
  function CategoryKeys(g: Catalog): seq<string> {
    seq(|g|, i requires 0 <= i < |g| => Render(CategoryKey(i)))
  }

  /**
   * The keys handed to `setExpandedKeys`: with search text, every key of the filtered tree in
   * preorder (`collectKeys`); without, the keys of the category nodes.
   */
  function ExpandedKeys(g: Catalog, searchValue: string): seq<string> {
    if searchValue != "" then Preorder(FilteredTreeData(TreeData(g), searchValue)) else CategoryKeys(g)
  }

  /** The keys of the nodes of a forest, not descending into them. */
  function TopKeys(t: seq<Node>): seq<string> {
    seq(|t|, i requires 0 <= i < |t| => t[i].key)
  }

  /** With no search text, exactly the category nodes are expanded, in order. */
  lemma ExpandedKeysNoSearch(g: Catalog)
    ensures ExpandedKeys(g, "") == TopKeys(TreeData(g))
  {
  }

  /**
   * Search text of white space only filters nothing but still expands every node of the tree,
   * because the expanded keys test the raw text while the filter tests the trimmed text.
   */
  lemma ExpandedKeysBlankSearch(g: Catalog, searchValue: string)
    requires searchValue != "" && IsBlank(searchValue)
    ensures ExpandedKeys(g, searchValue) == Preorder(TreeData(g))
  {
    FilteredTreeDataBlank(TreeData(g), searchValue);
  }

  /**
   * With real search text, the expanded keys are the keys of the nodes that survive the filter:
   * the tree's keys with some deleted, the order kept.
   */
  lemma ExpandedKeysSearch(g: Catalog, searchValue: string)
    requires !IsBlank(searchValue)
    ensures ExpandedKeys(g, searchValue) == Preorder(FilterTree(TreeData(g), searchValue))
    ensures IsSubseq(ExpandedKeys(g, searchValue), Preorder(TreeData(g)))
  {
    FilteredTreeDataBlank(TreeData(g), searchValue);
    FilterPreorderSubseq(TreeData(g), searchValue);
  }

  /** Whatever the search text, the sidebar never expands the same key twice. */
  lemma ExpandedKeysDistinct(components: seq<Component>, searchValue: string)
    ensures Distinct(ExpandedKeys(Categorized(components), searchValue))
  {
    var g := Categorized(components);
    if searchValue == "" {
      forall i, j | 0 <= i < j < |g|
        ensures CategoryKeys(g)[i] != CategoryKeys(g)[j]
      {
        RenderInjective(CategoryKey(i), CategoryKey(j));
      }
    } else {
      PaletteKeysDistinct(components);
      FilteredTreeDataBlank(TreeData(g), searchValue);
      if !IsBlank(searchValue) {
        FilterPreorderSubseq(TreeData(g), searchValue);
        SubseqDistinct(Preorder(FilterTree(TreeData(g), searchValue)), Preorder(TreeData(g)));
      }
    }
  }

  /**
   * A search over the palette shows exactly the components whose names match, bucket by bucket
   * in the grouping's order.
   */
  lemma SearchShowsMatchingComponents(components: seq<Component>, searchValue: string)
    requires !IsBlank(searchValue)
    ensures LeafTitles(FilteredTreeData(TreeData(Categorized(components)), searchValue))
         == MatchingTitles(Names(Flatten(Categorized(components))), searchValue)
  {
    var tree := TreeData(Categorized(components));
    FilteredTreeDataBlank(tree, searchValue);
    FilterTreeLeaves(tree, searchValue);
    PaletteLeaves(components);
  }
}
