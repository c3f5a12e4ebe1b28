/** Scenarios of the matcher, proved from the contracts of `Add` and
    `search`: how `Add` treats a keyword it has stored already, and what
    the searches of the library's unit tests return on a small tree. */
module Scenarios {
  import opened Wrappers
  import opened EditDistanceCalculator
  import opened StringMatching
  import opened SearchResults

  /** Adding the same keyword three times to an empty matcher: the first
      call makes it the root; the second finds distance 0 at the root,
      which the walk never checks for a duplicate, and stores a second copy
      under key 0; the third descends into that copy, finds distance 0
      there and stops, leaving the tree as it was. */
  method RootDuplicate<T>(keyword: string, first: T, second: T, third: T) returns (m: StringMatcher<T>)
    requires keyword != []
    ensures m.Valid() && m.root != null && |m.nodes| == 2
    ensures m.root.originalKeyword == keyword && m.root.associatedData == first
    ensures m.root.children.Keys == {0}
    ensures m.root.children[0].originalKeyword == keyword && m.root.children[0].associatedData == second
  {
    DistanceToSelf(keyword);
    m := new StringMatcher();
    var r1, last1, added1 := m.Add(Some(keyword), first);
    assert m.root == added1 && m.nodes == {added1} && added1.children == map[];
    var r2, last2, added2 := m.Add(Some(keyword), second);
    assert last2 == added1 && added1.parent == null;
    assert added2 != null && added2.key == 0 && added1.children == map[0 := added2];
    var r3, last3, added3 := m.Add(Some(keyword), third);
    if last3 == added1 {
      assert false;
    }
    assert added3 == null;
  }

  /** With whitespace removal, `Add` compares the normalised keywords
      stored in the tree with the raw keyword, so a keyword holding a
      space is never at distance 0 from its own stored copy: adding "a b"
      three times stores it three times. */
  method SpacedDuplicates<T>(first: T, second: T, third: T) returns (m: StringMatcher<T>)
    ensures m.Valid() && m.matchingOption == RemoveSpacingAndLinebreaks && |m.nodes| == 3
    ensures forall n :: n in m.nodes ==> n.originalKeyword == "a b" && n.normalizedKeyword == "ab"
  {
    assert RemoveSpacesAndLinebreaks("a b") == "ab";
    m := new StringMatcher.WithMatchingOption(RemoveSpacingAndLinebreaks);
    var r1, last1, added1 := m.Add(Some("a b"), first);
    assert m.nodes == {added1};
    AddSpacedAgain(m, second);
    AddSpacedAgain(m, third);
  }

  /** One more `Add` of "a b" to a whitespace-removing matcher holding only
      copies of it stores one more copy. */
  method AddSpacedAgain<T>(m: StringMatcher<T>, data: T)
    requires m.Valid() && m.root != null && m.matchingOption == RemoveSpacingAndLinebreaks
    requires forall n :: n in m.nodes ==> n.originalKeyword == "a b" && n.normalizedKeyword == "ab"
    modifies m, m.nodes
    ensures m.Valid() && m.matchingOption == RemoveSpacingAndLinebreaks && |m.nodes| == |old(m.nodes)| + 1
    ensures fresh(m.nodes - old(m.nodes))
    ensures forall n :: n in m.nodes ==> n.originalKeyword == "a b" && n.normalizedKeyword == "ab"
  {
    assert RemoveSpacesAndLinebreaks("a b") == "ab";
    DistanceBounds("ab", "a b");
    var r, last, added := m.Add(Some("a b"), data);
    assert added != null && added !in old(m.nodes);
  }

  /** A sequence of distinct nodes drawn from a set is no longer than the
      set. */
  lemma {:induction false} DistinctWithin<T>(found: seq<Node<T>>, ns: set<Node<T>>)
    requires Distinct(found)
    requires forall i :: 0 <= i < |found| ==> found[i] in ns
    ensures |found| <= |ns|
  {
    if found != [] {
      DistinctWithin(found[1..], ns - {found[0]});
    }
  }

  /** A sequence of distinct nodes drawn from two, holding both, is one of
      their two orders. */
  lemma BothInEitherOrder<T>(found: seq<Node<T>>, x: Node<T>, y: Node<T>)
    requires Distinct(found) && x != y && x in found && y in found
    requires forall i :: 0 <= i < |found| ==> found[i] in {x, y}
    ensures found == [x, y] || found == [y, x]
  {
    DistinctWithin(found, {x, y});
  }

  /** Two results in either order sort into the order of their
      percentages. */
  lemma TwoResultsSorted<T>(found: seq<Node<T>>, x: Node<T>, y: Node<T>, keyword: string)
    requires found == [x, y] || found == [y, x]
    requires ResultFor(x, keyword).matchPercentage > ResultFor(y, keyword).matchPercentage
    ensures SortedByClosestMatch(ResultsFor(found, keyword)) == [ResultFor(x, keyword), ResultFor(y, keyword)]
  {
    var rx, ry := ResultFor(x, keyword), ResultFor(y, keyword);
    assert ResultsFor(found, keyword) == [ResultFor(found[0], keyword), ResultFor(found[1], keyword)] by {
      assert found[..1] == [found[0]];
    }
    assert SortedByClosestMatch([ry]) == [ry];
    assert SortedByClosestMatch([rx]) == [rx];
  }

  /** `dist("Cat", "Fat") == 1`. */
  lemma CatFatDistance()
    ensures Distance("Cat", "Fat") == 1
  {
    assert Mismatches("Cat", "Fat", 3) == 1;
    assert CountIn("Cat", 3, {'c'}) == 1 && CountIn("Fat", 3, {'c'}) == 0;
    ExactDistance("Cat", "Fat", 1, {'c'});
  }

  /** `dist("Bats", "Fat") == 2`: drop the "s" and substitute the "B". */
  lemma BatsFatDistance()
    ensures Distance("Bats", "Fat") == 2
  {
    assert Mismatches("Bats", "Fat", 3) == 1;
    assert CountIn("Bats", 4, {'b', 's'}) == 2 && CountIn("Fat", 3, {'b', 's'}) == 0;
    ExactDistanceDropLast("Bats", "Fat", 2, {'b', 's'});
  }

  /** `dist("Bats", "Cat") == 2`: drop the "s" and substitute the "B". */
  lemma BatsCatDistance()
    ensures Distance("Bats", "Cat") == 2
  {
    assert Mismatches("Bats", "Cat", 3) == 1;
    assert CountIn("Bats", 4, {'b', 's'}) == 2 && CountIn("Cat", 3, {'b', 's'}) == 0;
    ExactDistanceDropLast("Bats", "Cat", 2, {'b', 's'});
  }

  /** A matcher holding the two short words of the unit tests' matcher,
      "Cat" at the root and "Bats" below it. */
  method ShortWordMatcher<T>(catData: T, batsData: T)
    returns (m: StringMatcher<T>, ghost cat: Node<T>, ghost bats: Node<T>)
    ensures m.Valid() && m.root != null && m.matchingOption == NoNormalization
    ensures m.nodes == {cat, bats} && cat != bats
    ensures cat.originalKeyword == "Cat" && cat.normalizedKeyword == "Cat" && cat.associatedData == catData
    ensures bats.originalKeyword == "Bats" && bats.normalizedKeyword == "Bats" && bats.associatedData == batsData
  {
    m := new StringMatcher();
    var r1, last1, added1 := m.Add(Some("Cat"), catData);
    assert m.nodes == {added1} && m.root == added1;
    var r2, last2, added2 := m.Add(Some("Bats"), batsData);
    assert added2 != null && added2 != added1;
    cat, bats := added1, added2;
  }

  /** A search on that matcher with a query within `t` of both words, where
      "Cat" scores higher, lists "Cat" and then "Bats". */
  method SearchShortWords<T>(m: StringMatcher<T>, ghost cat: Node<T>, ghost bats: Node<T>, query: string, t: int)
    returns (results: SearchResultList<T>)
    requires m.Valid() && m.root != null && m.matchingOption == NoNormalization
    requires m.nodes == {cat, bats} && cat != bats
    requires Distance(cat.normalizedKeyword, query) <= t && Distance(bats.normalizedKeyword, query) <= t
    requires 2 * t <= Int32Max
    requires ResultFor(cat, query).matchPercentage > ResultFor(bats, query).matchPercentage
    ensures results.items == [ResultFor(cat, query), ResultFor(bats, query)]
  {
    assert WindowFits(m.nodes, query, t);
    ghost var found;
    results, found := m.Search(query, t);
    forall i | 0 <= i < |found|
      ensures found[i] in {cat, bats}
    {
      assert found[i] in found;
    }
    BothInEitherOrder(found, cat, bats);
    TwoResultsSorted(found, cat, bats, query);
  }

  /** The unit tests' searches on the two short words: "Fat" within 2
      edits lists "Cat" before "Bats", and "Cat" within 2 edits scores them
      100% and 50%. */
  method ShortWords<T>(catData: T, batsData: T)
    returns (byFat: SearchResultList<T>, byCat: SearchResultList<T>)
    ensures |byFat.items| == 2
    ensures byFat.items[0].keyword == "Cat" && byFat.items[0].associatedData == catData
    ensures byFat.items[1].keyword == "Bats" && byFat.items[1].associatedData == batsData
    ensures |byCat.items| == 2
    ensures byCat.items[0].keyword == "Cat" && byCat.items[0].matchPercentage == 100.0
    ensures byCat.items[1].keyword == "Bats" && byCat.items[1].matchPercentage == 50.0
  {
    CatFatDistance();
    BatsFatDistance();
    BatsCatDistance();
    DistanceToSelf("Cat");
    var m, cat, bats := ShortWordMatcher(catData, batsData);
    assert ResultFor(bats, "Fat").matchPercentage == 50.0;
    byFat := SearchShortWords(m, cat, bats, "Fat", 2);
    assert ResultFor(cat, "Cat").matchPercentage == 100.0;
    assert ResultFor(bats, "Cat").matchPercentage == 50.0;
    byCat := SearchShortWords(m, cat, bats, "Cat", 2);
  }
}
