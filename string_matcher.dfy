/** The BK-tree of StringMatcher.java: keywords are stored in a tree whose
    child edges are labelled with edit distances, so that a fuzzy search
    can skip every subtree the triangle inequality rules out. */
module StringMatching {
  import opened Wrappers
  import opened EditDistanceCalculator
  import opened SearchResults

  // ---------------------------------------------------------------------
  // Normalisation
  // ---------------------------------------------------------------------

  /** `MatchingOption`: whether keywords and queries are compared as they
      are, or with every space and line break removed first. */
  datatype MatchingOption = NoNormalization | RemoveSpacingAndLinebreaks

  /** The characters of the regular expression class `[\t\n\r\s]`. */
  predicate IsWhitespace(c: char) {
    c == ' ' || c == '\t' || c == '\n' || c == '\U{000B}' || c == '\U{000C}' || c == '\r'
  }

  /** `removeSpacesAndLinebreaks`: drop every whitespace character. */
  function RemoveSpacesAndLinebreaks(s: string): (r: string)
    ensures |r| <= |s|
    ensures forall i :: 0 <= i < |r| ==> !IsWhitespace(r[i])
  {
    if s == [] then []
    else (if IsWhitespace(s[0]) then [] else [s[0]]) + RemoveSpacesAndLinebreaks(s[1..])
  }

  /** A string without whitespace is left as it is. */
  lemma {:induction false} RemoveWithoutWhitespace(s: string)
    requires forall i :: 0 <= i < |s| ==> !IsWhitespace(s[i])
    ensures RemoveSpacesAndLinebreaks(s) == s
  {
    if s != [] {
      RemoveWithoutWhitespace(s[1..]);
      assert s == [s[0]] + s[1..];
    }
  }

  /** Removal works piecewise: together with the lemma above this pins the
      result down as the subsequence of non-whitespace characters. */
  lemma {:induction false} RemoveDistributes(a: string, b: string)
    ensures RemoveSpacesAndLinebreaks(a + b) == RemoveSpacesAndLinebreaks(a) + RemoveSpacesAndLinebreaks(b)
  {
    if a != [] {
      RemoveDistributes(a[1..], b);
      assert (a + b)[1..] == a[1..] + b;
    } else {
      assert a + b == b;
    }
  }

  /** `getNormalizedString`. */
  function GetNormalizedString(matchingOption: MatchingOption, s: string): (r: string)
    ensures matchingOption == NoNormalization ==> r == s
    ensures matchingOption == RemoveSpacingAndLinebreaks ==> forall i :: 0 <= i < |r| ==> !IsWhitespace(r[i])
  {
    if matchingOption == RemoveSpacingAndLinebreaks then RemoveSpacesAndLinebreaks(s) else s
  }

  /** Normalising twice is normalising once. */
  lemma NormalizeIdempotent(matchingOption: MatchingOption, s: string)
    ensures GetNormalizedString(matchingOption, GetNormalizedString(matchingOption, s))
         == GetNormalizedString(matchingOption, s)
  {
    if matchingOption == RemoveSpacingAndLinebreaks {
      RemoveWithoutWhitespace(RemoveSpacesAndLinebreaks(s));
    }
  }

  // ---------------------------------------------------------------------
  // Percentages
  // ---------------------------------------------------------------------

  /** The range of a Java `int`. */
  const Int32Min: int := -0x8000_0000
  const Int32Max: int := 0x7fff_ffff

  /** Java `int` arithmetic: the representable value congruent to `x`
      modulo 2^32, which is `x` itself whenever `x` is representable. */
  function Wrap32(x: int): (r: int)
    ensures Int32Min <= r <= Int32Max
    ensures (x - r) % 0x1_0000_0000 == 0
    ensures Int32Min <= x <= Int32Max ==> r == x
  {
    (x - Int32Min) % 0x1_0000_0000 + Int32Min
  }

  /** Rounding an exact value to the nearest integer, halves rounded up. */
  function Round(x: real): (n: int)
    ensures n as real - 0.5 <= x < n as real + 0.5
  {
    (x + 0.5).Floor
  }

  /** `Math.round(float)`: the rounded value, saturated at the bounds of
      `int`. */
  function SaturatingRound(x: real): (n: int)
    ensures Int32Min <= n <= Int32Max
    ensures Int32Min <= Round(x) <= Int32Max ==> n == Round(x)
  {
    var n := Round(x);
    if n < Int32Min then Int32Min else if n > Int32Max then Int32Max else n
  }

  /** The saturated value is the `int` nearest to the rounded one: it lies
      between the rounded value and any `int`. */
  lemma SaturatingRoundNearest(x: real, k: int)
    requires Int32Min <= k <= Int32Max
    ensures k <= SaturatingRound(x) <= Round(x) || Round(x) <= SaturatingRound(x) <= k
  {
  }

  /** Saturated rounding never decreases. */
  lemma SaturatingRoundMonotone(x: real, y: real)
    requires x <= y
    ensures SaturatingRound(x) <= SaturatingRound(y)
  {
    assert Round(x) <= Round(y);
  }

  /** `convertPercentageToEditDistance`: the number of edits that leave
      `matchPercentage` percent of the keyword's characters, rounded by
      `Math.round` and subtracted in `int` arithmetic. */
  function ConvertPercentageToEditDistance(keyword: string, matchPercentage: real): (t: int)
    ensures Int32Min <= t <= Int32Max
    ensures 0.0 <= matchPercentage <= 100.0 && |keyword| <= Int32Max ==>
      (|keyword| - t) as real - 0.5 <= |keyword| as real * matchPercentage / 100.0 &&
      |keyword| as real * matchPercentage / 100.0 < (|keyword| - t) as real + 0.5
    ensures 0.0 <= matchPercentage && |keyword| <= Int32Max ==> |keyword| - Int32Max <= t <= |keyword|
  {
    ThresholdNoWrap(keyword, matchPercentage);
    Wrap32(|keyword| - SaturatingRound((|keyword| as real * matchPercentage) / 100.0))
  }

  /** The share `n * p / 100` of a length grows with the percentage `p`. */
  lemma ShareMonotone(n: real, p: real, q: real)
    requires 0.0 <= n && p <= q
    ensures n * p / 100.0 <= n * q / 100.0
  {
    assert n * q - n * p == n * (q - p);
    assert 0.0 <= n * (q - p);
  }

  /** For a percentage between 0 and 100 the share lies between 0 and the
      length. */
  lemma ShareWithin(n: real, p: real)
    requires 0.0 <= n && 0.0 <= p
    ensures 0.0 <= n * p / 100.0
    ensures p <= 100.0 ==> n * p / 100.0 <= n
  {
    ShareMonotone(n, 0.0, p);
    if p <= 100.0 {
      ShareMonotone(n, p, 100.0);
    }
  }

  /** Rounding a value between 0 and a whole number stays between them. */
  lemma RoundWithin(x: real, n: nat)
    requires 0.0 <= x <= n as real
    ensures 0 <= Round(x) <= n
  {
  }

  /** For a non-negative percentage and a keyword as long as a Java string
      can be, the subtraction does not wrap. */
  lemma ThresholdNoWrap(keyword: string, matchPercentage: real)
    ensures 0.0 <= matchPercentage && |keyword| <= Int32Max ==>
      var n := SaturatingRound((|keyword| as real * matchPercentage) / 100.0);
      0 <= n && Int32Min <= |keyword| - n <= Int32Max
    ensures 0.0 <= matchPercentage <= 100.0 && |keyword| <= Int32Max ==>
      SaturatingRound((|keyword| as real * matchPercentage) / 100.0)
        == Round((|keyword| as real * matchPercentage) / 100.0)
  {
    if 0.0 <= matchPercentage {
      ShareWithin(|keyword| as real, matchPercentage);
    }
  }

  /** A 100% match allows no edit at all. */
  lemma FullMatchAllowsNoEdit(keyword: string)
    requires |keyword| <= Int32Max
    ensures ConvertPercentageToEditDistance(keyword, 100.0) == 0
  {
  }

  /** A percentage between 0 and 100 gives a threshold between 0 and the
      keyword's length. */
  lemma ThresholdWithinLength(keyword: string, matchPercentage: real)
    requires 0.0 <= matchPercentage <= 100.0 && |keyword| <= Int32Max
    ensures 0 <= ConvertPercentageToEditDistance(keyword, matchPercentage) <= |keyword|
  {
    var share := |keyword| as real * matchPercentage / 100.0;
    ShareWithin(|keyword| as real, matchPercentage);
    RoundWithin(share, |keyword|);
    ThresholdNoWrap(keyword, matchPercentage);
  }

  /** Asking for a closer match never allows more edits, as long as the
      percentages are not negative. */
  lemma ThresholdAntitone(keyword: string, p: real, q: real)
    requires 0.0 <= p <= q && |keyword| <= Int32Max
    ensures ConvertPercentageToEditDistance(keyword, q) <= ConvertPercentageToEditDistance(keyword, p)
  {
    var n := |keyword| as real;
    ShareMonotone(n, p, q);
    SaturatingRoundMonotone(n * p / 100.0, n * q / 100.0);
    ThresholdNoWrap(keyword, p);
    ThresholdNoWrap(keyword, q);
  }

  /** A percentage so negative that the kept share is below the least
      `int`: `Math.round` saturates there, and `length - round` wraps round
      to a negative threshold, so such a search matches nothing. */
  lemma NegativePercentageWraps(keyword: string, matchPercentage: real)
    requires |keyword| <= Int32Max
    requires |keyword| as real * matchPercentage / 100.0 < Int32Min as real - 0.5
    ensures ConvertPercentageToEditDistance(keyword, matchPercentage) == |keyword| + Int32Min
    ensures ConvertPercentageToEditDistance(keyword, matchPercentage) < 0
  {
    assert Round(|keyword| as real * matchPercentage / 100.0) < Int32Min;
  }

  /** On a ten-character query, 75%, 50% and 25% allow 2, 5 and 7 edits:
      7.5 and 2.5 are rounded up. */
  lemma TenCharacterThresholds(keyword: string)
    requires |keyword| == 10
    ensures ConvertPercentageToEditDistance(keyword, 75.0) == 2
    ensures ConvertPercentageToEditDistance(keyword, 50.0) == 5
    ensures ConvertPercentageToEditDistance(keyword, 25.0) == 7
  {
  }

  /** Dividing by a positive whole: the quotient times the whole is the
      share, and a share between 0 and the whole gives a quotient between 0
      and 1. */
  lemma RatioBounds(d: real, l: real)
    requires 0.0 < l
    ensures (d / l) * l == d
    ensures 0.0 <= d <= l ==> 0.0 <= d / l <= 1.0
    ensures 0.0 < d ==> 0.0 < d / l
  {
    var q := d / l;
    assert q * l == d;
    if 0.0 <= d <= l && q > 1.0 {
      assert false;
    }
    if 0.0 <= d <= l && q < 0.0 {
      assert false;
    }
    if 0.0 < d && q <= 0.0 {
      assert false;
    }
  }

  /** `getPercentageDifference`: the share of the longer word an edit
      distance leaves intact, in percent. Two empty words (possible only
      after normalisation) are taken as a 100% match. */
  function PercentageDifference(keyword: string, wordToMatch: string, editDistance: int): (p: real)
    ensures editDistance == 0 ==> p == 100.0
    ensures (|keyword| > 0 || |wordToMatch| > 0) && editDistance != 0 ==> p != 100.0
    ensures (|keyword| > 0 || |wordToMatch| > 0) && editDistance > 0 ==> p < 100.0
    ensures 0 <= editDistance && (editDistance <= |keyword| || editDistance <= |wordToMatch|) ==> 0.0 <= p <= 100.0
  {
    var longestWordLength := if |keyword| >= |wordToMatch| then |keyword| else |wordToMatch|;
    if longestWordLength == 0 then 100.0
    else
      RatioBounds(editDistance as real, longestWordLength as real);
      100.0 - ((editDistance as real / longestWordLength as real) * 100.0)
  }

  /** The percentage of a search hit lies in [0, 100] and is 100 exactly
      when the two words agree after case folding. */
  lemma MatchPercentageRange(keyword: string, wordToMatch: string)
    ensures 0.0 <= PercentageDifference(keyword, wordToMatch, Distance(keyword, wordToMatch)) <= 100.0
    ensures PercentageDifference(keyword, wordToMatch, Distance(keyword, wordToMatch)) == 100.0
        <==> LowerCase(keyword) == LowerCase(wordToMatch)
  {
    DistanceBounds(keyword, wordToMatch);
    DistanceZeroIff(keyword, wordToMatch);
  }

  /** A closer match never scores a lower percentage. */
  lemma PercentageAntitone(keyword: string, wordToMatch: string, d1: int, d2: int)
    requires d1 <= d2
    ensures PercentageDifference(keyword, wordToMatch, d2) <= PercentageDifference(keyword, wordToMatch, d1)
  {
    var l := if |keyword| >= |wordToMatch| then |keyword| else |wordToMatch|;
    if l > 0 {
      assert d1 as real / l as real <= d2 as real / l as real;
    }
  }

  // ---------------------------------------------------------------------
  // Tree nodes
  // ---------------------------------------------------------------------

  /** `Node<T>`: a stored keyword with its data and the children keyed by
      their edit distance. Java leaves `children` null until the first
      child arrives; the empty map stands for both, as every method treats
      them alike. The ghost constants record where the node was attached
      and when, which makes the tree shape immutable history. */
  class Node<T> {
    const originalKeyword: string
    const normalizedKeyword: string
    const associatedData: T
    var children: map<int, Node<T>>
    ghost const parent: Node?<T>
    ghost const key: int
    ghost const born: nat

    constructor (keyword: string, normalizedKeyword: string, associatedData: T,
                 ghost parent: Node?<T>, ghost key: int, ghost born: nat)
      ensures originalKeyword == keyword && this.normalizedKeyword == normalizedKeyword
      ensures this.associatedData == associatedData && children == map[]
      ensures this.parent == parent && this.key == key && this.born == born
    {
      originalKeyword := keyword;
      this.normalizedKeyword := normalizedKeyword;
      this.associatedData := associatedData;
      children := map[];
      this.parent := parent;
      this.key := key;
      this.born := born;
    }

    /** `containsChildWithDistance`. */
    function ContainsChildWithDistance(childKey: int): (b: bool)
      reads this
      ensures b <==> ChildKeysWithinDistance(childKey, childKey) == {childKey}
    {
      childKey in children
    }

    /** `getChild`: the child under `childKey`, or null when there is none. */
    function GetChild(childKey: int): (child: Node?<T>)
      reads this
      ensures child != null ==> child in children.Values
      ensures child == null <==> ChildKeysWithinDistance(childKey, childKey) == {}
    {
      if ContainsChildWithDistance(childKey) then children[childKey] else null
    }

    /** `getChildKeysWithinDistance`: the child keys in
        [minDistance, maxDistance]. Java returns them as a list in hash
        order; the order is immaterial, so the model returns a set. */
    function ChildKeysWithinDistance(minDistance: int, maxDistance: int): (keys: set<int>)
      reads this
      ensures keys <= children.Keys
      ensures forall k :: k in keys ==> minDistance <= k <= maxDistance
      ensures maxDistance < minDistance ==> keys == {}
    {
      set k | k in children && minDistance <= k <= maxDistance
    }

    /** `addChild`: store a new leaf under `childKey`, replacing whatever
        was stored there. */
    method AddChild(childKey: int, keyword: string, normalizedKeyword: string, associatedData: T,
                    ghost born: nat)
      returns (ghost child: Node<T>)
      modifies this
      ensures fresh(child) && children == old(children)[childKey := child]
      ensures child.originalKeyword == keyword && child.normalizedKeyword == normalizedKeyword
      ensures child.associatedData == associatedData && child.children == map[]
      ensures child.parent == this && child.key == childKey && child.born == born
    {
      var c := new Node(keyword, normalizedKeyword, associatedData, this, childKey, born);
      children := children[childKey := c];
      child := c;
    }
  }

  /** `m` lies in the subtree rooted at `a`. */
  ghost predicate IsDescendant<T>(m: Node<T>, a: Node<T>)
    decreases m.born
  {
    m == a || (m.parent != null && m.parent.born < m.born && IsDescendant(m.parent, a))
  }

  /** The child of `a` on the path down to its descendant `m`. */
  ghost function ChildTowards<T>(m: Node<T>, a: Node<T>): (c: Node<T>)
    requires IsDescendant(m, a) && m != a
    ensures c.parent == a && IsDescendant(m, c)
    decreases m.born
  {
    if m.parent == a then m else ChildTowards(m.parent, a)
  }

  /** `Add`'s walk for `keyword` gets to `c`: every edge on the way is
      labelled with the distance from the upper node to the keyword, and
      the walk did not stop early on a non-root node at distance 0. */
  ghost predicate Reaches<T>(c: Node<T>, keyword: string)
    decreases c.born
  {
    c.parent == null ||
    (c.parent.born < c.born && c.key == Distance(c.parent.normalizedKeyword, keyword)
     && (c.parent.parent != null ==> c.key != 0)
     && Reaches(c.parent, keyword))
  }

  /** The result `searchTree` reports for a node. */
  function ResultFor<T>(m: Node<T>, keyword: string): (r: SearchResult<T>)
    ensures r.keyword == m.originalKeyword && r.associatedData == m.associatedData
    ensures 0.0 <= r.matchPercentage <= 100.0
    ensures r.matchPercentage == 100.0 <==> LowerCase(m.normalizedKeyword) == LowerCase(keyword)
  {
    MatchPercentageRange(m.normalizedKeyword, keyword);
    SearchResult(m.originalKeyword, m.associatedData,
                 PercentageDifference(m.normalizedKeyword, keyword, Distance(m.normalizedKeyword, keyword)))
  }

  /** The results for a sequence of nodes, in order. */
  function ResultsFor<T>(ns: seq<Node<T>>, keyword: string): (r: seq<SearchResult<T>>)
    ensures |r| == |ns|
  {
    if ns == [] then [] else ResultsFor(ns[..|ns| - 1], keyword) + [ResultFor(ns[|ns| - 1], keyword)]
  }

  /** No node occurs twice. */
  ghost predicate Distinct<T>(ns: seq<Node<T>>) {
    forall i, j :: 0 <= i < j < |ns| ==> ns[i] != ns[j]
  }

  // ---------------------------------------------------------------------
  // Facts about the ancestor relation
  // ---------------------------------------------------------------------

  /** Descendants are attached later than their ancestors. */
  lemma {:induction false} DescendantBorn<T>(m: Node<T>, a: Node<T>)
    requires IsDescendant(m, a)
    ensures a.born <= m.born
    ensures m != a ==> a.born < m.born
    decreases m.born
  {
    if m != a {
      DescendantBorn(m.parent, a);
    }
  }

  /** A subtree's subtree is part of the subtree. */
  lemma {:induction false} DescendantTransitive<T>(m: Node<T>, c: Node<T>, a: Node<T>)
    requires IsDescendant(m, c) && IsDescendant(c, a)
    ensures IsDescendant(m, a)
    decreases m.born
  {
    if m != c {
      DescendantTransitive(m.parent, c, a);
    }
  }

  /** A node lies below exactly one child of each strict ancestor. */
  lemma {:induction false} ChildTowardsUnique<T>(m: Node<T>, c: Node<T>, a: Node<T>)
    requires IsDescendant(m, c) && c.parent == a && a.born < c.born
    ensures IsDescendant(m, a) && m != a && ChildTowards(m, a) == c
    decreases m.born
  {
    DescendantBorn(m, c);
    if m != c {
      ChildTowardsUnique(m.parent, c, a);
    }
  }

  /** Every node the walk passes on the way to `c` was reached as well. */
  lemma {:induction false} ReachesAncestor<T>(m: Node<T>, c: Node<T>, keyword: string)
    requires Reaches(m, keyword) && IsDescendant(m, c)
    ensures Reaches(c, keyword)
    decreases m.born
  {
    if m != c {
      ReachesAncestor(m.parent, c, keyword);
    }
  }

  /** Every stored keyword is non-empty and its normalised form is
      computed with `matchingOption`. */
  ghost predicate NormalizedWith<T>(matchingOption: MatchingOption, ns: set<Node<T>>) {
    forall n :: n in ns ==>
      n.originalKeyword != [] && n.normalizedKeyword == GetNormalizedString(matchingOption, n.originalKeyword)
  }

  /** The BK-tree invariant, on whole subtrees: every keyword stored below
      the child `c` is at distance `c.key` from `c`'s parent. The distance
      is the one `Add` measures, from the parent's normalised keyword to the
      raw keyword being added. */
  ghost predicate Ordered<T>(ns: set<Node<T>>) {
    forall m, c :: m in ns && c in ns && c.parent != null && IsDescendant(m, c) ==>
      Distance(c.parent.normalizedKeyword, m.originalKeyword) == c.key
  }

  /** Attaching a leaf where `Add`'s walk ended keeps the tree ordered. */
  lemma AttachKeepsOrdered<T>(ns: set<Node<T>>, p: Node<T>, leaf: Node<T>, word: string)
    requires Ordered(ns) && p in ns && Reaches(p, word) && leaf !in ns
    requires leaf.parent == p && leaf.key == Distance(p.normalizedKeyword, word) && leaf.originalKeyword == word
    requires forall n :: n in ns ==> n.born < leaf.born
    ensures Ordered(ns + {leaf})
  {
    forall m, c | m in ns + {leaf} && c in ns + {leaf} && c.parent != null && IsDescendant(m, c)
      ensures Distance(c.parent.normalizedKeyword, m.originalKeyword) == c.key
    {
      if m == leaf {
        if c != leaf {
          ReachesAncestor(p, c, word);
        }
      } else if c == leaf {
        DescendantBorn(m, c);
        assert false;
      }
    }
  }

  /** Concatenation is associative. */
  lemma AppendAssociative<X>(a: seq<X>, b: seq<X>, c: seq<X>)
    ensures (a + b) + c == a + (b + c)
  {
  }

  /** Results of a concatenation are the concatenated results. */
  lemma {:induction false} ResultsForAppend<T>(a: seq<Node<T>>, b: seq<Node<T>>, keyword: string)
    ensures ResultsFor(a + b, keyword) == ResultsFor(a, keyword) + ResultsFor(b, keyword)
    decreases |b|
  {
    if b == [] {
      assert a + b == a;
    } else {
      var b' := b[..|b| - 1];
      ResultsForAppend(a, b', keyword);
      assert (a + b)[..|a + b| - 1] == a + b';
    }
  }

  /** What one finished call of `searchTree(node, ...)` promises about
      the nodes `found` it reported: no node twice, every one a match
      within `t` below `node`, and, when `exhaustive`, every such match. */
  ghost predicate Searched<T>(ns: set<Node<T>>, node: Node<T>, keyword: string, t: int, exhaustive: bool,
                              found: seq<Node<T>>)
  {
    Distinct(found) &&
    (forall m :: m in found ==> m in ns && IsDescendant(m, node) && Distance(m.normalizedKeyword, keyword) <= t) &&
    (exhaustive ==>
       forall m :: m in ns && IsDescendant(m, node) && Distance(m.normalizedKeyword, keyword) <= t ==> m in found)
  }

  /** What one call of `searchTree(node, ...)` has achieved once the keys
      still in `keys` are the only ones left: every reported node is a
      distinct match below `node`; the ones below a child were reported
      while that child's key was processed; and in NONE mode every match
      not below a pending child has been reported. */
  ghost predicate SearchInvariant<T>(ns: set<Node<T>>, node: Node<T>, keyword: string, t: int, exhaustive: bool,
                                     found: seq<Node<T>>, window: set<int>, keys: set<int>)
  {
    Distinct(found) &&
    (forall m :: m in found ==> m in ns && IsDescendant(m, node) && Distance(m.normalizedKeyword, keyword) <= t) &&
    (forall m :: m in found && m != node ==> ChildTowards(m, node).key in window - keys) &&
    (exhaustive ==>
       forall m :: (m in ns && IsDescendant(m, node) && Distance(m.normalizedKeyword, keyword) <= t &&
                    (m == node || ChildTowards(m, node).key !in keys)) ==> m in found)
  }

  /** Every descendant of `node` whose path starts with the key of
      `child` lies below `child`: no other child has that key. */
  ghost predicate KeyLeadsTo<T>(ns: set<Node<T>>, node: Node<T>, child: Node<T>) {
    forall m :: m in ns && IsDescendant(m, node) && m != node && ChildTowards(m, node).key == child.key ==>
      ChildTowards(m, node) == child
  }

  /** Before any child is searched, only `node` itself can have been reported. */
  lemma SearchStart<T>(ns: set<Node<T>>, node: Node<T>, keyword: string, t: int, exhaustive: bool,
                       found: seq<Node<T>>, window: set<int>)
    requires node in ns
    requires found == (if Distance(node.normalizedKeyword, keyword) <= t then [node] else [])
    requires exhaustive ==>
      forall m :: (m in ns && IsDescendant(m, node) && m != node && Distance(m.normalizedKeyword, keyword) <= t)
        ==> ChildTowards(m, node).key in window
    ensures SearchInvariant(ns, node, keyword, t, exhaustive, found, window, window)
  {
  }

  /** Searching the child under one more key keeps the invariant. */
  lemma SearchStep<T>(ns: set<Node<T>>, node: Node<T>, child: Node<T>, keyword: string, t: int, exhaustive: bool,
                      found: seq<Node<T>>, more: seq<Node<T>>, window: set<int>, keys: set<int>)
    requires SearchInvariant(ns, node, keyword, t, exhaustive, found, window, keys)
    requires keys <= window && child.key in keys && child.parent == node && node.born < child.born
    requires Searched(ns, child, keyword, t, exhaustive, more)
    requires KeyLeadsTo(ns, node, child)
    ensures SearchInvariant(ns, node, keyword, t, exhaustive, found + more, window, keys - {child.key})
  {
    var f := found + more;
    forall m | m in more
      ensures m in ns && IsDescendant(m, node) && m != node && ChildTowards(m, node) == child
    {
      ChildTowardsUnique(m, child, node);
    }
    forall i, j | 0 <= i < j < |f|
      ensures f[i] != f[j]
    {
      if i < |found| && j >= |found| {
        assert f[i] in found && f[j] in more;
      }
    }
    if exhaustive {
      forall m | (m in ns && IsDescendant(m, node) && Distance(m.normalizedKeyword, keyword) <= t &&
                  (m == node || ChildTowards(m, node).key !in keys - {child.key}))
        ensures m in f
      {
        if m != node && ChildTowards(m, node).key == child.key {
          assert IsDescendant(m, child);
        }
      }
    }
  }

  /** With no key left, the invariant is the postcondition of `searchTree`. */
  lemma SearchDone<T>(ns: set<Node<T>>, node: Node<T>, keyword: string, t: int, exhaustive: bool,
                      found: seq<Node<T>>, window: set<int>)
    requires SearchInvariant(ns, node, keyword, t, exhaustive, found, window, {})
    ensures Searched(ns, node, keyword, t, exhaustive, found)
  {
  }

  /** The window `[d - t, d + t]` of `searchTree` fits in an `int` at
      every stored node: `d + t` does not overflow. Otherwise Java's
      `maxDistance` wraps to a negative number and the window closes. */
  ghost predicate WindowFits<T>(ns: set<Node<T>>, keyword: string, t: int) {
    forall n :: n in ns ==> Distance(n.normalizedKeyword, keyword) + t <= Int32Max
  }

  /** Keywords and a query short enough for the threshold keep every
      window inside the `int` range. */
  lemma ShortWordsFit<T>(ns: set<Node<T>>, keyword: string, t: int)
    requires |keyword| + t <= Int32Max
    requires forall n :: n in ns ==> |n.normalizedKeyword| + t <= Int32Max
    ensures WindowFits(ns, keyword, t)
  {
    forall n | n in ns
      ensures Distance(n.normalizedKeyword, keyword) + t <= Int32Max
    {
      DistanceBounds(n.normalizedKeyword, keyword);
    }
  }

  /** A non-empty set has a member. */
  lemma NonEmptyHasMember(keys: set<int>)
    requires keys != {}
    ensures exists k :: k in keys
  {
    if forall k :: k !in keys {
      assert false;
    }
  }

  // ---------------------------------------------------------------------
  // The matcher
  // ---------------------------------------------------------------------

  /** `StringMatcher<T>`: the root of the BK-tree and the matching option.
      The ghost set `nodes` is every node reachable from the root. */
  class StringMatcher<T> {
    var root: Node?<T>
    const matchingOption: MatchingOption
    ghost var nodes: set<Node<T>>

    /** The parent and child links agree, the root is the only node
        without a parent, and attachment times are below |nodes|. */
    ghost predicate Linked()
      reads this, nodes
    {
      (root == null <==> nodes == {}) &&
      (root != null ==> root in nodes) &&
      (forall n :: n in nodes ==> (n.parent == null <==> n == root)) &&
      (forall n :: n in nodes ==> n.born < |nodes|) &&
      (forall n :: n in nodes && n.parent != null ==>
         n.parent in nodes && n.parent.born < n.born &&
         n.key in n.parent.children && n.parent.children[n.key] == n) &&
      (forall n, k :: n in nodes && k in n.children ==>
         n.children[k] in nodes && n.children[k].parent == n && n.children[k].key == k)
    }

    ghost predicate Valid()
      reads this, nodes
    {
      Linked() && NormalizedWith(matchingOption, nodes) && Ordered(nodes)
    }

    /** The searches for which completeness is promised: NONE mode, with
        every window inside the `int` range. */
    ghost predicate Exhaustive(keyword: string, t: int)
      reads this
    {
      matchingOption == NoNormalization && WindowFits(nodes, keyword, t)
    }

    /** `StringMatcher()`: an empty matcher comparing keywords as they are. */
    constructor ()
      ensures Valid() && root == null && nodes == {} && matchingOption == NoNormalization
    {
      root := null;
      matchingOption := NoNormalization;
      nodes := {};
    }

    /** `StringMatcher(MatchingOption)`: an empty matcher with the given option. */
    constructor WithMatchingOption(matchingOption: MatchingOption)
      ensures Valid() && root == null && nodes == {} && this.matchingOption == matchingOption
    {
      root := null;
      this.matchingOption := matchingOption;
      nodes := {};
    }

    /** Every node is in the root's subtree. */
    lemma {:induction false} InRootSubtree(m: Node<T>)
      requires Valid() && m in nodes
      ensures IsDescendant(m, root)
      decreases m.born
    {
      if m.parent != null {
        InRootSubtree(m.parent);
      }
    }

    /** The parent chain of a stored node stays inside `nodes`. */
    lemma {:induction false} AncestorStored(m: Node<T>, a: Node<T>)
      requires Valid() && m in nodes && IsDescendant(m, a)
      ensures a in nodes
      decreases m.born
    {
      if m != a {
        AncestorStored(m.parent, a);
      }
    }

    /** `containsChildWithDistance(k)` on a stored node holds exactly when
        some stored node is attached below it under the edge `k`. */
    lemma ContainsChildIffAttached(node: Node<T>, k: int)
      requires Valid() && node in nodes
      ensures node.ContainsChildWithDistance(k) <==> exists c :: c in nodes && c.parent == node && c.key == k
    {
      if node.ContainsChildWithDistance(k) {
        var c := node.children[k];
        assert c in nodes && c.parent == node && c.key == k;
      }
    }

    /** `getChild(k)` on a stored node returns the node attached below it
        under the edge `k`, and null when there is none. */
    lemma GetChildIsAttached(node: Node<T>, k: int)
      requires Valid() && node in nodes
      ensures node.GetChild(k) != null ==>
        node.GetChild(k) in nodes && node.GetChild(k).parent == node && node.GetChild(k).key == k
      ensures forall c :: c in nodes && c.parent == node && c.key == k ==> node.GetChild(k) == c
    {
    }

    /** `getChildKeysWithinDistance(lo, hi)` on a stored node returns
        exactly the edges within [lo, hi] of the nodes attached below it. */
    lemma ChildKeysAreAttachedKeys(node: Node<T>, lo: int, hi: int)
      requires Valid() && node in nodes
      ensures forall k :: k in node.ChildKeysWithinDistance(lo, hi) ==>
        lo <= k <= hi && node.children[k] in nodes && node.children[k].parent == node && node.children[k].key == k
      ensures forall c :: c in nodes && c.parent == node && lo <= c.key <= hi ==>
        c.key in node.ChildKeysWithinDistance(lo, hi)
    {
    }

    /** `Add`: reject a null or empty keyword; make the first keyword the
        root; otherwise walk down from the root along the edges labelled
        with the distance to the keyword, stop on a non-root node at
        distance 0 (a duplicate), or attach a new leaf where the walk ends.
        `last` is where the walk ended and `added` the new node, if any. */
    method Add(keyword: Option<string>, associatedData: T)
      returns (r: Outcome, ghost last: Node?<T>, ghost added: Node?<T>)
      requires Valid()
      modifies this, nodes
      ensures Valid()
      ensures keyword.None? ==> r == Fail(IllegalArgument("Strings must not be null"))
      ensures keyword == Some([]) ==> r == Fail(IllegalArgument("Strings must not be empty"))
      ensures keyword.Some? && keyword.value != [] ==> r == Pass
      ensures r.Fail? ==> last == null && added == null
      ensures added == null ==>
        root == old(root) && nodes == old(nodes) && forall n :: n in nodes ==> n.children == old(n.children)
      ensures added != null ==>
        fresh(added) && nodes == old(nodes) + {added} &&
        added.originalKeyword == keyword.value &&
        added.normalizedKeyword == GetNormalizedString(matchingOption, keyword.value) &&
        added.associatedData == associatedData && added.children == map[]
      ensures r.Pass? && old(root) == null ==> last == null && added != null && root == added
      ensures r.Pass? && old(root) != null ==>
        root == old(root) && last != null && last in old(nodes) && Reaches(last, keyword.value) &&
        (added == null <==> last.parent != null && Distance(last.normalizedKeyword, keyword.value) == 0)
      ensures added != null && last != null ==>
        added.parent == last && added.key == Distance(last.normalizedKeyword, keyword.value) &&
        added.key !in old(last.children) && last.children == old(last.children)[added.key := added] &&
        forall n :: n in old(nodes) && n != last ==> n.children == old(n.children)
    {
      if keyword.None? {
        return Fail(IllegalArgument("Strings must not be null")), null, null;
      }
      var word := keyword.value;
      if |word| == 0 {
        return Fail(IllegalArgument("Strings must not be empty")), null, null;
      }
      var normalizedKeyword := GetNormalizedString(matchingOption, word);

      if root == null {
        root := new Node(word, normalizedKeyword, associatedData, null, 0, 0);
        nodes := {root};
        return Pass, null, root;
      }

      last, added := AddBelowRoot(word, normalizedKeyword, associatedData);
      return Pass, last, added;
    }

    /** The `else` branch of `Add`: the walk from the root and what it
        leaves behind, either nothing (a duplicate) or one new leaf. */
    method AddBelowRoot(word: string, normalizedKeyword: string, associatedData: T)
      returns (ghost last: Node<T>, ghost added: Node?<T>)
      requires Valid() && root != null && word != []
      requires normalizedKeyword == GetNormalizedString(matchingOption, word)
      modifies this`nodes, nodes
      ensures Valid()
      ensures last in old(nodes) && Reaches(last, word)
      ensures added == null <==> last.parent != null && Distance(last.normalizedKeyword, word) == 0
      ensures added == null ==> nodes == old(nodes) && forall n :: n in nodes ==> n.children == old(n.children)
      ensures added != null ==>
        fresh(added) && nodes == old(nodes) + {added} &&
        added.originalKeyword == word && added.normalizedKeyword == normalizedKeyword &&
        added.associatedData == associatedData && added.children == map[] &&
        added.parent == last && added.key == Distance(last.normalizedKeyword, word) &&
        added.key !in old(last.children) && last.children == old(last.children)[added.key := added] &&
        forall n :: n in old(nodes) && n != last ==> n.children == old(n.children)
    {
      var current, distance, duplicate := Walk(word);
      if duplicate {
        return current, null;  // Duplicate
      }
      added := Attach(current, distance, word, normalizedKeyword, associatedData);
      return current, added;
    }

    /** The `while` loop of `Add`: from the root, follow the child stored
        under the distance to `word` for as long as there is one, stopping
        early on a node below the root at distance 0. The walk ends either
        on such a `duplicate` or on a node with no child under `distance`. */
    method Walk(word: string) returns (current: Node<T>, distance: int, duplicate: bool)
      requires Valid() && root != null
      ensures current in nodes && Reaches(current, word)
      ensures distance == Distance(current.normalizedKeyword, word)
      ensures duplicate <==> current.parent != null && distance == 0
      ensures !duplicate ==> distance !in current.children
    {
      current := root;
      var res := CalculateEditDistance(Some(current.normalizedKeyword), Some(word));
      distance := res.value;
      while current.ContainsChildWithDistance(distance)
        invariant current in nodes && Reaches(current, word)
        invariant distance == Distance(current.normalizedKeyword, word)
        invariant current.parent != null ==> distance != 0
        decreases |nodes| - current.born
      {
        var child := current.GetChild(distance);
        assert child in nodes && child.parent == current && child.key == distance;
        assert current.born < child.born < |nodes|;
        current := child;
        res := CalculateEditDistance(Some(current.normalizedKeyword), Some(word));
        distance := res.value;
        if distance == 0 {
          return current, distance, true;  // Duplicate
        }
      }
      duplicate := false;
    }

    /** `current.addChild(distance, ...)` at the end of `Add`'s walk, with
        the new leaf recorded in `nodes`. */
    method Attach(p: Node<T>, distance: int, word: string, normalizedKeyword: string, associatedData: T)
      returns (ghost leaf: Node<T>)
      requires Valid() && p in nodes && Reaches(p, word) && word != []
      requires distance == Distance(p.normalizedKeyword, word) && distance !in p.children
      requires normalizedKeyword == GetNormalizedString(matchingOption, word)
      modifies this`nodes, p
      ensures Valid()
      ensures fresh(leaf) && nodes == old(nodes) + {leaf}
      ensures leaf.originalKeyword == word && leaf.normalizedKeyword == normalizedKeyword
      ensures leaf.associatedData == associatedData && leaf.children == map[]
      ensures leaf.parent == p && leaf.key == distance && p.children == old(p.children)[distance := leaf]
    {
      leaf := p.AddChild(distance, word, normalizedKeyword, associatedData, |nodes|);
      AttachKeepsOrdered(nodes, p, leaf, word);
      assert leaf !in nodes;
      nodes := nodes + {leaf};
      assert |nodes| == |old(nodes)| + 1;
      forall n | n in nodes && n.parent != null
        ensures n.parent in nodes && n.parent.born < n.born && n.key in n.parent.children && n.parent.children[n.key] == n
      {
        if n != leaf && n.parent == p {
          assert n.key in old(p.children);
        }
      }
      forall n, k | n in nodes && k in n.children
        ensures n.children[k] in nodes && n.children[k].parent == n && n.children[k].key == k
      {
        if n == p && k != distance {
          assert k in old(p.children);
        }
      }
    }

    /** The part of the triangle inequality the search relies on: in
        NONE mode, a keyword within `t` of the query lies below a child
        whose key is inside the window [d - t, d + t] around the distance
        `d` from `node` to the query. */
    lemma ChildKeyInWindow(node: Node<T>, m: Node<T>, keyword: string, t: int)
      requires Valid() && matchingOption == NoNormalization
      requires node in nodes && m in nodes && IsDescendant(m, node) && m != node
      requires Distance(m.normalizedKeyword, keyword) <= t
      ensures ChildTowards(m, node).key in node.children
      ensures Distance(node.normalizedKeyword, keyword) - t <= ChildTowards(m, node).key
      ensures ChildTowards(m, node).key <= Distance(node.normalizedKeyword, keyword) + t
    {
      var c := ChildTowards(m, node);
      AncestorStored(m, c);
      assert Distance(node.normalizedKeyword, m.originalKeyword) == c.key;
      PruningWindow(node.normalizedKeyword, m.normalizedKeyword, keyword, t);
    }

    /** `search(keyword, distanceThreshold)`: every stored keyword whose
        normalised form is within `distanceThreshold` edits of the
        normalised query, closest first. The matches are reported in NONE
        mode without exception; with whitespace removal some can be pruned
        away, because the tree was built on raw keywords. */
    method Search(keyword: string, distanceThreshold: int)
      returns (results: SearchResultList<T>, ghost found: seq<Node<T>>)
      requires Valid() && root != null
      requires Int32Min <= distanceThreshold <= Int32Max
      ensures fresh(results)
      ensures results.items == SortedByClosestMatch(ResultsFor(found, GetNormalizedString(matchingOption, keyword)))
      ensures Descending(results.items)
      ensures Distinct(found)
      ensures forall m :: m in found ==>
        m in nodes && Distance(m.normalizedKeyword, GetNormalizedString(matchingOption, keyword)) <= distanceThreshold
      ensures Exhaustive(keyword, distanceThreshold) ==>
        forall m :: m in nodes && Distance(m.normalizedKeyword, keyword) <= distanceThreshold ==> m in found
    {
      var query := GetNormalizedString(matchingOption, keyword);
      results, found := SearchTree(query, distanceThreshold);
    }

    /** `search(keyword, matchPercentage)`: the same search with the
        threshold `convertPercentageToEditDistance` derives from the
        normalised query and the percentage. */
    method SearchByPercentage(keyword: string, matchPercentage: real)
      returns (results: SearchResultList<T>, ghost found: seq<Node<T>>)
      requires Valid() && root != null
      ensures fresh(results)
      ensures results.items == SortedByClosestMatch(ResultsFor(found, GetNormalizedString(matchingOption, keyword)))
      ensures Descending(results.items)
      ensures Distinct(found)
      ensures forall m :: m in found ==>
        m in nodes &&
        Distance(m.normalizedKeyword, GetNormalizedString(matchingOption, keyword))
          <= ConvertPercentageToEditDistance(GetNormalizedString(matchingOption, keyword), matchPercentage)
      ensures Exhaustive(keyword, ConvertPercentageToEditDistance(keyword, matchPercentage)) ==>
        forall m :: (m in nodes &&
                     Distance(m.normalizedKeyword, keyword) <= ConvertPercentageToEditDistance(keyword, matchPercentage))
          ==> m in found
    {
      var query := GetNormalizedString(matchingOption, keyword);
      var distanceThreshold := ConvertPercentageToEditDistance(query, matchPercentage);
      results, found := SearchTree(query, distanceThreshold);
    }

    /** `searchTree(keyword, distanceThreshold)`: collect the results of
        the whole tree into a new list and sort it, closest match first. */
    method SearchTree(keyword: string, distanceThreshold: int)
      returns (results: SearchResultList<T>, ghost found: seq<Node<T>>)
      requires Valid() && root != null
      requires Int32Min <= distanceThreshold <= Int32Max
      ensures fresh(results)
      ensures results.items == SortedByClosestMatch(ResultsFor(found, keyword))
      ensures Descending(results.items)
      ensures Distinct(found)
      ensures forall m :: m in found ==> m in nodes && Distance(m.normalizedKeyword, keyword) <= distanceThreshold
      ensures Exhaustive(keyword, distanceThreshold) ==>
        forall m :: m in nodes && Distance(m.normalizedKeyword, keyword) <= distanceThreshold ==> m in found
    {
      ghost var ns := nodes;
      if Exhaustive(keyword, distanceThreshold) {
        forall m | m in ns
          ensures IsDescendant(m, root)
        {
          InRootSubtree(m);
        }
      }
      results := new SearchResultList();
      found := SearchSubtree(root, keyword, distanceThreshold, results);
      assert results.items == ResultsFor(found, keyword);
      results.SortByClosestMatch();
      assert nodes == ns;
    }

    /** The pruning `searchTree` does loses nothing in NONE mode: every
        keyword below `node` within `t` of the query lies below a child
        whose key `ChildKeysWithinDistance` returns for the window
        [d - t, d + t], where `d` is the distance from `node` to the query. */
    lemma MatchesInWindow(node: Node<T>, keyword: string, t: int)
      requires Valid() && matchingOption == NoNormalization && node in nodes
      ensures forall m :: m in nodes && IsDescendant(m, node) && m != node && Distance(m.normalizedKeyword, keyword) <= t ==>
        ChildTowards(m, node).key in node.ChildKeysWithinDistance(Distance(node.normalizedKeyword, keyword) - t,
                                                                  Distance(node.normalizedKeyword, keyword) + t)
    {
      forall m | m in nodes && IsDescendant(m, node) && m != node && Distance(m.normalizedKeyword, keyword) <= t
        ensures ChildTowards(m, node).key in
                  node.ChildKeysWithinDistance(Distance(node.normalizedKeyword, keyword) - t,
                                               Distance(node.normalizedKeyword, keyword) + t)
      {
        ChildKeyInWindow(node, m, keyword, t);
      }
    }

    /** A node has at most one child under each key, so the path from
        `node` down to any of its descendants with first key `child.key`
        starts with `child`. */
    lemma OneChildPerKey(node: Node<T>, child: Node<T>)
      requires Valid() && node in nodes && child in nodes && child.parent == node
      ensures KeyLeadsTo(nodes, node, child)
    {
      forall m | m in nodes && IsDescendant(m, node) && m != node && ChildTowards(m, node).key == child.key
        ensures ChildTowards(m, node) == child
      {
        var c := ChildTowards(m, node);
        AncestorStored(m, c);
      }
    }

    /** `searchTree(node, ...)`: report `node` when it is within the
        threshold, then search the subtrees whose keys lie in the window
        the triangle inequality leaves open. `found` lists the reported
        nodes in the order their results were appended to `results`. */
    method SearchSubtree(node: Node<T>, keyword: string, distanceThreshold: int, results: SearchResultList<T>)
      returns (ghost found: seq<Node<T>>)
      requires Valid() && node in nodes
      modifies results
      decreases |nodes| - node.born, 2
      ensures results.items == old(results.items) + ResultsFor(found, keyword)
      ensures Searched(nodes, node, keyword, distanceThreshold, Exhaustive(keyword, distanceThreshold), found)
    {
      var res := CalculateEditDistance(Some(node.normalizedKeyword), Some(keyword));
      var currentDistance := res.value;
      var minDistance := Wrap32(currentDistance - distanceThreshold);
      var maxDistance := Wrap32(currentDistance + distanceThreshold);
      var childKeys := node.ChildKeysWithinDistance(minDistance, maxDistance);
      if Exhaustive(keyword, distanceThreshold) && distanceThreshold >= 0 {
        assert currentDistance + distanceThreshold <= Int32Max;
        assert minDistance == currentDistance - distanceThreshold && maxDistance == currentDistance + distanceThreshold;
        MatchesInWindow(node, keyword, distanceThreshold);
      }

      found := [];
      if currentDistance <= distanceThreshold {
        Report(node, keyword, currentDistance, results);
        found := [node];
      }
      SearchStart(nodes, node, keyword, distanceThreshold, Exhaustive(keyword, distanceThreshold), found, childKeys);
      found := SearchChildren(node, keyword, distanceThreshold, childKeys, results, old(results.items), found);
    }

    /** The report of a node within the threshold: its original keyword,
        its data and the match percentage, appended to `results`. */
    method Report(node: Node<T>, keyword: string, currentDistance: int, results: SearchResultList<T>)
      requires Valid() && currentDistance == Distance(node.normalizedKeyword, keyword)
      modifies results
      ensures Valid()
      ensures results.items == old(results.items) + [ResultFor(node, keyword)]
    {
      var percentageDifference := PercentageDifference(node.normalizedKeyword, keyword, currentDistance);
      var result := SearchResult(node.originalKeyword, node.associatedData, percentageDifference);
      results.Add(result);
    }

    /** The loop of `searchTree(node, ...)` over the child keys `childKeys`
        inside the window: search the subtree under each key in turn,
        appending to `results`, which already holds `prefix` followed by
        the results for `found`. */
    method SearchChildren(node: Node<T>, keyword: string, distanceThreshold: int, childKeys: set<int>,
                          results: SearchResultList<T>, ghost prefix: seq<SearchResult<T>>, ghost found: seq<Node<T>>)
      returns (ghost allFound: seq<Node<T>>)
      requires Valid() && node in nodes
      requires childKeys <= node.children.Keys
      requires results.items == prefix + ResultsFor(found, keyword)
      requires SearchInvariant(nodes, node, keyword, distanceThreshold, Exhaustive(keyword, distanceThreshold), found,
                               childKeys, childKeys)
      modifies results
      decreases |nodes| - node.born, 1
      ensures results.items == prefix + ResultsFor(allFound, keyword)
      ensures Searched(nodes, node, keyword, distanceThreshold, Exhaustive(keyword, distanceThreshold), allFound)
    {
      var keys := childKeys;
      allFound := found;
      while keys != {}
        invariant Valid() && keys <= childKeys
        invariant results.items == prefix + ResultsFor(allFound, keyword)
        invariant SearchInvariant(nodes, node, keyword, distanceThreshold, Exhaustive(keyword, distanceThreshold), allFound,
                                  childKeys, keys)
        decreases |keys|
      {
        var childKey := PickKey(keys);
        allFound := SearchChild(node, keyword, distanceThreshold, childKey, childKeys, keys, results, prefix, allFound);
        keys := keys - {childKey};
      }
      SearchDone(nodes, node, keyword, distanceThreshold, Exhaustive(keyword, distanceThreshold), allFound, childKeys);
    }

    /** The next key the iteration over a hash set visits: any of them. */
    static method PickKey(keys: set<int>) returns (k: int)
      requires keys != {}
      ensures k in keys
    {
      NonEmptyHasMember(keys);
      k :| k in keys;
    }

    /** One turn of that loop: search the subtree under `childKey`, one of
        the keys still pending in `keys`. */
    method SearchChild(node: Node<T>, keyword: string, distanceThreshold: int, childKey: int,
                       ghost window: set<int>, ghost keys: set<int>,
                       results: SearchResultList<T>, ghost prefix: seq<SearchResult<T>>, ghost found: seq<Node<T>>)
      returns (ghost allFound: seq<Node<T>>)
      requires Valid() && node in nodes
      requires childKey in keys && keys <= window && window <= node.children.Keys
      requires results.items == prefix + ResultsFor(found, keyword)
      requires SearchInvariant(nodes, node, keyword, distanceThreshold, Exhaustive(keyword, distanceThreshold), found,
                               window, keys)
      modifies results
      decreases |nodes| - node.born, 0
      ensures Valid()
      ensures results.items == prefix + ResultsFor(allFound, keyword)
      ensures SearchInvariant(nodes, node, keyword, distanceThreshold, Exhaustive(keyword, distanceThreshold), allFound,
                              window, keys - {childKey})
    {
      var child := node.GetChild(childKey);
      assert child in nodes && child.parent == node && child.key == childKey && node.born < child.born;
      OneChildPerKey(node, child);
      ghost var more := SearchSubtree(child, keyword, distanceThreshold, results);
      SearchStep(nodes, node, child, keyword, distanceThreshold, Exhaustive(keyword, distanceThreshold),
                 found, more, window, keys);
      ResultsForAppend(found, more, keyword);
      AppendAssociative(prefix, ResultsFor(found, keyword), ResultsFor(more, keyword));
      allFound := found + more;
    }
  }
}
