/** The result list of SearchResultList.java: an append-only list of
    (keyword, data, match percentage) records with an exact-keyword
    membership test and a stable sort by descending match percentage. */
module SearchResults {

  /** One hit of a search: the stored keyword as it was added, its data and
      how closely it matched, in percent. */
  datatype SearchResult<T> = SearchResult(keyword: string, associatedData: T, matchPercentage: real)

  /** `SortByClosestMatchComparator.compare`: a negative answer puts `s1`
      first, so higher percentages come first and equal ones compare equal. */
  function Compare<T>(s1: SearchResult<T>, s2: SearchResult<T>): (c: int)
    ensures c < 0 <==> s1.matchPercentage > s2.matchPercentage
    ensures c == 0 <==> s1.matchPercentage == s2.matchPercentage
    ensures -1 <= c <= 1
  {
    if s1.matchPercentage < s2.matchPercentage then 1
    else if s1.matchPercentage > s2.matchPercentage then -1
    else 0
  }

  /** The comparator is antisymmetric, as `Comparator` demands. */
  lemma CompareAntisymmetric<T>(s1: SearchResult<T>, s2: SearchResult<T>)
    ensures Compare(s1, s2) == -Compare(s2, s1)
  {
  }

  /** The comparator is transitive, as `Comparator` demands. */
  lemma CompareTransitive<T>(s1: SearchResult<T>, s2: SearchResult<T>, s3: SearchResult<T>)
    requires Compare(s1, s2) <= 0 && Compare(s2, s3) <= 0
    ensures Compare(s1, s3) <= 0
  {
  }

  /** Match percentages never increase along the list. */
  ghost predicate Descending<T>(s: seq<SearchResult<T>>) {
    forall i, j :: 0 <= i < j < |s| ==> s[i].matchPercentage >= s[j].matchPercentage
  }

  /** The results whose percentage is exactly `p`, in their original order. */
  function WithPercentage<T>(s: seq<SearchResult<T>>, p: real): (r: seq<SearchResult<T>>)
    ensures |r| <= |s|
  {
    if s == [] then []
    else (if s[0].matchPercentage == p then [s[0]] else []) + WithPercentage(s[1..], p)
  }

  /** Exactly the results of percentage `p` are kept. */
  lemma {:induction false} WithPercentageMembers<T>(s: seq<SearchResult<T>>, p: real, x: SearchResult<T>)
    ensures x in WithPercentage(s, p) <==> x in s && x.matchPercentage == p
  {
    if s != [] {
      WithPercentageMembers(s[1..], p, x);
      assert s == [s[0]] + s[1..];
    }
  }

  /** Insert `x` in front of the first element it does not compare after. */
  function Insert<T>(x: SearchResult<T>, s: seq<SearchResult<T>>): (r: seq<SearchResult<T>>)
    ensures |r| == |s| + 1
  {
    if s == [] then [x]
    else if Compare(x, s[0]) <= 0 then [x] + s
    else [s[0]] + Insert(x, s[1..])
  }

  /** What `Collections.sort` with the comparator leaves in the list: an
      insertion sort that never moves an element past an equal one. */
  function SortedByClosestMatch<T>(s: seq<SearchResult<T>>): (r: seq<SearchResult<T>>)
    ensures |r| == |s|
  {
    if s == [] then [] else Insert(s[0], SortedByClosestMatch(s[1..]))
  }

  /** Insertion adds exactly `x`. */
  lemma {:induction false} InsertPermutation<T>(x: SearchResult<T>, s: seq<SearchResult<T>>)
    ensures multiset(Insert(x, s)) == multiset(s) + multiset{x}
  {
    if s != [] && Compare(x, s[0]) > 0 {
      InsertPermutation(x, s[1..]);
      assert s == [s[0]] + s[1..];
    }
  }

  /** Insertion into a descending list gives a descending list. */
  lemma {:induction false} InsertDescending<T>(x: SearchResult<T>, s: seq<SearchResult<T>>)
    requires Descending(s)
    ensures Descending(Insert(x, s))
  {
    if s != [] && Compare(x, s[0]) > 0 {
      DescendingTail(s);
      InsertDescending(x, s[1..]);
      var rest := Insert(x, s[1..]);
      InsertPermutation(x, s[1..]);
      forall j | 0 <= j < |rest|
        ensures s[0].matchPercentage >= rest[j].matchPercentage
      {
        assert rest[j] in multiset(rest);
        assert rest[j] == x || rest[j] in s[1..];
      }
    }
  }

  /** The sort returns a permutation of its input. */
  lemma {:induction false} SortPermutation<T>(s: seq<SearchResult<T>>)
    ensures multiset(SortedByClosestMatch(s)) == multiset(s)
  {
    if s != [] {
      SortPermutation(s[1..]);
      InsertPermutation(s[0], SortedByClosestMatch(s[1..]));
      assert s == [s[0]] + s[1..];
    }
  }

  /** The sort returns the highest percentages first. */
  lemma {:induction false} SortDescending<T>(s: seq<SearchResult<T>>)
    ensures Descending(SortedByClosestMatch(s))
  {
    if s != [] {
      SortDescending(s[1..]);
      InsertDescending(s[0], SortedByClosestMatch(s[1..]));
    }
  }

  /** Inserting `x` adds it at the front of its own percentage class and
      leaves every other class as it was. */
  lemma {:induction false} InsertWithPercentage<T>(x: SearchResult<T>, s: seq<SearchResult<T>>, p: real)
    ensures WithPercentage(Insert(x, s), p)
         == (if x.matchPercentage == p then [x] else []) + WithPercentage(s, p)
  {
    if s != [] && Compare(x, s[0]) > 0 {
      InsertWithPercentage(x, s[1..], p);
      assert Insert(x, s)[1..] == Insert(x, s[1..]);
    } else if s != [] {
      assert Insert(x, s)[1..] == s;
    }
  }

  /** Stability: results with the same percentage keep their relative order. */
  lemma {:induction false} SortStable<T>(s: seq<SearchResult<T>>, p: real)
    ensures WithPercentage(SortedByClosestMatch(s), p) == WithPercentage(s, p)
  {
    if s != [] {
      SortStable(s[1..], p);
      InsertWithPercentage(s[0], SortedByClosestMatch(s[1..]), p);
    }
  }

  /** Sorting a list that is already in order leaves it unchanged. */
  lemma {:induction false} SortIdempotent<T>(s: seq<SearchResult<T>>)
    requires Descending(s)
    ensures SortedByClosestMatch(s) == s
  {
    if s != [] {
      SortIdempotent(s[1..]);
      if |s| > 1 {
        assert Compare(s[0], s[1]) <= 0;
      }
      assert s == [s[0]] + s[1..];
    }
  }

  /** Any ordering that is descending and keeps every percentage class in
      its original order is the sorted list: the sort is characterised by
      these two properties alone. */
  lemma {:induction false} SortUnique<T>(s: seq<SearchResult<T>>, r: seq<SearchResult<T>>)
    requires Descending(r)
    requires forall p :: WithPercentage(r, p) == WithPercentage(s, p)
    ensures r == SortedByClosestMatch(s)
  {
    var t := SortedByClosestMatch(s);
    SortDescending(s);
    forall p
      ensures WithPercentage(r, p) == WithPercentage(t, p)
    {
      SortStable(s, p);
    }
    DescendingClassesDetermine(r, t);
  }

  /** Two descending lists with the same percentage classes are equal. */
  lemma {:induction false} DescendingClassesDetermine<T>(r: seq<SearchResult<T>>, t: seq<SearchResult<T>>)
    requires Descending(r) && Descending(t)
    requires forall p :: WithPercentage(r, p) == WithPercentage(t, p)
    ensures r == t
    decreases |r|
  {
    if r == [] && t == [] {
    } else if r == [] {
      HeadClassNonEmpty(t);
      assert false;
    } else if t == [] {
      HeadClassNonEmpty(r);
      assert false;
    } else {
      var m, n := r[0].matchPercentage, t[0].matchPercentage;
      WithPercentageMembers(r, m, r[0]);
      WithPercentageMembers(t, m, r[0]);
      WithPercentageMembers(t, n, t[0]);
      WithPercentageMembers(r, n, t[0]);
      assert m == n;
      assert r[0] == t[0] by {
        assert WithPercentage(r, m)[0] == r[0];
        assert WithPercentage(t, m)[0] == t[0];
      }
      forall p
        ensures WithPercentage(r[1..], p) == WithPercentage(t[1..], p)
      {
        var front := if m == p then [r[0]] else [];
        assert WithPercentage(r, p) == front + WithPercentage(r[1..], p);
        assert WithPercentage(t, p) == front + WithPercentage(t[1..], p);
        assert WithPercentage(r[1..], p) == WithPercentage(r, p)[|front|..];
        assert WithPercentage(t[1..], p) == WithPercentage(t, p)[|front|..];
      }
      DescendingTail(r);
      DescendingTail(t);
      DescendingClassesDetermine(r[1..], t[1..]);
      assert r == [r[0]] + r[1..] && t == [t[0]] + t[1..];
    }
  }

  /** The class of the first element is not empty. */
  lemma HeadClassNonEmpty<T>(s: seq<SearchResult<T>>)
    requires s != []
    ensures WithPercentage(s, s[0].matchPercentage) != []
  {
  }

  /** The tail of a descending list is descending. */
  lemma DescendingTail<T>(s: seq<SearchResult<T>>)
    requires Descending(s) && s != []
    ensures Descending(s[1..])
  {
    assert forall i :: 0 <= i < |s| - 1 ==> s[1..][i] == s[i + 1];
  }

  /** `SearchResultList<T>`: the `ArrayList` it extends is the sequence
      `items`. */
  class SearchResultList<T> {
    var items: seq<SearchResult<T>>

    /** An empty list. */
    constructor ()
      ensures items == []
    {
      items := [];
    }

    /** `add`: append one result. */
    method Add(result: SearchResult<T>)
      modifies this
      ensures items == old(items) + [result]
    {
      items := items + [result];
    }

    /** `containsKeyword`: some result's keyword equals `keyword` exactly,
        with no case folding. */
    function ContainsKeyword(keyword: string): (b: bool)
      reads this
      ensures b <==> exists i :: 0 <= i < |items| && items[i].keyword == keyword
    {
      ContainsKeywordIn(items, keyword)
    }

    /** `sortByClosestMatch`: reorder the list in place, highest percentage
        first, keeping equal percentages in their original order. */
    method SortByClosestMatch()
      modifies this
      ensures items == SortedByClosestMatch(old(items))
      ensures Descending(items) && multiset(items) == multiset(old(items))
    {
      SortDescending(items);
      SortPermutation(items);
      items := SortedByClosestMatch(items);
    }
  }

  /** The stream filter of `containsKeyword`, over a plain sequence. */
  function ContainsKeywordIn<T>(s: seq<SearchResult<T>>, keyword: string): (b: bool)
    ensures b <==> exists i :: 0 <= i < |s| && s[i].keyword == keyword
  {
    if s == [] then false
    else s[0].keyword == keyword || ContainsKeywordIn(s[1..], keyword)
  }

  /** Sorting never changes which keywords the list contains. */
  lemma SortPreservesKeywords<T>(s: seq<SearchResult<T>>, keyword: string)
    ensures ContainsKeywordIn(SortedByClosestMatch(s), keyword) == ContainsKeywordIn(s, keyword)
  {
    var r := SortedByClosestMatch(s);
    SortPermutation(s);
    if ContainsKeywordIn(s, keyword) {
      var i :| 0 <= i < |s| && s[i].keyword == keyword;
      assert s[i] in multiset(r);
    }
    if ContainsKeywordIn(r, keyword) {
      var i :| 0 <= i < |r| && r[i].keyword == keyword;
      assert r[i] in multiset(s);
    }
  }
}
