/** The case-insensitive Levenshtein distance of EditDistanceCalculator.java:
    a recursive reference definition (Distance), the two-row dynamic program
    the class runs (CalculateEditDistance), and the metric properties that the
    BK-tree's pruning rests on. */
module EditDistanceCalculator {
  import opened Wrappers

  /** Case folding applied to every character before it is compared
      (ASCII letters only). */
  function ToLower(c: char): (r: char)
    ensures !('A' <= r <= 'Z')
    ensures !('A' <= c <= 'Z') ==> r == c
  {
    if 'A' <= c <= 'Z' then (c as int - 'A' as int + 'a' as int) as char else c
  }

  /** A string with every character folded. */
  function LowerCase(s: string): (r: string)
    ensures |r| == |s|
    ensures forall i :: 0 <= i < |r| ==> ToLower(r[i]) == r[i]
    ensures forall i :: 0 <= i < |s| ==> ToLower(r[i]) == ToLower(s[i])
  {
    seq(|s|, i requires 0 <= i < |s| => ToLower(s[i]))
  }

  /** Folding a folded string changes nothing, so every string has one
      folded form. */
  lemma LowerCaseIdempotent(s: string)
    ensures LowerCase(LowerCase(s)) == LowerCase(s)
  {
  }

  /** The cost of substituting `y` for `x`: free when they are equal after folding. */
  function SwapCharsCost(x: char, y: char): (cost: nat) {
    if ToLower(x) == ToLower(y) then 0 else 1
  }

  /** `min(a, b, c)`, written as `Math.min(Math.min(a, b), c)`. */
  function Min(a: int, b: int, c: int): (m: int)
    ensures m <= a && m <= b && m <= c
    ensures m == a || m == b || m == c
  {
    var ab := if a <= b then a else b;
    if ab <= c then ab else c
  }

  /** Levenshtein distance with unit costs over folded characters between
      the prefixes a[..i] and b[..j]. It is cell (j, i) of the matrix whose
      rows the dynamic program fills: the distance from a prefix to "" is its
      length, and every other cell is the cheapest of the three edits. */
  function PrefixDistance(a: string, b: string, i: nat, j: nat): (d: nat)
    requires i <= |a| && j <= |b|
    decreases i + j, 1
  {
    if i == 0 then j
    else if j == 0 then i
    else Min(InsertionCost(a, b, i, j), DeletionCost(a, b, i, j), SubstitutionCost(a, b, i, j))
  }

  /** Reach b[..j] from a[..i] by reaching b[..j - 1] and inserting b[j - 1]. */
  function InsertionCost(a: string, b: string, i: nat, j: nat): (cost: nat)
    requires 1 <= i <= |a| && 1 <= j <= |b|
    decreases i + j, 0
  {
    PrefixDistance(a, b, i, j - 1) + 1
  }

  /** Reach b[..j] from a[..i] by deleting a[i - 1] and reaching b[..j] from a[..i - 1]. */
  function DeletionCost(a: string, b: string, i: nat, j: nat): (cost: nat)
    requires 1 <= i <= |a| && 1 <= j <= |b|
    decreases i + j, 0
  {
    PrefixDistance(a, b, i - 1, j) + 1
  }

  /** Reach b[..j] from a[..i] by turning a[i - 1] into b[j - 1]. */
  function SubstitutionCost(a: string, b: string, i: nat, j: nat): (cost: nat)
    requires 1 <= i <= |a| && 1 <= j <= |b|
    decreases i + j, 0
  {
    PrefixDistance(a, b, i - 1, j - 1) + SwapCharsCost(a[i - 1], b[j - 1])
  }

  /** The edit distance between two whole strings. */
  function Distance(a: string, b: string): (d: nat) {
    PrefixDistance(a, b, |a|, |b|)
  }

  /** The step of the inner loop: the three costs computed from the two
      rows give the next cell. */
  lemma PrefixDistanceCell(a: string, b: string, i: nat, j: nat, ins: int, del: int, sub: int)
    requires 1 <= i <= |a| && 1 <= j <= |b|
    requires ins == PrefixDistance(a, b, i, j - 1) + 1
    requires del == PrefixDistance(a, b, i - 1, j) + 1
    requires sub == PrefixDistance(a, b, i - 1, j - 1) + (if ToLower(a[i - 1]) == ToLower(b[j - 1]) then 0 else 1)
    ensures Min(ins, del, sub) == PrefixDistance(a, b, i, j)
  {
  }

  /** `calculateEditDistance`: null arguments are rejected; otherwise the
      result is the Levenshtein distance, computed with two rows of length
      |str1| + 1 that swap roles after every row of the matrix. */
  method CalculateEditDistance(str1: Option<string>, str2: Option<string>) returns (r: Result<nat>)
    ensures str1.None? || str2.None? ==> r == Failure(IllegalArgument("Argument cannot be null."))
    ensures str1.Some? && str2.Some? ==> r == Success(Distance(str1.value, str2.value))
  {
    if str1.None? || str2.None? {
      return Failure(IllegalArgument("Argument cannot be null."));
    }
    var s1, s2 := str1.value, str2.value;
    if |s1| == 0 {
      return Success(|s2|);
    }
    if |s2| == 0 {
      return Success(|s1|);
    }

    var str1Length := |s1| + 1;
    var str2Length := |s2| + 1;
    var previousRow := new int[str1Length];
    var currentRow := new int[str1Length];

    // The first row of the matrix: the distances from the prefixes of str1 to "".
    for i := 0 to str1Length
      invariant forall k :: 0 <= k < i ==> previousRow[k] == PrefixDistance(s1, s2, k, 0)
    {
      previousRow[i] := i;
    }

    // After the row for str2[..rowIndex - 1], previousRow holds that row.
    for rowIndex := 1 to str2Length
      invariant previousRow.Length == str1Length && currentRow.Length == str1Length
      invariant previousRow != currentRow
      invariant fresh(previousRow) && fresh(currentRow)
      invariant forall k :: 0 <= k < str1Length ==> previousRow[k] == PrefixDistance(s1, s2, k, rowIndex - 1)
    {
      // The first column of the matrix: the distance from "" to str2[..rowIndex].
      currentRow[0] := rowIndex;
      for colIndex := 1 to str1Length
        invariant forall k :: 0 <= k < colIndex ==> currentRow[k] == PrefixDistance(s1, s2, k, rowIndex)
        invariant forall k :: 0 <= k < str1Length ==> previousRow[k] == PrefixDistance(s1, s2, k, rowIndex - 1)
      {
        var str1Char := ToLower(s1[colIndex - 1]);
        var str2Char := ToLower(s2[rowIndex - 1]);
        var swapCharsCost := if str1Char == str2Char then 0 else 1;
        var substitutionCost := previousRow[colIndex - 1] + swapCharsCost;
        var insertionCost := previousRow[colIndex] + 1;
        var deletionCost := currentRow[colIndex - 1] + 1;
        PrefixDistanceCell(s1, s2, colIndex, rowIndex, insertionCost, deletionCost, substitutionCost);
        currentRow[colIndex] := Min(insertionCost, deletionCost, substitutionCost);
      }
      previousRow, currentRow := currentRow, previousRow;
    }

    return Success(previousRow[str1Length - 1]);
  }

  // ---------------------------------------------------------------------
  // Metric properties, stated on prefixes and then on whole strings
  // ---------------------------------------------------------------------

  /** The distance is at least the difference of the lengths. */
  lemma {:induction false} LengthDifferenceBound(a: string, b: string, i: nat, j: nat)
    requires i <= |a| && j <= |b|
    ensures PrefixDistance(a, b, i, j) >= i - j && PrefixDistance(a, b, i, j) >= j - i
    decreases i + j
  {
    if i > 0 && j > 0 {
      LengthDifferenceBound(a, b, i, j - 1);
      LengthDifferenceBound(a, b, i - 1, j);
      LengthDifferenceBound(a, b, i - 1, j - 1);
    }
  }

  /** The distance is at most the length of the longer prefix. */
  lemma {:induction false} LongerLengthBound(a: string, b: string, i: nat, j: nat)
    requires i <= |a| && j <= |b|
    ensures PrefixDistance(a, b, i, j) <= if i >= j then i else j
    decreases i + j
  {
    if i > 0 && j > 0 {
      LongerLengthBound(a, b, i - 1, j - 1);
    }
  }

  /** The distance is 0 exactly when the prefixes agree after folding. */
  lemma {:induction false} PrefixDistanceZeroIff(a: string, b: string, i: nat, j: nat)
    requires i <= |a| && j <= |b|
    ensures PrefixDistance(a, b, i, j) == 0 <==> i == j && forall p :: 0 <= p < i ==> ToLower(a[p]) == ToLower(b[p])
    decreases i + j
  {
    LengthDifferenceBound(a, b, i, j);
    if i > 0 && j > 0 {
      PrefixDistanceZeroIff(a, b, i - 1, j - 1);
    }
  }

  /** Swapping the arguments gives the same distance. */
  lemma {:induction false} PrefixDistanceSymmetric(a: string, b: string, i: nat, j: nat)
    requires i <= |a| && j <= |b|
    ensures PrefixDistance(a, b, i, j) == PrefixDistance(b, a, j, i)
    decreases i + j
  {
    if i > 0 && j > 0 {
      PrefixDistanceSymmetric(a, b, i, j - 1);
      PrefixDistanceSymmetric(a, b, i - 1, j);
      PrefixDistanceSymmetric(a, b, i - 1, j - 1);
    }
  }

  /** The triangle inequality on prefixes, by induction on i + j + k and a
      case split on which edit realises each of the two right-hand distances. */
  lemma {:induction false} PrefixTriangle(a: string, b: string, c: string, i: nat, j: nat, k: nat)
    requires i <= |a| && j <= |b| && k <= |c|
    ensures PrefixDistance(a, c, i, k) <= PrefixDistance(a, b, i, j) + PrefixDistance(b, c, j, k)
    decreases i + j + k
  {
    if i == 0 {
      LengthDifferenceBound(b, c, j, k);
    } else if j == 0 {
      LongerLengthBound(a, c, i, k);
    } else if k == 0 {
      LengthDifferenceBound(a, b, i, j);
    } else if PrefixDistance(a, b, i, j) == DeletionCost(a, b, i, j) {
      PrefixTriangle(a, b, c, i - 1, j, k);
    } else if PrefixDistance(b, c, j, k) == InsertionCost(b, c, j, k) {
      PrefixTriangle(a, b, c, i, j, k - 1);
    } else if PrefixDistance(a, b, i, j) == InsertionCost(a, b, i, j) {
      if PrefixDistance(b, c, j, k) == DeletionCost(b, c, j, k) {
        PrefixTriangle(a, b, c, i, j - 1, k);
      } else {
        PrefixTriangle(a, b, c, i, j - 1, k - 1);
      }
    } else {
      if PrefixDistance(b, c, j, k) == DeletionCost(b, c, j, k) {
        PrefixTriangle(a, b, c, i - 1, j - 1, k);
      } else {
        PrefixTriangle(a, b, c, i - 1, j - 1, k - 1);
      }
    }
  }

  /** Folding the case of both arguments first does not change the distance. */
  lemma {:induction false} PrefixDistanceCaseInsensitive(a: string, b: string, i: nat, j: nat)
    requires i <= |a| && j <= |b|
    ensures PrefixDistance(a, b, i, j) == PrefixDistance(LowerCase(a), LowerCase(b), i, j)
    decreases i + j
  {
    if i > 0 && j > 0 {
      PrefixDistanceCaseInsensitive(a, b, i, j - 1);
      PrefixDistanceCaseInsensitive(a, b, i - 1, j);
      PrefixDistanceCaseInsensitive(a, b, i - 1, j - 1);
    }
  }

  /** `dist(x, "") == |x|` and `dist("", x) == |x|`. */
  lemma DistanceToEmpty(a: string)
    ensures Distance(a, "") == |a| && Distance("", a) == |a|
  {
  }

  /** The distance is 0 exactly when the two strings agree after folding. */
  lemma DistanceZeroIff(a: string, b: string)
    ensures Distance(a, b) == 0 <==> LowerCase(a) == LowerCase(b)
  {
    PrefixDistanceZeroIff(a, b, |a|, |b|);
    if LowerCase(a) == LowerCase(b) {
      assert forall p :: 0 <= p < |a| ==> ToLower(a[p]) == LowerCase(a)[p];
    }
  }

  /** Every string is at distance 0 from itself. */
  lemma DistanceToSelf(a: string)
    ensures Distance(a, a) == 0
  {
    DistanceZeroIff(a, a);
  }

  /** Swapping the arguments gives the same distance. */
  lemma DistanceSymmetric(a: string, b: string)
    ensures Distance(a, b) == Distance(b, a)
  {
    PrefixDistanceSymmetric(a, b, |a|, |b|);
  }

  /** Case folding happens before comparison: it never changes the distance. */
  lemma DistanceCaseInsensitive(a: string, b: string)
    ensures Distance(a, b) == Distance(LowerCase(a), LowerCase(b))
  {
    PrefixDistanceCaseInsensitive(a, b, |a|, |b|);
  }

  /** The distance lies between the difference of the lengths and the longer length. */
  lemma DistanceBounds(a: string, b: string)
    ensures |a| - |b| <= Distance(a, b) && |b| - |a| <= Distance(a, b)
    ensures Distance(a, b) <= if |a| >= |b| then |a| else |b|
  {
    LengthDifferenceBound(a, b, |a|, |b|);
    LongerLengthBound(a, b, |a|, |b|);
  }

  /** The triangle inequality: going through `b` is never shorter. */
  lemma TriangleInequality(a: string, b: string, c: string)
    ensures Distance(a, c) <= Distance(a, b) + Distance(b, c)
  {
    PrefixTriangle(a, b, c, |a|, |b|, |c|);
  }

  /** The reverse triangle inequality in the form the BK-tree's pruning uses:
      a string `m` within `t` of the query `q` lies at a distance from `n`
      no further than `t` from `Distance(n, q)`. */
  lemma PruningWindow(n: string, m: string, q: string, t: int)
    requires Distance(m, q) <= t
    ensures Distance(n, q) - t <= Distance(n, m) <= Distance(n, q) + t
  {
    TriangleInequality(n, m, q);
    TriangleInequality(n, q, m);
    DistanceSymmetric(q, m);
  }

  // ---------------------------------------------------------------------
  // Bounds that pin down concrete distances
  // ---------------------------------------------------------------------

  /** The number of positions below `i` where two strings differ after folding. */
  function Mismatches(a: string, b: string, i: nat): (r: nat)
    requires i <= |a| && i <= |b|
    ensures r <= i
  {
    if i == 0 then 0 else Mismatches(a, b, i - 1) + SwapCharsCost(a[i - 1], b[i - 1])
  }

  /** The number of positions below `i` whose folded character is in `s`. */
  function CountIn(a: string, i: nat, s: set<char>): (r: nat)
    requires i <= |a|
    ensures r <= i
  {
    if i == 0 then 0 else CountIn(a, i - 1, s) + (if ToLower(a[i - 1]) in s then 1 else 0)
  }

  /** Substituting position by position is one way to edit: equal-length
      prefixes are no further apart than their number of mismatches. */
  lemma {:induction false} MismatchBound(a: string, b: string, i: nat)
    requires i <= |a| && i <= |b|
    ensures PrefixDistance(a, b, i, i) <= Mismatches(a, b, i)
  {
    if i > 0 {
      MismatchBound(a, b, i - 1);
      assert PrefixDistance(a, b, i, i) <= SubstitutionCost(a, b, i, i);
    }
  }

  /** Every edit changes the number of characters drawn from `s` by at most
      one, so the distance is at least the surplus of such characters. */
  lemma {:induction false} CountSurplusBound(a: string, b: string, i: nat, j: nat, s: set<char>)
    requires i <= |a| && j <= |b|
    ensures PrefixDistance(a, b, i, j) >= CountIn(a, i, s) - CountIn(b, j, s)
    decreases i + j
  {
    if i > 0 && j > 0 {
      CountSurplusBound(a, b, i, j - 1, s);
      CountSurplusBound(a, b, i - 1, j, s);
      CountSurplusBound(a, b, i - 1, j - 1, s);
    }
  }

  /** A distance pinned from both sides: `n` substitutions suffice, and
      the first string has `n` more characters from `s` than the second. */
  lemma ExactDistance(a: string, b: string, n: nat, s: set<char>)
    requires |a| == |b| && Mismatches(a, b, |a|) <= n
    requires CountIn(a, |a|, s) - CountIn(b, |b|, s) >= n
    ensures Distance(a, b) == n
  {
    MismatchBound(a, b, |a|);
    CountSurplusBound(a, b, |a|, |b|, s);
  }

  /** Dropping the last character of the longer string is one edit more
      than substituting along the common length. */
  lemma DropLastBound(a: string, b: string, i: nat)
    requires i + 1 <= |a| && i <= |b|
    ensures PrefixDistance(a, b, i + 1, i) <= Mismatches(a, b, i) + 1
  {
    if i > 0 {
      MismatchBound(a, b, i);
      assert PrefixDistance(a, b, i + 1, i) <= DeletionCost(a, b, i + 1, i);
    }
  }

  /** A distance pinned from both sides when the first string is one
      character longer: `n` edits suffice along the common length and the
      dropped character, and the first string has `n` more characters from
      `s` than the second. */
  lemma ExactDistanceDropLast(a: string, b: string, n: nat, s: set<char>)
    requires |a| == |b| + 1 && Mismatches(a, b, |b|) + 1 <= n
    requires CountIn(a, |a|, s) - CountIn(b, |b|, s) >= n
    ensures Distance(a, b) == n
  {
    DropLastBound(a, b, |b|);
    CountSurplusBound(a, b, |a|, |b|, s);
  }

  /** `dist("Hat", "Cat") == 1`. */
  lemma HatCatDistance()
    ensures Distance("Hat", "Cat") == 1
  {
    assert Mismatches("Hat", "Cat", 3) == 1;
    assert CountIn("Hat", 3, {'h'}) == 1 && CountIn("Cat", 3, {'h'}) == 0;
    ExactDistance("Hat", "Cat", 1, {'h'});
  }

  /** `dist("Test", "test") == 0`: case is folded before comparison. */
  lemma FoldedCaseDistance()
    ensures Distance("Test", "test") == 0
  {
    assert Mismatches("Test", "test", 4) == 0;
    ExactDistance("Test", "test", 0, {});
  }

  /** `dist("Test", "") == 4` and `dist("", "Test") == 4`. */
  lemma EmptyStringDistance()
    ensures Distance("Test", "") == 4 && Distance("", "Test") == 4
  {
    DistanceToEmpty("Test");
  }

  /** `dist("This is a long string", "Th1s is a l0ng str1ng") == 3`: three
      substitutions suffice, and the first string has three more of the
      letters 'i' and 'o' than the second. */
  lemma LongStringDistance()
    ensures Distance("This is a long string", "Th1s is a l0ng str1ng") == 3
  {
    LongStringMismatches();
    LongStringLetterCount();
    MisspeltStringLetterCount();
    ExactDistance("This is a long string", "Th1s is a l0ng str1ng", 3, {'i', 'o'});
  }

  /** The two long strings differ in three positions. */
  lemma LongStringMismatches()
    ensures Mismatches("This is a long string", "Th1s is a l0ng str1ng", 21) == 3
  {
    var a, b := "This is a long string", "Th1s is a l0ng str1ng";
    LongStringFrontMismatches();
    assert Mismatches(a, b, 14) == 2;
    assert Mismatches(a, b, 17) == 2;
  }

  /** Their first ten characters differ in one position. */
  lemma LongStringFrontMismatches()
    ensures Mismatches("This is a long string", "Th1s is a l0ng str1ng", 10) == 1
  {
    var a, b := "This is a long string", "Th1s is a l0ng str1ng";
    assert Mismatches(a, b, 3) == 1;
    assert Mismatches(a, b, 6) == 1;
  }

  /** The first long string has four of the letters 'i' and 'o'. */
  lemma LongStringLetterCount()
    ensures CountIn("This is a long string", 21, {'i', 'o'}) == 4
  {
    var a, s := "This is a long string", {'i', 'o'};
    LongStringFrontLetterCount();
    assert CountIn(a, 14, s) == 3;
    assert CountIn(a, 17, s) == 3;
  }

  /** Its first ten characters hold two of them. */
  lemma LongStringFrontLetterCount()
    ensures CountIn("This is a long string", 10, {'i', 'o'}) == 2
  {
    var a, s := "This is a long string", {'i', 'o'};
    assert CountIn(a, 3, s) == 1;
    assert CountIn(a, 6, s) == 2;
  }

  /** The second long string has one of the letters 'i' and 'o'. */
  lemma MisspeltStringLetterCount()
    ensures CountIn("Th1s is a l0ng str1ng", 21, {'i', 'o'}) == 1
  {
    var b, s := "Th1s is a l0ng str1ng", {'i', 'o'};
    MisspeltStringFrontLetterCount();
    assert CountIn(b, 14, s) == 1;
    assert CountIn(b, 17, s) == 1;
  }

  /** Its first ten characters hold that one. */
  lemma MisspeltStringFrontLetterCount()
    ensures CountIn("Th1s is a l0ng str1ng", 10, {'i', 'o'}) == 1
  {
    var b, s := "Th1s is a l0ng str1ng", {'i', 'o'};
    assert CountIn(b, 3, s) == 0;
    assert CountIn(b, 6, s) == 1;
  }
}
