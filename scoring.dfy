/**
  The gateway's scoring helpers: the card set, consensus, the numeric votes,
  their average, median and mode. Votes reach these functions as the list of
  their raw string values, in the vote Map's insertion order.
 */
module Scoring {
  import opened Wrappers
  import JsMap
  import JsNumbers

  /** The deck's card values, in the order the gateway lists them. */
  const Cards: seq<int> := [0, 1, 2, 3, 5, 8, 13, 21, 34]

  /** `isValidFibonacciNumber`. */
  predicate IsCard(n: int) {
    n in Cards
  }

  function Fib(k: nat): nat {
    if k < 2 then k else Fib(k - 1) + Fib(k - 2)
  }

  /** The cards are exactly the Fibonacci numbers up to the ninth, 34. */
  lemma CardsAreFibonacci(n: int)
    ensures IsCard(n) <==> exists k :: 0 <= k <= 9 && Fib(k) == n
  {
    assert Fib(2) == 1 && Fib(3) == 2 && Fib(4) == 3 && Fib(5) == 5;
    assert Fib(6) == 8 && Fib(7) == 13 && Fib(8) == 21 && Fib(9) == 34;
    if IsCard(n) {
      if n == 0 { assert Fib(0) == n; }
      else if n == 1 { assert Fib(1) == n; }
      else if n == 2 { assert Fib(3) == n; }
      else if n == 3 { assert Fib(4) == n; }
      else if n == 5 { assert Fib(5) == n; }
      else if n == 8 { assert Fib(6) == n; }
      else if n == 13 { assert Fib(7) == n; }
      else if n == 21 { assert Fib(8) == n; }
      else { assert Fib(9) == n; }
    }
  }

  /** `parseInt` applied to every vote. */
  function Parsed(values: seq<string>): (r: seq<Option<int>>)
    ensures |r| == |values|
  {
    seq(|values|, i requires 0 <= i < |values| => JsNumbers.ParseInt(values[i]))
  }

  /** JavaScript `===` on two parse results: NaN equals nothing, not even NaN. */
  predicate StrictEquals(a: Option<int>, b: Option<int>) {
    a.Some? && b.Some? && a.value == b.value
  }

  /** `hasConsensus`: there are votes, and every parsed vote is `===` the first one. */
  predicate HasConsensus(values: seq<string>) {
    var parsed := Parsed(values);
    |parsed| != 0 && forall i :: 0 <= i < |parsed| ==> StrictEquals(parsed[i], parsed[0])
  }

  /** Every vote parses to the integer `c`. */
  ghost predicate AllParseTo(values: seq<string>, c: int) {
    forall i :: 0 <= i < |values| ==> JsNumbers.ParseInt(values[i]) == Some(c)
  }

  /** Consensus means: at least one vote, and one integer that every vote parses to. */
  lemma HasConsensusIff(values: seq<string>)
    ensures HasConsensus(values) <==> |values| > 0 && exists c :: AllParseTo(values, c)
  {
    if HasConsensus(values) {
      var c := Parsed(values)[0].value;
      forall i | 0 <= i < |values|
        ensures JsNumbers.ParseInt(values[i]) == Some(c)
      {
        assert StrictEquals(Parsed(values)[i], Parsed(values)[0]);
      }
      assert AllParseTo(values, c);
    }
    if |values| > 0 && exists c :: AllParseTo(values, c) {
      var c :| AllParseTo(values, c);
      assert forall i :: 0 <= i < |values| ==> Parsed(values)[i] == Some(c);
    }
  }

  /** One vote that does not parse rules consensus out. */
  lemma NaNBreaksConsensus(values: seq<string>, i: nat)
    requires i < |values| && JsNumbers.ParseInt(values[i]).None?
    ensures !HasConsensus(values)
  {
    assert !StrictEquals(Parsed(values)[i], Parsed(values)[0]);
  }

  function NumericOf(p: Option<int>): seq<int> {
    match p
    case Some(n) => [n]
    case None => []
  }

  /** `values.map(parseInt).filter(v => !isNaN(v))`. */
  function NumericValues(values: seq<string>): (r: seq<int>)
    ensures |r| <= |values|
  {
    if |values| == 0 then [] else NumericOf(JsNumbers.ParseInt(values[0])) + NumericValues(values[1..])
  }

  /** The numeric votes are exactly the parse results that are numbers. */
  lemma {:induction false} NumericValuesMembers(values: seq<string>, x: int)
    ensures x in NumericValues(values) <==> exists i :: 0 <= i < |values| && JsNumbers.ParseInt(values[i]) == Some(x)
  {
    if |values| > 0 {
      NumericValuesMembers(values[1..], x);
      if x in NumericValues(values[1..]) {
        var i :| 0 <= i < |values[1..]| && JsNumbers.ParseInt(values[1..][i]) == Some(x);
        assert JsNumbers.ParseInt(values[i + 1]) == Some(x);
      }
      if exists i :: 0 <= i < |values| && JsNumbers.ParseInt(values[i]) == Some(x) {
        var i :| 0 <= i < |values| && JsNumbers.ParseInt(values[i]) == Some(x);
        if i > 0 { assert values[1..][i - 1] == values[i]; }
      }
    }
  }

  /** When every vote parses, nothing is filtered out and the order is kept. */
  lemma {:induction false} NumericValuesAllParse(values: seq<string>)
    requires forall i :: 0 <= i < |values| ==> JsNumbers.ParseInt(values[i]).Some?
    ensures |NumericValues(values)| == |values|
    ensures forall i :: 0 <= i < |values| ==> Some(NumericValues(values)[i]) == JsNumbers.ParseInt(values[i])
  {
    if |values| > 0 {
      NumericValuesAllParse(values[1..]);
      forall i | 1 <= i < |values|
        ensures Some(NumericValues(values)[i]) == JsNumbers.ParseInt(values[i])
      {
        assert values[1..][i - 1] == values[i];
      }
    }
  }

  /** Under consensus on `c` every numeric vote is `c`, one per vote. */
  lemma ConsensusNumeric(values: seq<string>, c: int)
    requires |values| > 0 && AllParseTo(values, c)
    ensures HasConsensus(values)
    ensures NumericValues(values) == seq(|values|, _ => c)
  {
    HasConsensusIff(values);
    NumericValuesAllParse(values);
  }

  function Sum(ns: seq<int>): int {
    if |ns| == 0 then 0 else ns[0] + Sum(ns[1..])
  }

  /** A JavaScript number that arises as `num / den`; `den == 0` is the NaN of `0 / 0`. */
  datatype Fraction = Fraction(num: int, den: nat) {
    predicate IsNaN() { den == 0 }
  }

  /** `numericVotes.reduce((a, b) => a + b, 0) / numericVotes.length`. */
  function Mean(ns: seq<int>): (r: Fraction)
    ensures r.den == |ns|
  {
    Fraction(Sum(ns), |ns|)
  }

  lemma {:induction false} SumConstant(n: nat, c: int)
    ensures Sum(seq(n, _ => c)) == n * c
  {
    if n > 0 {
      assert seq(n, _ => c)[1..] == seq(n - 1, _ => c);
      SumConstant(n - 1, c);
    }
  }

  ghost predicate Sorted(s: seq<int>) {
    forall i, j :: 0 <= i < j < |s| ==> s[i] <= s[j]
  }

  function Insert(x: int, s: seq<int>): seq<int> {
    if |s| == 0 then [x]
    else if x <= s[0] then [x] + s
    else [s[0]] + Insert(x, s[1..])
  }

  /** `[...ns].sort((a, b) => a - b)`: the numbers in ascending order. */
  function SortAsc(s: seq<int>): seq<int> {
    if |s| == 0 then [] else Insert(s[0], SortAsc(s[1..]))
  }

  /** A number no larger than any element of a sorted sequence can go in front. */
  lemma PrependSorted(x: int, t: seq<int>)
    requires Sorted(t) && forall k :: 0 <= k < |t| ==> x <= t[k]
    ensures Sorted([x] + t)
  {
    var r := [x] + t;
    forall i, j | 0 <= i < j < |r| ensures r[i] <= r[j] {
      assert r[j] == t[j - 1];
      if i > 0 { assert r[i] == t[i - 1]; }
    }
  }

  lemma {:induction false} InsertSorted(x: int, s: seq<int>)
    requires Sorted(s)
    ensures Sorted(Insert(x, s)) && multiset(Insert(x, s)) == multiset(s) + multiset{x}
  {
    if |s| == 0 {
    } else if x <= s[0] {
      PrependSorted(x, s);
    } else {
      var t := Insert(x, s[1..]);
      InsertSorted(x, s[1..]);
      assert s == [s[0]] + s[1..];
      forall k | 0 <= k < |t| ensures s[0] <= t[k] {
        assert t[k] in multiset(t);
        if t[k] != x {
          assert t[k] in multiset(s[1..]);
        }
      }
      PrependSorted(s[0], t);
    }
  }

  lemma {:induction false} SortAscSorted(s: seq<int>)
    ensures Sorted(SortAsc(s)) && multiset(SortAsc(s)) == multiset(s)
  {
    if |s| > 0 {
      SortAscSorted(s[1..]);
      InsertSorted(s[0], SortAsc(s[1..]));
      assert s == [s[0]] + s[1..];
    }
  }

  lemma SortedHeadIsLeast(a: seq<int>, x: int)
    requires Sorted(a) && x in multiset(a)
    ensures a[0] <= x
  {
    var i :| 0 <= i < |a| && a[i] == x;
  }

  /** Dropping the head of a sorted sequence removes one copy of it and keeps the rest sorted. */
  lemma SortedTail(a: seq<int>)
    requires Sorted(a) && |a| > 0
    ensures Sorted(a[1..]) && multiset(a[1..]) == multiset(a) - multiset{a[0]}
  {
    assert a == [a[0]] + a[1..];
  }

  lemma HeadAndTail(a: seq<int>, b: seq<int>)
    requires |a| > 0 && |b| > 0 && a[0] == b[0] && a[1..] == b[1..]
    ensures a == b
  {
    assert a == [a[0]] + a[1..] && b == [b[0]] + b[1..];
  }

  /** A sorted rearrangement is unique, so the median does not depend on how the sort works. */
  lemma {:induction false} SortedPermutationUnique(a: seq<int>, b: seq<int>)
    requires Sorted(a) && Sorted(b) && multiset(a) == multiset(b)
    ensures a == b
  {
    assert |a| == |b| by { assert |multiset(a)| == |multiset(b)|; }
    if |a| > 0 {
      assert a[0] == b[0] by {
        SortedHeadIsLeast(a, b[0]);
        SortedHeadIsLeast(b, a[0]);
      }
      SortedTail(a);
      SortedTail(b);
      SortedPermutationUnique(a[1..], b[1..]);
      HeadAndTail(a, b);
    }
  }

  /** `sorted[Math.floor(sorted.length / 2)]`, `undefined` when there are no numbers. */
  function MedianOf(ns: seq<int>): Option<int> {
    var sorted := SortAsc(ns);
    if |sorted| == 0 then None else Some(sorted[|sorted| / 2])
  }

  /**
    The median is the element at position n/2 (the upper middle for even n) of
    any ascending arrangement of the numbers, and it is one of the numbers.
   */
  lemma MedianIsMiddle(ns: seq<int>, t: seq<int>)
    requires Sorted(t) && multiset(t) == multiset(ns)
    ensures MedianOf(ns).None? <==> |ns| == 0
    ensures |ns| > 0 ==> |t| == |ns| && MedianOf(ns) == Some(t[|ns| / 2])
    ensures |ns| > 0 ==> MedianOf(ns).value in ns
  {
    SortAscSorted(ns);
    SortedPermutationUnique(SortAsc(ns), t);
    assert |multiset(t)| == |multiset(ns)|;
    if |ns| > 0 {
      assert t[|ns| / 2] in multiset(ns);
    }
  }

  /** The median exists exactly when there are numbers, and it is one of them. */
  lemma MedianDefined(ns: seq<int>)
    ensures MedianOf(ns).None? <==> |ns| == 0
    ensures |ns| > 0 ==> MedianOf(ns).value in ns
  {
    SortAscSorted(ns);
    MedianIsMiddle(ns, SortAsc(ns));
  }

  // ----- mode -----

  function Count(s: seq<int>, x: int): nat {
    multiset(s)[x]
  }

  /** The distinct values of `s` in the order of their first occurrence. */
  function Dedup(s: seq<int>): seq<int> {
    if |s| == 0 then []
    else
      var d := Dedup(s[..|s| - 1]);
      if s[|s| - 1] in d then d else d + [s[|s| - 1]]
  }

  lemma {:induction false} DedupMembers(s: seq<int>)
    ensures forall x :: x in Dedup(s) <==> x in s
  {
    if |s| > 0 {
      DedupMembers(s[..|s| - 1]);
      assert s == s[..|s| - 1] + [s[|s| - 1]];
    }
  }

  /** Whenever a later distinct value occurs, every earlier one has occurred before it. */
  lemma {:induction false} DedupOrder(s: seq<int>, b: nat, q: nat, i: nat)
    requires b < q < |Dedup(s)| && i < |s| && s[i] == Dedup(s)[q]
    ensures Dedup(s)[b] in s[..i]
  {
    var n := |s| - 1;
    var p := s[..n];
    var d := Dedup(p);
    DedupMembers(p);
    if i < n {
      assert s[i] == p[i];
      assert s[i] in d;
      assert q < |d| by {
        if s[n] !in d { assert Dedup(s) == d + [s[n]]; }
      }
      assert Dedup(s)[q] == d[q] && Dedup(s)[b] == d[b];
      DedupOrder(p, b, q, i);
      assert p[..i] == s[..i];
    } else if s[n] in d {
      var i' :| 0 <= i' < |p| && p[i'] == s[n];
      assert Dedup(s) == d;
      DedupOrder(p, b, q, i');
      assert p[..i'] <= s[..i];
    } else {
      assert Dedup(s)[b] == d[b] && d[b] in p;
      assert p == s[..i];
    }
  }

  /**
    `m` is the mode `calculateMode` returns: one of the numbers, with maximal
    frequency, and among the values of maximal frequency the one that occurs first.
   */
  ghost predicate IsFirstMode(ns: seq<int>, m: int) {
    && m in ns
    && (forall x :: x in ns ==> Count(ns, x) <= Count(ns, m))
    && (forall i :: 0 <= i < |ns| && Count(ns, ns[i]) == Count(ns, m) ==> FirstIndex(ns, m) <= i)
  }

  /** The position of the first occurrence of `x`. */
  function FirstIndex(ns: seq<int>, x: int): (r: nat)
    requires x in ns
    ensures r < |ns| && ns[r] == x && forall j :: 0 <= j < r ==> ns[j] != x
  {
    if ns[0] == x then 0 else 1 + FirstIndex(ns[1..], x)
  }

  lemma FirstIndexWithin(ns: seq<int>, m: int, i: nat)
    requires i < |ns| && m in ns[..i + 1]
    ensures m in ns && FirstIndex(ns, m) <= i
  {
    var k :| 0 <= k < i + 1 && ns[..i + 1][k] == m;
    assert ns[k] == m;
  }

  /** A first mode occurs no later than any other value of the same frequency. */
  lemma FirstModeComesFirst(ns: seq<int>, a: int, b: int)
    requires IsFirstMode(ns, a) && b in ns && Count(ns, b) == Count(ns, a)
    ensures FirstIndex(ns, a) <= FirstIndex(ns, b)
  {
    var ib := FirstIndex(ns, b);
    assert Count(ns, ns[ib]) == Count(ns, a);
  }

  /** The tie-break makes the mode a function of the numbers and their order. */
  lemma ModeUnique(ns: seq<int>, a: int, b: int)
    requires IsFirstMode(ns, a) && IsFirstMode(ns, b)
    ensures a == b
  {
    assert Count(ns, b) <= Count(ns, a) && Count(ns, a) <= Count(ns, b);
    FirstModeComesFirst(ns, a, b);
    FirstModeComesFirst(ns, b, a);
    assert ns[FirstIndex(ns, a)] == a && ns[FirstIndex(ns, b)] == b;
  }

  /** Every entry of the frequency Map holds its key's number of occurrences in `prefix`. */
  ghost predicate CountsRight(freq: JsMap.Entries<int, nat>, prefix: seq<int>) {
    forall j :: 0 <= j < |freq| ==> freq[j].1 == Count(prefix, freq[j].0)
  }

  /** The frequency Map `calculateMode` has built after reading `prefix`. */
  ghost predicate FrequencyTable(freq: JsMap.Entries<int, nat>, prefix: seq<int>) {
    && JsMap.UniqueKeys(freq)
    && JsMap.Keys(freq) == Dedup(prefix)
    && CountsRight(freq, prefix)
  }

  /** `frequency.set(n, (frequency.get(n) || 0) + 1)`. */
  function Bump(freq: JsMap.Entries<int, nat>, n: int): JsMap.Entries<int, nat> {
    JsMap.Set(freq, n, JsMap.Get(freq, n).GetOr(0) + 1)
  }

  /** One counting step keeps the table right. */
  lemma FrequencyStep(freq: JsMap.Entries<int, nat>, prefix: seq<int>, n: int)
    requires FrequencyTable(freq, prefix)
    ensures FrequencyTable(Bump(freq, n), prefix + [n])
  {
    JsMap.SetUnique(freq, n, JsMap.Get(freq, n).GetOr(0) + 1);
    FrequencyStepKeys(freq, prefix, n);
    if JsMap.Has(freq, n) {
      FrequencyStepExisting(freq, prefix, n);
    } else {
      FrequencyStepNew(freq, prefix, n);
    }
  }

  /** The keys after one step: the distinct numbers of the longer prefix. */
  lemma FrequencyStepKeys(freq: JsMap.Entries<int, nat>, prefix: seq<int>, n: int)
    requires FrequencyTable(freq, prefix)
    ensures JsMap.Keys(Bump(freq, n)) == Dedup(prefix + [n])
  {
    var s := prefix + [n];
    assert s[..|s| - 1] == prefix;
    JsMap.SetKeys(freq, n, JsMap.Get(freq, n).GetOr(0) + 1);
    JsMap.HasIsKey(freq, n);
    DedupMembers(prefix);
  }

  /** A number already counted: its entry goes up by one in place, the others keep their counts. */
  lemma FrequencyStepExisting(freq: JsMap.Entries<int, nat>, prefix: seq<int>, n: int)
    requires FrequencyTable(freq, prefix) && JsMap.Has(freq, n)
    ensures CountsRight(Bump(freq, n), prefix + [n])
  {
    var s := prefix + [n];
    assert multiset(s) == multiset(prefix) + multiset{n};
    var i := JsMap.Find(freq, n).value;
    var c := JsMap.Get(freq, n).GetOr(0);
    assert c == freq[i].1 == Count(prefix, n);
    JsMap.SetExisting(freq, n, c + 1, i);
  }

  /** A number seen for the first time: a count of one is appended, the others keep their counts. */
  lemma FrequencyStepNew(freq: JsMap.Entries<int, nat>, prefix: seq<int>, n: int)
    requires FrequencyTable(freq, prefix) && !JsMap.Has(freq, n)
    ensures CountsRight(Bump(freq, n), prefix + [n])
  {
    var s := prefix + [n];
    assert multiset(s) == multiset(prefix) + multiset{n};
    JsMap.HasIsKey(freq, n);
    DedupMembers(prefix);
    assert n !in prefix;
    JsMap.SetNew(freq, n, 1);
  }

  /** The first entry of maximal count in the complete table is the first mode. */
  lemma FirstMaximumIsFirstMode(ns: seq<int>, freq: JsMap.Entries<int, nat>, b: nat)
    requires FrequencyTable(freq, ns) && b < |freq|
    requires forall q :: 0 <= q < |freq| ==> freq[q].1 <= freq[b].1
    requires forall q :: 0 <= q < b ==> freq[q].1 < freq[b].1
    ensures IsFirstMode(ns, freq[b].0)
  {
    var d := Dedup(ns);
    var m := freq[b].0;
    DedupMembers(ns);
    assert d[b] == m;
    forall x | x in ns
      ensures Count(ns, x) <= Count(ns, m)
    {
      var q :| 0 <= q < |d| && d[q] == x;
      assert freq[q].0 == x;
    }
    forall i | 0 <= i < |ns| && Count(ns, ns[i]) == Count(ns, m)
      ensures FirstIndex(ns, m) <= i
    {
      assert ns[i] in ns;
      var q :| 0 <= q < |d| && d[q] == ns[i];
      assert freq[q].0 == ns[i];
      if q == b {
        assert ns[..i + 1][i] == m;
      } else {
        assert q > b;
        DedupOrder(ns, b, q, i);
        assert ns[..i] <= ns[..i + 1];
      }
      FirstIndexWithin(ns, m, i);
    }
  }

  /**
    `calculateMode`: count each number in a Map that keeps first-occurrence order,
    then fold the entries keeping an entry unless a later one has a strictly
    greater count. With no numbers, `reduce` without an initial value throws:
    the result is None.
   */
  method CalculateMode(numbers: seq<int>) returns (mode: Option<int>)
    ensures mode.None? <==> |numbers| == 0
    ensures mode.Some? ==> IsFirstMode(numbers, mode.value)
  {
    var frequency: JsMap.Entries<int, nat> := [];
    var i := 0;
    while i < |numbers|
      invariant 0 <= i <= |numbers|
      invariant FrequencyTable(frequency, numbers[..i])
    {
      var n := numbers[i];
      FrequencyStep(frequency, numbers[..i], n);
      assert numbers[..i + 1] == numbers[..i] + [n];
      frequency := Bump(frequency, n);
      i := i + 1;
    }
    assert numbers[..i] == numbers;
    DedupMembers(numbers);
    if |numbers| > 0 {
      assert numbers[0] in numbers;
    }
    if |frequency| == 0 {
      return None;
    }
    var best := frequency[0];
    ghost var b := 0;
    var j := 1;
    while j < |frequency|
      invariant 1 <= j <= |frequency| && b < j && best == frequency[b]
      invariant forall q :: 0 <= q < j ==> frequency[q].1 <= best.1
      invariant forall q :: 0 <= q < b ==> frequency[q].1 < best.1
    {
      if frequency[j].1 > best.1 {
        best := frequency[j];
        b := j;
      }
      j := j + 1;
    }
    FirstMaximumIsFirstMode(numbers, frequency, b);
    mode := Some(best.0);
  }

  /**
    N votes that all parse to the card `v`: the average, the median and the mode
    are `v`, and there is consensus.
   */
  lemma EqualVotes(values: seq<string>, v: int, mode: int)
    requires |values| > 0 && AllParseTo(values, v) && IsCard(v)
    requires IsFirstMode(NumericValues(values), mode)
    ensures HasConsensus(values)
    ensures forall x :: x in NumericValues(values) ==> IsCard(x)
    ensures Mean(NumericValues(values)) == Fraction(|values| * v, |values|)
    ensures MedianOf(NumericValues(values)) == Some(v)
    ensures mode == v
  {
    ConsensusNumeric(values, v);
    ConstantStatistics(NumericValues(values), |values|, v, mode);
  }

  /** The statistics of `n > 0` copies of one number are that number. */
  lemma ConstantStatistics(ns: seq<int>, n: nat, v: int, mode: int)
    requires n > 0 && ns == seq(n, _ => v)
    requires IsFirstMode(ns, mode)
    ensures forall x :: x in ns ==> x == v
    ensures Mean(ns) == Fraction(n * v, n)
    ensures MedianOf(ns) == Some(v)
    ensures mode == v
  {
    SumConstant(n, v);
    MedianIsMiddle(ns, ns);
  }
}
