/**
  The experiment's utilities: the random generator of sample-size sequences and the
  grammatical list formatter used in the command-line help text.

  The generator's two random sources become oracles: `rolls` are the successive
  `random.uniform(0, 1)` values and `picks` the successive `random.randint(1, max_value)`
  values. The model runs one round of the generator per roll; when an oracle runs dry it
  reports Exhausted, which stands for a run that would go on drawing.
 */
module Utils {
  import opened Likelihood

  // ---------------------------------------------------------------- generate_sequence

  /** What the generator does with a given supply of random draws. */
  datatype Generation = Generated(values: seq<int>) | Failed(error: PyError) | Exhausted

  /** Python's `list.index(x)`: the position of the first occurrence of x. */
  function FirstIndex(s: seq<int>, x: int): (i: nat)
    requires x in s
    ensures i < |s| && s[i] == x
    ensures forall j :: 0 <= j < i ==> s[j] != x
  {
    if s[0] == x then 0 else 1 + FirstIndex(s[1..], x)
  }

  /**
    The repair step `result.pop(result.index(max(result)))` removes exactly one element, the
    first occurrence of the maximum, keeps the rest in order, and lowers the sum by the maximum.
   */
  lemma PopFirstMax(s: seq<int>)
    requires |s| > 0
    ensures var m, i := Max(s), FirstIndex(s, Max(s));
      var r := s[..i] + s[i + 1..];
      && |r| == |s| - 1
      && (forall j :: 0 <= j < i ==> r[j] == s[j] && s[j] < m)
      && (forall j :: i <= j < |r| ==> r[j] == s[j + 1])
      && multiset(r) + multiset{m} == multiset(s)
      && Sum(r) == Sum(s) - m
  {
    var m, i := Max(s), FirstIndex(s, Max(s));
    var l, t := s[..i], s[i + 1..];
    var r := l + t;
    forall j | 0 <= j < i
      ensures r[j] == s[j] && s[j] < m
    {
      assert s[j] != m && s[j] <= m;
    }
    forall j | i <= j < |r|
      ensures r[j] == s[j + 1]
    {
      assert r[j] == t[j - i];
    }
    assert s == l + [m] + t;
    assert multiset(s) == multiset(l) + multiset{m} + multiset(t);
    assert multiset(r) == multiset(l) + multiset(t);
    assert Sum(r) == Sum(s) - m by {
      SumRemove(l, m, t);
    }
  }

  /** Every value lies in [1, max_value]. */
  predicate InRange(s: seq<int>, maxValue: int)
  {
    forall j :: 0 <= j < |s| ==> 1 <= s[j] <= maxValue
  }

  /** The list with its first maximum popped. */
  function Repaired(s: seq<int>): seq<int>
    requires |s| > 0
  {
    var i := FirstIndex(s, Max(s));
    s[..i] + s[i + 1..]
  }

  /**
    The list before its last append summed below n, so after the repair step it still does,
    and every value it keeps is still in [1, max_value].
   */
  lemma RepairKeepsBelow(s: seq<int>, n: int, maxValue: int)
    requires |s| > 0 && Sum(s[..|s| - 1]) < n && InRange(s, maxValue)
    ensures Sum(Repaired(s)) < n && InRange(Repaired(s), maxValue)
    ensures |Repaired(s)| == |s| - 1
  {
    var i := FirstIndex(s, Max(s));
    var r := s[..i] + s[i + 1..];
    PopFirstMax(s);
    forall j | 0 <= j < |r|
      ensures 1 <= r[j] <= maxValue
    {
      if j >= i {
        assert r[j] == s[j + 1];
      }
    }
  }

  /** Appending a pick keeps the values in range, and the list before the append sums below n. */
  lemma AppendKeepsBelow(s: seq<int>, x: int, n: int, maxValue: int)
    requires InRange(s, maxValue) && 1 <= x <= maxValue && Sum(s) < n
    ensures InRange(s + [x], maxValue) && Sum((s + [x])[..|s|]) < n
  {
    assert (s + [x])[..|s|] == s;
  }

  /** The loop's exit test: a roll below the pre-repair sum over n, with two or more values left. */
  predicate Exits(seqSum: int, n: int, length: int, roll: real)
    requires n != 0
  {
    roll < seqSum as real / n as real && length >= 2
  }

  /** When the sum had reached n, any roll below 1 exits as soon as two values remain. */
  lemma RepairForcesExit(seqSum: int, n: int, length: int, roll: real)
    requires 0 < n <= seqSum && length >= 2 && 0.0 <= roll < 1.0
    ensures Exits(seqSum, n, length, roll)
  {
    var q := seqSum as real / n as real;
    assert q * n as real == seqSum as real;
    assert q >= 1.0;
  }

  /** Values of at least 1 sum to at least their count. */
  lemma {:induction false} SumAtLeastLength(s: seq<int>)
    requires forall j :: 0 <= j < |s| ==> s[j] >= 1
    ensures Sum(s) >= |s|
  {
    if s != [] {
      SumAtLeastLength(s[..|s| - 1]);
    }
  }

  /**
    generate_sequence(n, max_value): each round takes the sum of the list, repairs the list by
    popping its first maximum when the sum has reached n, then draws a roll and exits when it
    falls below that sum / n and two or more values remain, and otherwise appends a pick in
    [1, max_value]. A returned list has two or more values, each in [1, max_value], summing below
    n, so for n <= 2 the generator never returns. For n <= 0 the first round takes `max([])` and
    raises ValueError before any draw; for max_value < 1 the first `randint` raises ValueError;
    nothing else raises.
   */
  method GenerateSequence(n: int, maxValue: int, rolls: seq<real>, picks: seq<int>) returns (out: Generation)
    requires forall k :: 0 <= k < |rolls| ==> 0.0 <= rolls[k] < 1.0
    requires forall k :: 0 <= k < |picks| ==> 1 <= picks[k] <= maxValue
    ensures out.Generated? ==> 2 <= |out.values| && Sum(out.values) < n
    ensures out.Generated? ==> InRange(out.values, maxValue)
    ensures out.Failed? <==> n <= 0 || (0 < |rolls| && maxValue < 1)
    ensures out.Failed? ==> out.error == ValueError
    ensures n <= 2 ==> !out.Generated?
  {
    var result: seq<int> := [];
    var k := 0;
    while k < |rolls|
      invariant 0 <= k <= |rolls|
      invariant (k == 0) == (result == [])
      invariant k > 0 ==> n > 0 && maxValue >= 1
      invariant InRange(result, maxValue)
      invariant result == [] || Sum(result[..|result| - 1]) < n
    {
      var seqSum := Sum(result);
      assert k == 0 ==> seqSum == 0;
      if seqSum >= n {
        if result == [] {
          return Failed(ValueError);
        }
        RepairKeepsBelow(result, n, maxValue);
        result := Repaired(result);
      }
      assert n > 0 && Sum(result) < n;
      if Exits(seqSum, n, |result|, rolls[k]) {
        SumAtLeastLength(result);
        return Generated(result);
      }
      if maxValue < 1 {
        return Failed(ValueError);
      }
      if k >= |picks| {
        return Exhausted;
      }
      AppendKeepsBelow(result, picks[k], n, maxValue);
      result := result + [picks[k]];
      k := k + 1;
    }
    // The next round sums and repairs before it draws its roll: an empty list at n <= 0 raises at `max([])`.
    if result == [] && n <= 0 {
      out := Failed(ValueError);
    } else {
      out := Exhausted;
    }
  }

  // ---------------------------------------------------------------- grammatical_list

  /** Python's `sep.join(xs)`. */
  function Join(sep: string, xs: seq<string>): string
  {
    if xs == [] then ""
    else if |xs| == 1 then xs[0]
    else Join(sep, xs[..|xs| - 1]) + sep + xs[|xs| - 1]
  }

  /** Python's `xs.insert(-1, x)`: x goes just before the last element, or alone into an empty list. */
  function InsertBeforeLast(xs: seq<string>, x: string): (r: seq<string>)
    ensures |r| == |xs| + 1 && r[|r| - 1] == if xs == [] then x else xs[|xs| - 1]
  {
    if xs == [] then [x] else xs[..|xs| - 1] + [x, xs[|xs| - 1]]
  }

  /**
    grammatical_list(strings, conjunction, oxford_comma). Two items are joined by the
    conjunction alone; otherwise the conjunction is inserted before the last item and the
    items are joined by ", ", with the last item attached by a space, or (without the Oxford
    comma) the last two attached to each other by a space.
   */
  function GrammaticalList(strings: seq<string>, conjunction: string, oxfordComma: bool): (r: string)
    ensures |strings| >= 2 && oxfordComma ==>
      r == Join(", ", strings[..|strings| - 1]) + (if |strings| == 2 then " " else ", ")
           + conjunction + " " + strings[|strings| - 1]
    ensures |strings| >= 2 && !oxfordComma ==>
      r == Join(", ", strings[..|strings| - 1]) + " " + conjunction + " " + strings[|strings| - 1]
  {
    if |strings| == 2 then
      strings[0] + " " + conjunction + " " + strings[1]
    else
      var t := InsertBeforeLast(strings, conjunction);
      ConjunctionBeforeLast(strings, conjunction, t);
      if oxfordComma then
        Join(", ", t[..|t| - 1]) + " " + t[|t| - 1]
      else
        var cut := if |t| >= 2 then |t| - 2 else 0;
        Join(", ", t[..cut]) + " " + Join(" ", t[cut..])
  }

  /** With three or more items, the inserted list is the leading items, the conjunction, then the last item. */
  lemma ConjunctionBeforeLast(strings: seq<string>, conjunction: string, t: seq<string>)
    requires t == InsertBeforeLast(strings, conjunction)
    ensures |strings| >= 3 ==>
      var init := strings[..|strings| - 1];
      && t[..|t| - 1] == init + [conjunction]
      && t[..|t| - 2] == init && t[|t| - 2..] == [conjunction, strings[|strings| - 1]]
      && Join(", ", t[..|t| - 1]) == Join(", ", init) + ", " + conjunction
      && Join(" ", t[|t| - 2..]) == conjunction + " " + strings[|strings| - 1]
  {
    if |strings| >= 3 {
      var init := strings[..|strings| - 1];
      assert t[..|t| - 1] == init + [conjunction];
      assert (init + [conjunction])[..|init|] == init;
      assert Join(" ", [conjunction, strings[|strings| - 1]]) == Join(" ", [conjunction]) + " " + strings[|strings| - 1];
    }
  }

  /** The documented example with two items. */
  lemma GrammaticalListTwo()
    ensures GrammaticalList(["dog", "cat"], "and", true) == "dog and cat"
  {
  }

  /** The documented example with three items and the Oxford comma. */
  lemma GrammaticalListExamples()
    ensures GrammaticalList(["dog", "cat", "mouse"], "and", true) == "dog, cat, and mouse"
  {
    var three := ["dog", "cat", "mouse"];
    assert three[..2] == ["dog", "cat"] && ["dog", "cat"][..1] == ["dog"];
    assert Join(", ", ["dog", "cat"]) == "dog, cat";
    assert GrammaticalList(three, "and", true) == "dog, cat" + ", " + "and" + " " + "mouse";
  }

  /** Three items without the Oxford comma. */
  lemma GrammaticalListNoOxford()
    ensures GrammaticalList(["x", "y", "z"], "and", false) == "x, y and z"
  {
    assert ["x", "y", "z"][..2] == ["x", "y"] && ["x", "y"][..1] == ["x"];
    assert Join(", ", ["x", "y"]) == "x, y";
  }

  /** Fewer than two items: the conjunction comes first, and alone it is preceded by a space. */
  lemma GrammaticalListShort(item: string, conjunction: string)
    ensures GrammaticalList([item], conjunction, true) == conjunction + " " + item
    ensures GrammaticalList([], conjunction, true) == " " + conjunction
  {
    var t := InsertBeforeLast([item], conjunction);
    assert t == [conjunction, item] && t[..1] == [conjunction];
    assert InsertBeforeLast([], conjunction)[..0] == [];
  }
}
