/** Sequence operations the model shares: Ruby's `Array#select` and
    `Array#uniq`, the subsequence a boolean mask picks, and `Array#sort` on
    strings, which compares them code point by code point. */
module Collections {

  // ----- select and subsequences -----

  /** `xs.select(&f)`: the elements that satisfy `f`, in their order. */
  function Select<T(!new)>(xs: seq<T>, f: T -> bool): (r: seq<T>)
    ensures |r| <= |xs|
    ensures forall x :: x in r <==> x in xs && f(x)
  {
    if xs == [] then []
    else
      var r := Select(xs[..|xs| - 1], f);
      assert xs == xs[..|xs| - 1] + [xs[|xs| - 1]];
      if f(xs[|xs| - 1]) then r + [xs[|xs| - 1]] else r
  }

  /** The elements of `xs` whose flag in `mask` is set, in their order. */
  function Picked<T>(xs: seq<T>, mask: seq<bool>): (r: seq<T>)
    requires |mask| == |xs|
    ensures |r| <= |xs|
    ensures forall x :: x in r ==> x in xs
  {
    if xs == [] then []
    else
      var r := Picked(xs[..|xs| - 1], mask[..|mask| - 1]);
      assert xs == xs[..|xs| - 1] + [xs[|xs| - 1]];
      if mask[|mask| - 1] then r + [xs[|xs| - 1]] else r
  }

  /** One more element and flag: the element is kept when its flag is set. */
  lemma PickedSnoc<T>(xs: seq<T>, mask: seq<bool>, x: T, b: bool)
    requires |mask| == |xs|
    ensures Picked(xs + [x], mask + [b]) == Picked(xs, mask) + (if b then [x] else [])
  {
    assert (xs + [x])[..|xs|] == xs;
    assert (mask + [b])[..|mask|] == mask;
  }

  /** A prefix one longer is the prefix and the next element. */
  lemma SliceSnoc<T>(s: seq<T>, i: nat)
    requires i < |s|
    ensures s[..i] + [s[i]] == s[..i + 1]
  {
  }

  /** `a` is `b` with some elements left out and the rest in order. */
  ghost predicate IsSubsequence<T>(a: seq<T>, b: seq<T>) {
    exists mask: seq<bool> :: |mask| == |b| && Picked(b, mask) == a
  }

  /** The flags `f` gives the elements of `xs`. */
  function MaskOf<T>(xs: seq<T>, f: T -> bool): (m: seq<bool>)
    ensures |m| == |xs| && forall i :: 0 <= i < |xs| ==> m[i] == f(xs[i])
  {
    seq(|xs|, i requires 0 <= i < |xs| => f(xs[i]))
  }

  /** A selection is the subsequence its own flags pick, so it keeps the
      order of the input. */
  lemma SelectIsPicked<T(!new)>(xs: seq<T>, f: T -> bool)
    ensures Select(xs, f) == Picked(xs, MaskOf(xs, f))
    ensures IsSubsequence(Select(xs, f), xs)
  {
    SelectPicksMask(xs, f);
    var m := MaskOf(xs, f);
    assert |m| == |xs| && Picked(xs, m) == Select(xs, f);
  }

  lemma {:induction false} SelectPicksMask<T(!new)>(xs: seq<T>, f: T -> bool)
    ensures Select(xs, f) == Picked(xs, MaskOf(xs, f))
    decreases |xs|
  {
    if xs != [] {
      var ys := xs[..|xs| - 1];
      var x := xs[|xs| - 1];
      SelectPicksMask(ys, f);
      assert xs == ys + [x];
      assert MaskOf(xs, f) == MaskOf(ys, f) + [f(x)];
      PickedSnoc(ys, MaskOf(ys, f), x, f(x));
      SelectSnoc(ys, x, f);
    }
  }

  /** Selecting from `xs + [x]` selects from `xs` and then looks at `x`. */
  lemma SelectSnoc<T(!new)>(xs: seq<T>, x: T, f: T -> bool)
    ensures Select(xs + [x], f) == Select(xs, f) + (if f(x) then [x] else [])
  {
    assert (xs + [x])[..|xs|] == xs;
  }

  /** How often `x` occurs in a selection: as often as in the input when it
      satisfies `f`, else never. */
  lemma {:induction false} SelectCount<T(!new)>(xs: seq<T>, f: T -> bool, x: T)
    ensures multiset(Select(xs, f))[x] == if f(x) then multiset(xs)[x] else 0
  {
    if xs != [] {
      var ys := xs[..|xs| - 1];
      SelectCount(ys, f, x);
      assert xs == ys + [xs[|xs| - 1]];
    }
  }

  // ----- flatten -----

  /** `xss.flatten` for a list of lists: the lists one after the other. */
  function Concat<T(!new)>(xss: seq<seq<T>>): (r: seq<T>)
    ensures forall x :: x in r <==> exists i :: 0 <= i < |xss| && x in xss[i]
  {
    if xss == [] then []
    else
      var r := Concat(xss[..|xss| - 1]);
      assert forall i :: 0 <= i < |xss| - 1 ==> xss[..|xss| - 1][i] == xss[i];
      r + xss[|xss| - 1]
  }

  /** Concatenating one list more appends its elements. */
  lemma ConcatSnoc<T(!new)>(xss: seq<seq<T>>, xs: seq<T>)
    ensures Concat(xss + [xs]) == Concat(xss) + xs
  {
    assert (xss + [xs])[..|xss|] == xss;
  }

  /** The prefix of `k` lists is the prefix of `k - 1` and then the next. */
  lemma ConcatPrefix<T(!new)>(xss: seq<seq<T>>, k: nat)
    requires 0 < k <= |xss|
    ensures Concat(xss[..k]) == Concat(xss[..k - 1]) + xss[k - 1]
  {
    assert xss[..k][..k - 1] == xss[..k - 1];
  }

  // ----- uniq -----

  /** No element occurs twice. */
  predicate Distinct<T(==)>(s: seq<T>) {
    forall i, j :: 0 <= i < j < |s| ==> s[i] != s[j]
  }

  /** `xs.uniq`: the first occurrence of every element, in order. */
  function Uniq<T(==,!new)>(xs: seq<T>): (r: seq<T>)
    ensures Distinct(r)
    ensures forall x :: x in r <==> x in xs
  {
    if xs == [] then []
    else
      var r := Uniq(xs[..|xs| - 1]);
      assert xs == xs[..|xs| - 1] + [xs[|xs| - 1]];
      if xs[|xs| - 1] in r then r else r + [xs[|xs| - 1]]
  }

  /** Every element of a sequence without repeats occurs exactly once. */
  lemma {:induction false} DistinctCounts<T>(s: seq<T>)
    requires Distinct(s)
    ensures forall x :: x in s ==> multiset(s)[x] == 1
  {
    if s != [] {
      var t := s[..|s| - 1];
      assert s == t + [s[|s| - 1]];
      assert Distinct(t);
      DistinctCounts(t);
      assert s[|s| - 1] !in t;
    }
  }

  /** A sequence in which every element occurs at most once has no repeats. */
  lemma CountsDistinct<T>(s: seq<T>)
    requires forall x :: x in s ==> multiset(s)[x] <= 1
    ensures Distinct(s)
  {
    forall i, j | 0 <= i < j < |s| ensures s[i] != s[j] {
      RepeatCounts(s, i, j);
    }
  }

  /** Two equal elements at different places make the count at least two. */
  lemma RepeatCounts<T>(s: seq<T>, i: nat, j: nat)
    requires i < j < |s|
    ensures s[i] == s[j] ==> multiset(s)[s[i]] >= 2
  {
    assert s == s[..j] + [s[j]] + s[j + 1..];
    assert s[i] in s[..j];
  }

  /** Having no repeats is a property of the multiset of elements. */
  lemma PermutationDistinct<T>(s: seq<T>, t: seq<T>)
    requires Distinct(s) && multiset(s) == multiset(t)
    ensures Distinct(t)
  {
    DistinctCounts(s);
    forall x | x in t ensures multiset(t)[x] <= 1 {
      assert x in multiset(t);
    }
    CountsDistinct(t);
  }

  // ----- sort on strings -----

  /** Ruby's `String#<=>` yields -1 or 0: compare code point by code point,
      and a proper prefix comes first. */
  predicate LexLe(a: string, b: string) {
    a == [] || (b != [] && (a[0] < b[0] || (a[0] == b[0] && LexLe(a[1..], b[1..]))))
  }

  lemma {:induction false} LexLeTotal(a: string, b: string)
    ensures LexLe(a, b) || LexLe(b, a)
  {
    if a != [] && b != [] && a[0] == b[0] {
      LexLeTotal(a[1..], b[1..]);
    }
  }

  lemma {:induction false} LexLeAntisymmetric(a: string, b: string)
    requires LexLe(a, b) && LexLe(b, a)
    ensures a == b
  {
    if a != [] && b != [] {
      LexLeAntisymmetric(a[1..], b[1..]);
      assert a == [a[0]] + a[1..] && b == [b[0]] + b[1..];
    }
  }

  lemma {:induction false} LexLeTransitive(a: string, b: string, c: string)
    requires LexLe(a, b) && LexLe(b, c)
    ensures LexLe(a, c)
  {
    if a != [] && a[0] == b[0] && b[0] == c[0] {
      LexLeTransitive(a[1..], b[1..], c[1..]);
    }
  }

  /** Ascending under `LexLe`. */
  predicate Sorted(s: seq<string>) {
    forall i, j :: 0 <= i < j < |s| ==> LexLe(s[i], s[j])
  }

  /** Ascending with no repeats. */
  predicate StrictlyAscending(s: seq<string>) {
    forall i, j :: 0 <= i < j < |s| ==> LexLe(s[i], s[j]) && s[i] != s[j]
  }

  /** `x` placed before the first element it does not follow. */
  function Insert(x: string, s: seq<string>): (r: seq<string>)
    requires Sorted(s)
    ensures multiset(r) == multiset(s) + multiset{x}
    ensures Sorted(r)
  {
    if s == [] then [x]
    else if LexLe(x, s[0]) then
      BelowHead(x, s);
      [x] + s
    else
      LexLeTotal(x, s[0]);
      var r := Insert(x, s[1..]);
      HeadBelowRest(s, x, r);
      ConsSorted(s[0], r);
      assert s == [s[0]] + s[1..];
      [s[0]] + r
  }

  /** What comes before the head of a sorted sequence comes before all of
      it. */
  lemma BelowHead(x: string, s: seq<string>)
    requires Sorted(s) && s != [] && LexLe(x, s[0])
    ensures forall j :: 0 <= j < |s| ==> LexLe(x, s[j])
  {
    forall j | 0 < j < |s| ensures LexLe(x, s[j]) {
      LexLeTransitive(x, s[0], s[j]);
    }
  }

  /** An element before everything of a sorted sequence can lead it. */
  lemma ConsSorted(h: string, r: seq<string>)
    requires Sorted(r) && forall y :: y in r ==> LexLe(h, y)
    ensures Sorted([h] + r)
  {
    var t := [h] + r;
    forall i, j | 0 <= i < j < |t| ensures LexLe(t[i], t[j]) {
      assert t[j] == r[j - 1];
      if i > 0 { assert t[i] == r[i - 1]; }
    }
  }

  /** The head of a sorted sequence comes before everything the tail holds,
      and so before the tail with a later element inserted. */
  lemma HeadBelowRest(s: seq<string>, x: string, r: seq<string>)
    requires Sorted(s) && s != [] && LexLe(s[0], x)
    requires multiset(r) == multiset(s[1..]) + multiset{x}
    ensures forall y :: y in r ==> LexLe(s[0], y)
  {
    forall y | y in r ensures LexLe(s[0], y) {
      assert y in multiset(s[1..]) + multiset{x};
      if y != x {
        assert y in s[1..];
      }
    }
  }

  /** `xs.sort` on strings. */
  function Sort(xs: seq<string>): (r: seq<string>)
    ensures Sorted(r)
    ensures multiset(r) == multiset(xs)
  {
    if xs == [] then []
    else
      assert xs == [xs[0]] + xs[1..];
      Insert(xs[0], Sort(xs[1..]))
  }

  /** Sorting a sequence without repeats gives a strictly ascending one
      holding the same elements. */
  lemma SortDistinct(xs: seq<string>)
    requires Distinct(xs)
    ensures StrictlyAscending(Sort(xs))
    ensures forall x :: x in Sort(xs) <==> x in xs
  {
    var r := Sort(xs);
    PermutationDistinct(xs, r);
    forall x ensures x in r <==> x in xs {
      assert x in r <==> x in multiset(r);
      assert x in xs <==> x in multiset(xs);
    }
  }
}
