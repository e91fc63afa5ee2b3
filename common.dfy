/** Sequence helpers shared by the network and the importer: Python's
    `list.remove`, pandas' `idxmin`/`idxmax` (first index wins) and `min`. */
module Common {

  datatype Option<T> = None | Some(value: T)

  /** The indices 0 .. n-1, in order. */
  function Range(n: nat): (r: seq<nat>)
    ensures |r| == n
    ensures forall i :: 0 <= i < n ==> r[i] == i
  {
    seq(n, i requires 0 <= i < n => i)
  }

  lemma RangeSnoc(n: nat)
    ensures Range(n + 1) == Range(n) + [n]
  {
    assert Range(n + 1)[..n] == Range(n);
  }

  /** The elements of a list, as Python's `set(list)`. */
  function Elems<T>(s: seq<T>): set<T>
  {
    set x | x in s
  }

  /** A list holds, as a set, exactly the indices 0 .. n-1 when every index
      below `n` is in it and nothing else is. */
  lemma ElemsRange(s: seq<nat>, n: nat)
    ensures Elems(s) == Elems(Range(n)) <==> forall c :: c in s <==> 0 <= c < n
  {
    var r := Range(n);
    forall c: nat
      ensures c in Elems(r) <==> c < n
    {
      if c < n {
        assert r[c] == c;
      }
    }
    if Elems(s) == Elems(r) {
      forall c: nat
        ensures c in s <==> c < n
      {
        assert c in s <==> c in Elems(s);
        assert c in Elems(s) <==> c in Elems(r);
      }
    }
  }

  lemma AppendAssoc<T>(a: seq<T>, b: seq<T>, c: seq<T>)
    ensures (a + b) + c == a + (b + c)
  {
  }

  predicate Distinct<T(==)>(s: seq<T>)
  {
    forall i, j :: 0 <= i < j < |s| ==> s[i] != s[j]
  }

  /** Position of the first occurrence of `x` in `s`. */
  function IndexOf<T(==)>(s: seq<T>, x: T): (i: nat)
    requires x in s
    ensures i < |s| && s[i] == x && x !in s[..i]
  {
    if s[0] == x then 0 else 1 + IndexOf(s[1..], x)
  }

  /** An occurrence with none before it is the first one. */
  lemma {:induction false} IndexOfFirst<T>(s: seq<T>, x: T, i: nat)
    requires i < |s| && s[i] == x && x !in s[..i]
    ensures IndexOf(s, x) == i
  {
    if i > 0 {
      assert s[0] == s[..i][0];
      assert s[1..][..i - 1] == s[1..i];
      IndexOfFirst(s[1..], x, i - 1);
    }
  }

  /** Python's `list.remove(x)`: drops the first occurrence of `x`
      (the source raises ValueError when `x` is absent). */
  function RemoveFirst<T(==)>(s: seq<T>, x: T): (r: seq<T>)
    requires x in s
    ensures |r| == |s| - 1
    ensures multiset(r) == multiset(s) - multiset{x}
    ensures r == s[..IndexOf(s, x)] + s[IndexOf(s, x) + 1..]
  {
    var i := IndexOf(s, x);
    assert s == s[..i] + [x] + s[i + 1..];
    s[..i] + s[i + 1..]
  }

  lemma DistinctRemoveFirst<T>(s: seq<T>, x: T)
    requires Distinct(s) && x in s
    ensures Distinct(RemoveFirst(s, x)) && x !in RemoveFirst(s, x)
  {
    var i := IndexOf(s, x);
    var r := RemoveFirst(s, x);
    forall a, b | 0 <= a < b < |r|
      ensures r[a] != r[b]
    {
      var a' := if a < i then a else a + 1;
      var b' := if b < i then b else b + 1;
      assert r[a] == s[a'] && r[b] == s[b'];
    }
    forall a | 0 <= a < |r|
      ensures r[a] != x
    {
      var a' := if a < i then a else a + 1;
      assert r[a] == s[a'];
    }
  }

  /** `list.remove(x)` for each `x` of `xs`, in order. */
  function RemoveEach<T(==)>(s: seq<T>, xs: seq<T>): (r: seq<T>)
    requires multiset(xs) <= multiset(s)
    ensures multiset(r) == multiset(s) - multiset(xs)
    decreases |xs|
  {
    if xs == [] then s
    else
      var init, last := xs[..|xs| - 1], xs[|xs| - 1];
      assert xs == init + [last];
      var rest := RemoveEach(s, init);
      assert multiset(rest)[last] == multiset(s)[last] - multiset(init)[last];
      RemoveFirst(rest, last)
  }

  /** The `i`-th removal of a `list.remove` loop over `xs`: the prefix is
      still removable and the next element is still present. */
  lemma RemoveEachStep<T>(s: seq<T>, xs: seq<T>, i: nat)
    requires multiset(xs) <= multiset(s) && i < |xs|
    ensures multiset(xs[..i]) <= multiset(s) && multiset(xs[..i + 1]) <= multiset(s)
    ensures xs[i] in RemoveEach(s, xs[..i])
    ensures RemoveEach(s, xs[..i + 1]) == RemoveFirst(RemoveEach(s, xs[..i]), xs[i])
  {
    assert xs == xs[..i + 1] + xs[i + 1..];
    assert xs[..i + 1] == xs[..i] + [xs[i]];
    assert xs[..i + 1][..i] == xs[..i];
    assert multiset(RemoveEach(s, xs[..i]))[xs[i]] == multiset(s)[xs[i]] - multiset(xs[..i])[xs[i]];
  }

  /** Every entry of the list is below `n`. */
  predicate Below(s: seq<nat>, n: nat)
  {
    forall i :: 0 <= i < |s| ==> s[i] < n
  }

  /** The parts around entry `i` of a list below `n` are below `n`. */
  lemma BelowParts(s: seq<nat>, i: nat, n: nat)
    requires i < |s| && Below(s, n)
    ensures Below(s[..i], n) && Below(s[i + 1..], n) && s[i] < n
  {
    var t := s[i + 1..];
    forall j | 0 <= j < |t|
      ensures t[j] < n
    {
      assert t[j] == s[i + 1 + j];
    }
  }

  lemma BelowWeaken(s: seq<nat>, n: nat, m: nat)
    requires Below(s, n) && n <= m
    ensures Below(s, m)
  {
  }

  lemma BelowConcat(a: seq<nat>, b: seq<nat>, n: nat)
    requires Below(a, n) && Below(b, n)
    ensures Below(a + b, n)
  {
    forall j | 0 <= j < |a + b|
      ensures (a + b)[j] < n
    {
      if j >= |a| {
        assert (a + b)[j] == b[j - |a|];
      }
    }
  }

  /** Removing entries keeps every remaining entry below a bound the list kept. */
  lemma RemoveEachBounded(s: seq<nat>, xs: seq<nat>, n: nat)
    requires multiset(xs) <= multiset(s) && Below(s, n)
    ensures Below(RemoveEach(s, xs), n)
  {
    var r := RemoveEach(s, xs);
    forall i | 0 <= i < |r|
      ensures r[i] < n
    {
      var x := r[i];
      assert multiset(r)[x] > 0;
      assert x in s;
    }
  }

  /** pandas `idxmin` over a row: the first index holding the minimum. */
  function FirstMin(s: seq<real>): (k: nat)
    requires |s| > 0
    ensures k < |s|
    ensures forall j :: 0 <= j < |s| ==> s[k] <= s[j]
    ensures forall j :: 0 <= j < k ==> s[k] < s[j]
  {
    if |s| == 1 then 0
    else
      var k := FirstMin(s[..|s| - 1]);
      if s[|s| - 1] < s[k] then |s| - 1 else k
  }

  /** pandas `idxmax` over a row: the first index holding the maximum. */
  function FirstMax(s: seq<int>): (k: nat)
    requires |s| > 0
    ensures k < |s|
    ensures forall j :: 0 <= j < |s| ==> s[j] <= s[k]
    ensures forall j :: 0 <= j < k ==> s[j] < s[k]
  {
    if |s| == 1 then 0
    else
      var k := FirstMax(s[..|s| - 1]);
      if s[k] < s[|s| - 1] then |s| - 1 else k
  }

  /** The smallest element of a non-empty row. */
  function Min(s: seq<real>): (m: real)
    requires |s| > 0
    ensures m in s
    ensures forall j :: 0 <= j < |s| ==> m <= s[j]
  {
    s[FirstMin(s)]
  }
}
