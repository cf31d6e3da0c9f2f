/** Sequence helpers shared by the filename sanitiser, the link test and the
    download directory: selecting the elements that satisfy a predicate,
    prefix/suffix tests and duplicate-freedom. */
module Seqs {

  datatype Option<T> = None | Some(value: T)

  /** The elements of `s` that satisfy `p`, in their original order
      (a list comprehension `[x for x in s if p(x)]`). */
  function Select<T(!new)>(s: seq<T>, p: T -> bool): (r: seq<T>)
    ensures |r| <= |s|
  {
    if s == [] then []
    else (if p(s[0]) then [s[0]] else []) + Select(s[1..], p)
  }

  /** An element is selected exactly when it occurs and satisfies `p`. */
  lemma {:induction false} SelectMembers<T(!new)>(s: seq<T>, p: T -> bool)
    ensures forall x :: x in Select(s, p) <==> x in s && p(x)
  {
    if s != [] {
      SelectMembers(s[1..], p);
      assert forall x :: x in s <==> x == s[0] || x in s[1..];
    }
  }

  /** Every element of `s` satisfies `p`. */
  predicate All<T>(s: seq<T>, p: T -> bool) {
    forall i :: 0 <= i < |s| ==> p(s[i])
  }

  /** Selection distributes over concatenation. */
  lemma {:induction false} SelectAppend<T(!new)>(a: seq<T>, b: seq<T>, p: T -> bool)
    ensures Select(a + b, p) == Select(a, p) + Select(b, p)
  {
    if a == [] {
      assert a + b == b;
    } else {
      var head := if p(a[0]) then [a[0]] else [];
      assert (a + b)[0] == a[0];
      assert (a + b)[1..] == a[1..] + b;
      SelectAppend(a[1..], b, p);
      calc {
        Select(a + b, p);
        head + Select(a[1..] + b, p);
        head + (Select(a[1..], p) + Select(b, p));
        (head + Select(a[1..], p)) + Select(b, p);
      }
    }
  }

  /** Selecting with a predicate every element satisfies changes nothing. */
  lemma {:induction false} SelectAll<T(!new)>(s: seq<T>, p: T -> bool)
    requires All(s, p)
    ensures Select(s, p) == s
  {
    if s != [] {
      SelectAll(s[1..], p);
      assert s == [s[0]] + s[1..];
    }
  }

  /** Selecting with a predicate no element satisfies leaves nothing. */
  lemma {:induction false} SelectNone<T(!new)>(s: seq<T>, p: T -> bool)
    requires forall i :: 0 <= i < |s| ==> !p(s[i])
    ensures Select(s, p) == []
  {
    if s != [] {
      SelectNone(s[1..], p);
    }
  }

  /** Selecting first with a weaker predicate does not change what a
      stronger one selects afterwards. */
  lemma {:induction false} SelectWeaker<T(!new)>(s: seq<T>, p: T -> bool, q: T -> bool)
    requires forall i :: 0 <= i < |s| ==> q(s[i]) ==> p(s[i])
    ensures Select(Select(s, p), q) == Select(s, q)
  {
    if s != [] {
      SelectWeaker(s[1..], p, q);
      var head := if p(s[0]) then [s[0]] else [];
      SelectAppend(head, Select(s[1..], p), q);
      if !p(s[0]) {
        assert Select(head, q) == [];
      } else {
        assert head[1..] == [];
      }
    }
  }

  /** Splitting off the first element of the left operand of `+`. */
  lemma HeadAppend<T>(w: seq<T>, s: seq<T>, t: seq<T>)
    requires w != []
    ensures w + s == [w[0]] + (w[1..] + s)
    ensures w + t == [w[0]] + (w[1..] + t)
  {
    assert w == [w[0]] + w[1..];
  }

  /** `s` starts with `prefix` (Python's `str.startswith`). */
  predicate HasPrefix<T(==)>(s: seq<T>, prefix: seq<T>) {
    |prefix| <= |s| && s[..|prefix|] == prefix
  }

  /** `s` ends with `suffix` (Python's `str.endswith`). */
  predicate HasSuffix<T(==)>(s: seq<T>, suffix: seq<T>) {
    |suffix| <= |s| && s[|s| - |suffix|..] == suffix
  }

  /** No value occurs twice in `s`, as in a directory listing. */
  predicate Distinct<T(==)>(s: seq<T>) {
    forall i, j :: 0 <= i < j < |s| ==> s[i] != s[j]
  }

  /** `s` with every occurrence of `x` removed. */
  function Without<T(==,!new)>(s: seq<T>, x: T): (r: seq<T>)
    ensures forall y :: y in r <==> y in s && y != x
    ensures Distinct(s) ==> Distinct(r)
    ensures x !in s ==> r == s
  {
    var keep := y => y != x;
    SelectMembers(s, keep);
    SelectDistinct(s, keep);
    if x !in s then SelectAll(s, keep); Select(s, keep)
    else Select(s, keep)
  }

  /** Removing an element that occurs once shortens the sequence by one. */
  lemma {:induction false} WithoutOnce<T(!new)>(s: seq<T>, x: T)
    requires Distinct(s) && x in s
    ensures |Without(s, x)| == |s| - 1
  {
    var keep := y => y != x;
    assert Distinct(s[1..]);
    if s[0] == x {
      assert s[0] !in s[1..];
      SelectAll(s[1..], keep);
    } else {
      WithoutOnce(s[1..], x);
    }
  }

  /** Removal distributes over concatenation. */
  lemma WithoutAppend<T(!new)>(a: seq<T>, b: seq<T>, x: T)
    ensures Without(a + b, x) == Without(a, x) + Without(b, x)
  {
    SelectAppend(a, b, y => y != x);
  }

  /** Selection keeps a duplicate-free sequence duplicate-free. */
  lemma {:induction false} SelectDistinct<T(!new)>(s: seq<T>, p: T -> bool)
    ensures Distinct(s) ==> Distinct(Select(s, p))
  {
    if s != [] && Distinct(s) {
      assert Distinct(s[1..]) && s[0] !in s[1..];
      SelectDistinct(s[1..], p);
      SelectMembers(s[1..], p);
    }
  }

  /** The end of the run of elements satisfying `p` that starts at `k`. */
  function RunEnd<T>(s: seq<T>, p: T -> bool, k: nat): (n: nat)
    requires k <= |s|
    ensures k <= n <= |s|
    ensures forall i :: k <= i < n ==> p(s[i])
    ensures n == |s| || !p(s[n])
    decreases |s| - k
  {
    if k < |s| && p(s[k]) then RunEnd(s, p, k + 1) else k
  }

  /** The start of the run of elements satisfying `p` that ends at `n`. */
  function RunStart<T>(s: seq<T>, p: T -> bool, n: nat): (k: nat)
    requires n <= |s|
    ensures k <= n
    ensures forall i :: k <= i < n ==> p(s[i])
    ensures k == 0 || !p(s[k - 1])
  {
    if 0 < n && p(s[n - 1]) then RunStart(s, p, n - 1) else n
  }

  /** `s` without its longest prefix whose elements all satisfy `p`
      (Python's `lstrip` when `p` is a character class). */
  function DropWhile<T>(s: seq<T>, p: T -> bool): (r: seq<T>)
    ensures HasSuffix(s, r)
    ensures forall i :: 0 <= i < |s| - |r| ==> p(s[i])
    ensures r == [] || !p(r[0])
    ensures s != [] && p(s[0]) ==> |r| < |s|
  {
    s[RunEnd(s, p, 0)..]
  }

  /** Dropping a leading run stops exactly where the run ends. */
  lemma DropWhileRun<T>(run: seq<T>, rest: seq<T>, p: T -> bool)
    requires All(run, p)
    requires rest == [] || !p(rest[0])
    ensures DropWhile(run + rest, p) == rest
  {
    var s := run + rest;
    var n := RunEnd(s, p, 0);
    assert forall i :: 0 <= i < |run| ==> s[i] == run[i];
    if rest != [] {
      assert s[|run|] == rest[0];
    }
    assert n == |run|;
    assert s[n..] == rest;
  }

  /** `s` without its longest suffix whose elements all satisfy `p`
      (Python's `rstrip` when `p` is a character class). */
  function DropLastWhile<T>(s: seq<T>, p: T -> bool): (r: seq<T>)
    ensures HasPrefix(s, r)
    ensures forall i :: |r| <= i < |s| ==> p(s[i])
    ensures r == [] || !p(r[|r| - 1])
  {
    s[..RunStart(s, p, |s|)]
  }
}
