/** Shared vocabulary: the optional and failing results of the PHP code, the
    exception kinds it raises, and the PHP string primitives it relies on
    (ASCII `strtolower`, `stripos`, `trim`/`rtrim` of one character, PHP
    truthiness of a string). */
module Common {

  /** PHP `NULL` versus a value. */
  datatype Option<+T> = None | Some(value: T)

  /** The exception classes the modelled code raises or lets through. */
  datatype Error =
    | InvalidArgument   // Kdyby\InvalidArgumentException, \InvalidArgumentException
    | InvalidState      // Kdyby\InvalidStateException
    | NotImplemented    // Kdyby\NotImplementedException
    | MissingService    // Nette's MissingServiceException
    | UnknownNamespace  // ORMException::unknownEntityNamespace
    | MissingAsset      // an asset name the asset manager does not know
    | Diverges          // unbounded recursion in the source
    | UndefinedMethod   // Nette's MemberAccessException: a call to a method the class lacks

  /** A call that either returns a value or throws. */
  datatype Result<+T> = Ok(value: T) | Err(error: Error)

  /** PHP truthiness of a string: everything except "" and "0". */
  predicate Truthy(s: string)
  {
    s != "" && s != "0"
  }

  /** PHP truthiness of a nullable string. */
  predicate TruthyOpt(s: Option<string>)
  {
    s.Some? && Truthy(s.value)
  }

  /** ASCII lower-casing of one character, as `strtolower` in the C locale. */
  function LowerChar(c: char): (r: char)
    ensures 'A' <= c <= 'Z' ==> r as int == c as int + 32
    ensures !('A' <= c <= 'Z') ==> r == c
  {
    if 'A' <= c <= 'Z' then (c as int + 32) as char else c
  }

  /** `strtolower`. */
  function Lower(s: string): (r: string)
    ensures |r| == |s|
    ensures forall i :: 0 <= i < |s| ==> r[i] == LowerChar(s[i])
  {
    if s == [] then [] else [LowerChar(s[0])] + Lower(s[1..])
  }

  /** Two strings are equal ignoring ASCII case, character by character. */
  predicate EqualsIgnoreCase(a: string, b: string)
  {
    |a| == |b| && forall i :: 0 <= i < |a| ==> LowerChar(a[i]) == LowerChar(b[i])
  }

  /** Equal ignoring case is equal once lower-cased. */
  lemma EqualsIgnoreCaseLower(a: string, b: string)
    ensures EqualsIgnoreCase(a, b) <==> Lower(a) == Lower(b)
  {
    if Lower(a) == Lower(b) {
      assert forall i :: 0 <= i < |a| ==> Lower(a)[i] == Lower(b)[i];
    }
  }

  /** `b` occurs in `a` at index `i`, ignoring ASCII case. */
  predicate OccursAtIgnoreCase(a: string, b: string, i: int)
  {
    0 <= i && i + |b| <= |a| && EqualsIgnoreCase(a[i..i + |b|], b)
  }

  /** `stripos($a, $b)`: the first index where `b` occurs in `a` ignoring
      case, searching from `from`. */
  function IndexOfIgnoreCase(a: string, b: string, from: nat): (r: Option<nat>)
    decreases |a| - from
  {
    if from + |b| > |a| then None
    else if EqualsIgnoreCase(a[from..from + |b|], b) then Some(from)
    else IndexOfIgnoreCase(a, b, from + 1)
  }

  /** `stripos` finds exactly the first case-insensitive occurrence at or
      after `from`, and fails only when there is none. */
  lemma {:induction false} IndexOfIgnoreCaseSpec(a: string, b: string, from: nat)
    ensures IndexOfIgnoreCase(a, b, from).Some? ==>
      var i := IndexOfIgnoreCase(a, b, from).value;
      from <= i && OccursAtIgnoreCase(a, b, i) &&
      forall j :: from <= j < i ==> !OccursAtIgnoreCase(a, b, j)
    ensures IndexOfIgnoreCase(a, b, from).None? ==>
      forall j :: from <= j ==> !OccursAtIgnoreCase(a, b, j)
    decreases |a| - from
  {
    if from + |b| > |a| {
    } else if EqualsIgnoreCase(a[from..from + |b|], b) {
      assert OccursAtIgnoreCase(a, b, from);
    } else {
      assert !OccursAtIgnoreCase(a, b, from);
      IndexOfIgnoreCaseSpec(a, b, from + 1);
      assert IndexOfIgnoreCase(a, b, from) == IndexOfIgnoreCase(a, b, from + 1);
    }
  }

  /** `stripos($a, $b) !== FALSE`. */
  predicate ContainsIgnoreCase(a: string, b: string)
  {
    IndexOfIgnoreCase(a, b, 0).Some?
  }

  /** The search agrees with the plain definition of an occurrence. */
  lemma ContainsIgnoreCaseIff(a: string, b: string)
    ensures ContainsIgnoreCase(a, b) <==> exists i :: OccursAtIgnoreCase(a, b, i)
  {
    IndexOfIgnoreCaseSpec(a, b, 0);
  }

  /** Number of occurrences of `c` in a row in `s` from index `from`. */
  function LeadingFrom(s: string, c: char, from: nat): (n: nat)
    requires from <= |s|
    ensures from + n <= |s|
    ensures forall i :: from <= i < from + n ==> s[i] == c
    ensures from + n < |s| ==> s[from + n] != c
    decreases |s| - from
  {
    if from == |s| || s[from] != c then 0 else 1 + LeadingFrom(s, c, from + 1)
  }

  /** Number of occurrences of `c` in a row in `s` ending just before index
      `upto`. */
  function TrailingBelow(s: string, c: char, upto: nat): (n: nat)
    requires upto <= |s|
    ensures n <= upto
    ensures forall i :: upto - n <= i < upto ==> s[i] == c
    ensures n < upto ==> s[upto - n - 1] != c
  {
    if upto == 0 || s[upto - 1] != c then 0 else 1 + TrailingBelow(s, c, upto - 1)
  }

  /** Number of leading occurrences of `c` in `s`. */
  function LeadingCount(s: string, c: char): (n: nat)
    ensures n <= |s|
    ensures forall i :: 0 <= i < n ==> s[i] == c
    ensures n < |s| ==> s[n] != c
  {
    LeadingFrom(s, c, 0)
  }

  /** Number of trailing occurrences of `c` in `s`. */
  function TrailingCount(s: string, c: char): (n: nat)
    ensures n <= |s|
    ensures forall i :: |s| - n <= i < |s| ==> s[i] == c
    ensures n < |s| ==> s[|s| - n - 1] != c
  {
    TrailingBelow(s, c, |s|)
  }

  /** `rtrim($s, c)` for a single character. */
  function RTrim(s: string, c: char): (r: string)
  {
    s[..|s| - TrailingCount(s, c)]
  }

  /** `ltrim($s, c)` for a single character. */
  function LTrim(s: string, c: char): (r: string)
  {
    s[LeadingCount(s, c)..]
  }

  /** `trim($s, c)` for a single character. */
  function Trim(s: string, c: char): (r: string)
  {
    RTrim(LTrim(s, c), c)
  }

  /** A string made only of the character `c`. */
  predicate AllChar(s: string, c: char)
  {
    forall i :: 0 <= i < |s| ==> s[i] == c
  }

  /** `rtrim` removes exactly the trailing run of `c`: what is left does not
      end in `c`, and putting the run back gives the input. */
  lemma RTrimSpec(s: string, c: char)
    ensures |RTrim(s, c)| == 0 || RTrim(s, c)[|RTrim(s, c)| - 1] != c
    ensures exists tail :: AllChar(tail, c) && s == RTrim(s, c) + tail
  {
    RTrimParts(s, c);
  }

  /** `rtrim` splits `s` into what it keeps and a run of `c`. */
  lemma RTrimParts(s: string, c: char)
    ensures var r, tail := RTrim(s, c), s[|s| - TrailingCount(s, c)..];
      (|r| == 0 || r[|r| - 1] != c) && AllChar(tail, c) && s == r + tail
  {
    var n := TrailingCount(s, c);
    assert s == s[..|s| - n] + s[|s| - n..];
  }

  /** `ltrim` splits `s` into a run of `c` and what it keeps. */
  lemma LTrimParts(s: string, c: char)
    ensures var l, head := LTrim(s, c), s[..LeadingCount(s, c)];
      (|l| == 0 || l[0] != c) && AllChar(head, c) && s == head + l
  {
    var n := LeadingCount(s, c);
    assert s == s[..n] + s[n..];
  }

  /** `trim` removes exactly the leading and the trailing run of `c`. */
  lemma TrimSpec(s: string, c: char)
    ensures |Trim(s, c)| == 0 || (Trim(s, c)[0] != c && Trim(s, c)[|Trim(s, c)| - 1] != c)
    ensures exists head, tail :: AllChar(head, c) && AllChar(tail, c) && s == head + Trim(s, c) + tail
  {
    var l := LTrim(s, c);
    var t := RTrim(l, c);
    var head := s[..LeadingCount(s, c)];
    var tail := l[|l| - TrailingCount(l, c)..];
    LTrimParts(s, c);
    RTrimParts(l, c);
    assert s == head + t + tail by {
      assert s == head + l && l == t + tail;
    }
    if |t| > 0 {
      assert t[0] == l[0];
    }
  }

  /** A string without the character `c` is left as it is by `trim`. */
  lemma TrimNoop(s: string, c: char)
    requires |s| == 0 || (s[0] != c && s[|s| - 1] != c)
    ensures Trim(s, c) == s
  {
  }

  /** No element appears twice. */
  predicate Distinct<T(==)>(s: seq<T>)
  {
    forall i, j :: 0 <= i < j < |s| ==> s[i] != s[j]
  }

  /** `array_unique` of a list: the first occurrence of each value is kept,
      in order. */
  function Unique<T(==)>(s: seq<T>): (r: seq<T>)
  {
    UniqueBelow(s, |s|)
  }

  /** `array_unique` of the first `n` values of `s`. */
  function UniqueBelow<T(==)>(s: seq<T>, n: nat): (r: seq<T>)
    requires n <= |s|
  {
    if n == 0 then []
    else
      var u := UniqueBelow(s, n - 1);
      if s[n - 1] in u then u else u + [s[n - 1]]
  }

  /** `array_unique` of a prefix keeps exactly the values of that prefix,
      each once. */
  lemma {:induction false} UniqueBelowSpec<T>(s: seq<T>, n: nat)
    requires n <= |s|
    ensures Distinct(UniqueBelow(s, n))
    ensures forall x :: x in UniqueBelow(s, n) <==> x in s[..n]
  {
    if n > 0 {
      UniqueBelowSpec(s, n - 1);
      assert s[..n] == s[..n - 1] + [s[n - 1]];
      var u := UniqueBelow(s, n - 1);
      if s[n - 1] !in u {
        var r := u + [s[n - 1]];
        forall i, j | 0 <= i < j < |r| ensures r[i] != r[j] {
          if j == |u| {
            assert r[i] == u[i];
          }
        }
      }
    }
  }

  /** `array_unique` keeps exactly the values of its input, each once. */
  lemma UniqueSpec<T>(s: seq<T>)
    ensures Distinct(Unique(s))
    ensures forall x :: x in Unique(s) <==> x in s
  {
    UniqueBelowSpec(s, |s|);
    assert s[..|s|] == s;
  }

  /** `array_unique` of a prefix depends on that prefix alone. */
  lemma {:induction false} UniqueBelowPrefix<T>(s: seq<T>, t: seq<T>, n: nat)
    requires n <= |s| && n <= |t| && s[..n] == t[..n]
    ensures UniqueBelow(s, n) == UniqueBelow(t, n)
  {
    if n > 0 {
      assert s[..n - 1] == s[..n][..n - 1] && t[..n - 1] == t[..n][..n - 1];
      assert s[n - 1] == s[..n][n - 1] && t[n - 1] == t[..n][n - 1];
      UniqueBelowPrefix(s, t, n - 1);
    }
  }

  /** The values of `s` that are not in `a`, in order. */
  function Without<T(==)>(s: seq<T>, a: seq<T>): (r: seq<T>)
  {
    if s == [] then []
    else Without(s[..|s| - 1], a) + (if s[|s| - 1] in a then [] else [s[|s| - 1]])
  }

  /** A prefix of a list without duplicates is its own `array_unique`. */
  lemma {:induction false} UniqueBelowOfDistinct<T>(s: seq<T>, n: nat)
    requires Distinct(s) && n <= |s|
    ensures UniqueBelow(s, n) == s[..n]
  {
    if n > 0 {
      UniqueBelowOfDistinct(s, n - 1);
      var p := s[..n - 1];
      assert s[n - 1] !in p by {
        forall i | 0 <= i < |p| ensures p[i] != s[n - 1] {
          assert p[i] == s[i];
        }
      }
      assert s[..n] == s[..n - 1] + [s[n - 1]];
    }
  }

  /** A list without duplicates is its own `array_unique`. */
  lemma UniqueOfDistinct<T>(s: seq<T>)
    requires Distinct(s)
    ensures Unique(s) == s
  {
    UniqueBelowOfDistinct(s, |s|);
    assert s[..|s|] == s;
  }

  /** `Without` of a list with one more value. */
  lemma WithoutSnoc<T>(u: seq<T>, x: T, a: seq<T>)
    ensures Without(u + [x], a) == Without(u, a) + (if x in a then [] else [x])
  {
    assert (u + [x])[..|u|] == u;
  }

  /** A value is kept from `|a| + k` values of `a + b` exactly when it is in
      `a` or kept from `k` values of `b`. */
  lemma UniqueAppendMember<T>(a: seq<T>, b: seq<T>, k: nat, x: T)
    requires k <= |b|
    ensures x in UniqueBelow(a + b, |a| + k) <==> x in a || x in UniqueBelow(b, k)
  {
    UniqueBelowSpec(a + b, |a| + k);
    UniqueBelowSpec(b, k);
    assert (a + b)[..|a| + k] == a + b[..k];
  }

  /** One more value of `b` keeps `UniqueAppendBelow`. */
  lemma UniqueAppendStep<T>(a: seq<T>, b: seq<T>, k: nat)
    requires 0 < k <= |b|
    requires UniqueBelow(a + b, |a| + k - 1) == a + Without(UniqueBelow(b, k - 1), a)
    ensures UniqueBelow(a + b, |a| + k) == a + Without(UniqueBelow(b, k), a)
  {
    var u', ub' := UniqueBelow(a + b, |a| + k - 1), UniqueBelow(b, k - 1);
    var w' := Without(ub', a);
    var x := b[k - 1];
    assert (a + b)[|a| + k - 1] == x;
    assert UniqueBelow(a + b, |a| + k) == if x in u' then u' else u' + [x];
    assert UniqueBelow(b, k) == if x in ub' then ub' else ub' + [x];
    UniqueAppendMember(a, b, k - 1, x);
    if x !in ub' {
      WithoutSnoc(ub', x, a);
      if x !in a {
        assert u' + [x] == a + (w' + [x]);
      }
    }
  }

  /** `array_unique` of `a + b` after `|a| + k` values. */
  lemma {:induction false} UniqueAppendBelow<T>(a: seq<T>, b: seq<T>, k: nat)
    requires Distinct(a) && k <= |b|
    ensures UniqueBelow(a + b, |a| + k) == a + Without(UniqueBelow(b, k), a)
  {
    if k == 0 {
      assert (a + b)[..|a|] == a[..|a|];
      UniqueBelowPrefix(a + b, a, |a|);
      UniqueBelowOfDistinct(a, |a|);
      assert a[..|a|] == a;
    } else {
      UniqueAppendBelow(a, b, k - 1);
      UniqueAppendStep(a, b, k);
    }
  }

  /** `array_unique(array_merge($a, $b))` lists all of a duplicate-free `a`
      first, then the values of `b` that `a` lacks, first occurrences only. */
  lemma UniqueAppend<T>(a: seq<T>, b: seq<T>)
    requires Distinct(a)
    ensures Unique(a + b) == a + Without(Unique(b), a)
  {
    UniqueAppendBelow(a, b, |b|);
  }

  /** The index of the last `c` among the first `n` characters of `s`, if
      there is one. */
  function LastIndexBelow(s: string, c: char, n: nat): (r: Option<nat>)
    requires n <= |s|
    ensures r.Some? ==> r.value < n && s[r.value] == c && forall i :: r.value < i < n ==> s[i] != c
    ensures r.None? ==> forall i :: 0 <= i < n ==> s[i] != c
  {
    if n == 0 then None
    else if s[n - 1] == c then Some(n - 1)
    else LastIndexBelow(s, c, n - 1)
  }

  /** The part of `s` after the last `c`, or all of `s` when it has no `c`. */
  function AfterLast(s: string, c: char): (r: string)
  {
    match LastIndexBelow(s, c, |s|)
    case None => s
    case Some(k) => s[k + 1..]
  }

  /** `AfterLast` is a suffix free of `c`, preceded by `c` when `s` has one. */
  lemma AfterLastSpec(s: string, c: char)
    ensures |AfterLast(s, c)| <= |s|
    ensures AfterLast(s, c) == s[|s| - |AfterLast(s, c)|..]
    ensures c !in AfterLast(s, c)
    ensures c in s <==> |AfterLast(s, c)| < |s|
    ensures |AfterLast(s, c)| < |s| ==> s[|s| - |AfterLast(s, c)| - 1] == c
  {
    var r := AfterLast(s, c);
    match LastIndexBelow(s, c, |s|)
    case None =>
      assert c !in s;
    case Some(k) =>
      assert c !in r by {
        forall i | 0 <= i < |r| ensures r[i] != c {
          assert r[i] == s[k + 1 + i];
        }
      }
  }
}
