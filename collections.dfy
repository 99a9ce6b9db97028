/**
 * Python list and dict idioms used by the scraper and the front end:
 * a filtering comprehension, a mapping comprehension that may raise,
 * a dict built by assigning key after key, and `sorted` over a set of keys.
 */
module Collections {
  import opened Wrappers
  import opened Strings

  /** `[x for x in s if p(x)]`. */
  function Filter<T>(p: T -> bool, s: seq<T>): (r: seq<T>)
    ensures |r| <= |s|
    ensures forall x :: x in r ==> x in s && p(x)
  {
    if |s| == 0 then [] else (if p(s[0]) then [s[0]] else []) + Filter(p, s[1..])
  }

  /** The indices `i` at or after `k`, in increasing order, of the elements `p` keeps. */
  function IndicesFrom<T>(p: T -> bool, s: seq<T>, k: nat): (ix: seq<nat>)
    requires k <= |s|
    ensures forall j :: 0 <= j < |ix| ==> k <= ix[j] < |s| && p(s[ix[j]])
    ensures forall j, j' :: 0 <= j < j' < |ix| ==> ix[j] < ix[j']
    decreases |s| - k
  {
    if k == |s| then [] else (if p(s[k]) then [k] else []) + IndicesFrom(p, s, k + 1)
  }

  /** `IndicesFrom` misses no index at or after `k` whose element `p` keeps. */
  lemma {:induction false} IndicesFromComplete<T>(p: T -> bool, s: seq<T>, k: nat)
    requires k <= |s|
    ensures forall i :: k <= i < |s| && p(s[i]) ==> i in IndicesFrom(p, s, k)
    decreases |s| - k
  {
    if k < |s| {
      IndicesFromComplete(p, s, k + 1);
    }
  }

  /** The indices of the elements of `s` that `p` keeps, in increasing order. */
  function IndicesWhere<T>(p: T -> bool, s: seq<T>): (ix: seq<nat>)
  {
    IndicesFrom(p, s, 0)
  }

  /**
   * `Filter` keeps exactly the elements at `IndicesWhere`, in their original
   * order: element `j` of the result is element `IndicesWhere(p, s)[j]` of `s`.
   */
  lemma FilterAt<T>(p: T -> bool, s: seq<T>)
    ensures |Filter(p, s)| == |IndicesWhere(p, s)|
    ensures forall j :: 0 <= j < |Filter(p, s)| ==> Filter(p, s)[j] == s[IndicesWhere(p, s)[j]]
    ensures forall i :: 0 <= i < |s| && p(s[i]) ==> i in IndicesWhere(p, s)
  {
    FilterFrom(p, s, 0);
    IndicesFromComplete(p, s, 0);
    assert s[0..] == s;
  }

  lemma {:induction false} FilterFrom<T>(p: T -> bool, s: seq<T>, k: nat)
    requires k <= |s|
    ensures |Filter(p, s[k..])| == |IndicesFrom(p, s, k)|
    ensures forall j :: 0 <= j < |Filter(p, s[k..])| ==> Filter(p, s[k..])[j] == s[IndicesFrom(p, s, k)[j]]
    decreases |s| - k
  {
    if k < |s| {
      FilterFrom(p, s, k + 1);
      assert s[k..][1..] == s[k + 1..];
    }
  }

  /**
   * `[f(x) for x in s]` where `f` may raise: the first element that fails
   * aborts the whole comprehension with its error.
   */
  function MapAll<A, B, E>(f: A -> Result<B, E>, s: seq<A>): (r: Result<seq<B>, E>)
    ensures r.Ok? <==> forall i :: 0 <= i < |s| ==> f(s[i]).Ok?
    ensures r.Ok? ==> |r.value| == |s| && forall i :: 0 <= i < |s| ==> r.value[i] == f(s[i]).value
    ensures r.Err? ==> exists i :: 0 <= i < |s| && f(s[i]) == Err(r.error) &&
                                   forall j :: 0 <= j < i ==> f(s[j]).Ok?
  {
    if |s| == 0 then Ok([])
    else match f(s[0])
      case Err(e) => Err(e)
      case Ok(b) =>
        match MapAll(f, s[1..])
        case Err(e) => Err(e)
        case Ok(bs) => Ok([b] + bs)
  }

  /**
   * `s[i]` is kept by `p` and maps to the error `e`, and every element kept
   * before it maps successfully.
   */
  ghost predicate FirstFailure<A, B, E>(f: A -> Result<B, E>, p: A -> bool, s: seq<A>, i: int, e: E)
  {
    0 <= i < |s| && p(s[i]) && f(s[i]) == Err(e) &&
    forall i' :: 0 <= i' < i && p(s[i']) ==> f(s[i']).Ok?
  }

  /** When mapping the kept elements fails, the error is that of the first kept element that fails. */
  lemma {:induction false} MapAllFilterFirstError<A, B, E>(f: A -> Result<B, E>, p: A -> bool, s: seq<A>)
    requires MapAll(f, Filter(p, s)).Err?
    ensures exists i :: FirstFailure(f, p, s, i, MapAll(f, Filter(p, s)).error)
  {
    var e := MapAll(f, Filter(p, s)).error;
    var t := s[1..];
    var rest := Filter(p, t);
    if p(s[0]) && f(s[0]).Err? {
      assert Filter(p, s) == [s[0]] + rest;
      assert FirstFailure(f, p, s, 0, e);
    } else {
      if p(s[0]) {
        assert Filter(p, s) == [s[0]] + rest;
        assert ([s[0]] + rest)[1..] == rest;
      } else {
        assert Filter(p, s) == rest;
      }
      assert MapAll(f, rest) == Err(e);
      MapAllFilterFirstError(f, p, t);
      var k :| FirstFailure(f, p, t, k, e);
      FirstFailureShift(f, p, s, k, e);
    }
  }

  /** A first failure in the tail is a first failure of the whole, one index later. */
  lemma FirstFailureShift<A, B, E>(f: A -> Result<B, E>, p: A -> bool, s: seq<A>, k: int, e: E)
    requires |s| > 0 && FirstFailure(f, p, s[1..], k, e)
    requires p(s[0]) ==> f(s[0]).Ok?
    ensures FirstFailure(f, p, s, k + 1, e)
  {
    forall i' | 0 <= i' < k + 1 && p(s[i'])
      ensures f(s[i']).Ok?
    {
      if i' > 0 {
        assert s[i'] == s[1..][i' - 1];
      }
    }
  }

  /** The keys of a sequence of pairs, in order. */
  function Firsts<K, V>(ps: seq<(K, V)>): (ks: seq<K>)
    ensures |ks| == |ps| && forall i :: 0 <= i < |ps| ==> ks[i] == ps[i].0
  {
    seq(|ps|, i requires 0 <= i < |ps| => ps[i].0)
  }

  /** The keys of all pairs but the last, then the last key. */
  lemma FirstsSnoc<K, V>(ps: seq<(K, V)>)
    requires |ps| > 0
    ensures Firsts(ps) == Firsts(ps[..|ps| - 1]) + [ps[|ps| - 1].0]
  {
    var a, b := Firsts(ps), Firsts(ps[..|ps| - 1]) + [ps[|ps| - 1].0];
    forall i | 0 <= i < |a| ensures a[i] == b[i] {
      if i < |ps| - 1 {
        assert b[i] == ps[..|ps| - 1][i].0;
      }
    }
  }

  predicate Distinct<T(==)>(s: seq<T>)
  {
    forall i, j :: 0 <= i < j < |s| ==> s[i] != s[j]
  }

  /**
   * The dict that assigning `d[k] = v` for each pair in turn builds, starting
   * from `{}`: its keys are the pairs' keys, and each entry is one of the pairs.
   */
  function FromPairs<K(!new,==), V>(ps: seq<(K, V)>): (m: map<K, V>)
    ensures forall k :: k in m <==> k in Firsts(ps)
    ensures forall k :: k in m ==> (k, m[k]) in ps
    ensures |m| <= |ps|
  {
    if |ps| == 0 then map[]
    else
      var last := ps[|ps| - 1];
      var prefix := ps[..|ps| - 1];
      assert forall k :: k in Firsts(ps) <==> k in Firsts(prefix) || k == last.0 by {
        FirstsSnoc(ps);
      }
      FromPairs(prefix)[last.0 := last.1]
  }

  /** Of several pairs with the same key, the last one wins. */
  lemma {:induction false} FromPairsLastWins<K(!new), V>(ps: seq<(K, V)>, i: nat)
    requires i < |ps|
    requires forall j :: i < j < |ps| ==> ps[j].0 != ps[i].0
    ensures ps[i].0 in FromPairs(ps) && FromPairs(ps)[ps[i].0] == ps[i].1
  {
    if i < |ps| - 1 {
      FromPairsLastWins(ps[..|ps| - 1], i);
    }
  }

  /** The dict has one entry per pair exactly when no key repeats. */
  lemma {:induction false} FromPairsSize<K(!new), V>(ps: seq<(K, V)>)
    ensures |FromPairs(ps)| == |ps| <==> Distinct(Firsts(ps))
  {
    if |ps| > 0 {
      var prefix := ps[..|ps| - 1];
      var last := ps[|ps| - 1];
      var m := FromPairs(prefix);
      FromPairsSize(prefix);
      assert FromPairs(ps) == m[last.0 := last.1];
      FirstsSnoc(ps);
      DistinctSnoc(Firsts(prefix), last.0);
      if last.0 in m {
        assert |FromPairs(ps)| == |m| <= |prefix| < |ps|;
        assert !Distinct(Firsts(ps));
      } else {
        assert |FromPairs(ps)| == |m| + 1;
        assert last.0 !in Firsts(prefix);
      }
    }
  }

  /** A sequence extended by one element stays duplicate-free exactly when the element is new. */
  lemma DistinctSnoc<T>(s: seq<T>, x: T)
    ensures Distinct(s + [x]) <==> Distinct(s) && x !in s
  {
    var t := s + [x];
    if Distinct(t) {
      forall i, j | 0 <= i < j < |s| ensures s[i] != s[j] {
        assert t[i] == s[i] && t[j] == s[j];
      }
      forall i | 0 <= i < |s| ensures s[i] != x {
        assert t[i] == s[i] && t[|s|] == x;
      }
    }
  }

  /** `m` comes before every other member of `s`. */
  predicate IsLeast(m: string, s: set<string>)
  {
    forall x :: x in s && x != m ==> Below(m, x)
  }

  lemma {:induction false} LeastExists(s: set<string>)
    requires s != {}
    ensures exists m :: m in s && IsLeast(m, s)
    decreases |s|
  {
    var x :| x in s;
    if s != {x} {
      LeastExists(s - {x});
      var m :| m in s - {x} && IsLeast(m, s - {x});
      BelowTotal(m, x);
      if Below(x, m) {
        forall y | y in s && y != x ensures Below(x, y) {
          if y != m {
            BelowTransitive(x, m, y);
          }
        }
        assert IsLeast(x, s);
      } else {
        assert IsLeast(m, s);
      }
    } else {
      assert IsLeast(x, s);
    }
  }

  lemma LeastUnique(m: string, m': string, s: set<string>)
    requires m in s && IsLeast(m, s) && m' in s && IsLeast(m', s)
    ensures m == m'
  {
    if m != m' {
      BelowAsymmetric(m, m');
    }
  }

  lemma LeastUniqueAll(s: set<string>)
    ensures forall m, m' :: m in s && IsLeast(m, s) && m' in s && IsLeast(m', s) ==> m == m'
  {
    forall m, m' | m in s && IsLeast(m, s) && m' in s && IsLeast(m', s) ensures m == m' {
      LeastUnique(m, m', s);
    }
  }

  predicate StrictlySorted(r: seq<string>)
  {
    forall i, j :: 0 <= i < j < |r| ==> Below(r[i], r[j])
  }

  /** `sorted(s)` for a set of strings: strictly increasing, and holding exactly the members of `s`. */
  function SortedStrings(s: set<string>): (r: seq<string>)
    ensures StrictlySorted(r)
    ensures forall x :: x in r <==> x in s
    ensures |r| == |s|
    decreases |s|
  {
    if s == {} then []
    else
      LeastExists(s);
      LeastUniqueAll(s);
      var m :| m in s && IsLeast(m, s);
      var rest := SortedStrings(s - {m});
      ConsLeast(m, s, rest);
      [m] + rest
  }

  lemma ConsLeast(m: string, s: set<string>, rest: seq<string>)
    requires m in s && IsLeast(m, s)
    requires StrictlySorted(rest)
    requires forall x :: x in rest <==> x in s - {m}
    requires |rest| == |s - {m}|
    ensures StrictlySorted([m] + rest)
    ensures forall x :: x in [m] + rest <==> x in s
    ensures |[m] + rest| == |s|
  {
    var r := [m] + rest;
    forall i, j | 0 <= i < j < |r| ensures Below(r[i], r[j]) {
      if i == 0 {
        assert r[j] == rest[j - 1];
        assert r[j] in s - {m};
      } else {
        assert r[i] == rest[i - 1] && r[j] == rest[j - 1];
      }
    }
  }

  /** The head of a strictly sorted arrangement of `s` is its least member, and the tail arranges the rest. */
  lemma SortedHead(r: seq<string>, s: set<string>)
    requires StrictlySorted(r)
    requires forall x :: x in r <==> x in s
    requires s != {}
    ensures r != [] && IsLeast(r[0], s)
    ensures StrictlySorted(r[1..])
    ensures forall x :: x in r[1..] <==> x in s - {r[0]}
  {
    var x0 :| x0 in s;
    assert r != [];
    forall x | x in s && x != r[0] ensures Below(r[0], x) {
      var j :| 0 <= j < |r| && r[j] == x;
    }
    forall j | 1 <= j < |r| ensures r[j] != r[0] {
      BelowIrreflexive(r[0]);
    }
    assert forall x :: x in r <==> x == r[0] || x in r[1..] by {
      assert r == [r[0]] + r[1..];
    }
  }

  /** There is only one strictly sorted arrangement of a set: the one `SortedStrings` builds. */
  lemma {:induction false} SortedUnique(r: seq<string>, s: set<string>)
    requires StrictlySorted(r)
    requires forall x :: x in r <==> x in s
    ensures r == SortedStrings(s)
    decreases |s|
  {
    if r != [] {
      assert r[0] in s;
      var q := SortedStrings(s);
      SortedHead(r, s);
      SortedHead(q, s);
      LeastUnique(r[0], q[0], s);
      SortedUnique(r[1..], s - {r[0]});
      assert q[1..] == SortedStrings(s - {q[0]});
      assert r == [r[0]] + r[1..] && q == [q[0]] + q[1..];
    } else {
      assert s == {};
    }
  }
}
