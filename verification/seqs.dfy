/**
 * Generic operations on rows held in sequences, the shapes a pandas DataFrame
 * takes once it is a `seq`: boolean-mask filtering, keep-first de-duplication
 * by a key column, sorting by a two-part numeric key, Python slicing and rank
 * numbering.
 */
module Seqs {
  import opened Wrappers

  // ---------------------------------------------------------------- subsequences

  /** `xs` is an order-preserving subsequence of `ys`: rows removed, none edited or reordered. */
  predicate IsSubseq<T(==)>(xs: seq<T>, ys: seq<T>)
    decreases |ys|
  {
    |xs| == 0 || (|ys| > 0 && ((xs[0] == ys[0] && IsSubseq(xs[1..], ys[1..])) || IsSubseq(xs, ys[1..])))
  }

  lemma {:induction false} SubseqMembers<T>(xs: seq<T>, ys: seq<T>)
    requires IsSubseq(xs, ys)
    ensures |xs| <= |ys|
    ensures forall x :: x in xs ==> x in ys
    decreases |ys|
  {
    if |xs| > 0 {
      if xs[0] == ys[0] && IsSubseq(xs[1..], ys[1..]) {
        SubseqMembers(xs[1..], ys[1..]);
        assert forall x :: x in xs ==> x == xs[0] || x in xs[1..];
      } else {
        SubseqMembers(xs, ys[1..]);
      }
    }
  }

  /** Removing rows cannot create a duplicate key. */
  lemma {:induction false} SubseqUniqueKeys<T, K>(xs: seq<T>, ys: seq<T>, key: T -> K)
    requires IsSubseq(xs, ys) && UniqueKeys(ys, key)
    ensures UniqueKeys(xs, key)
    decreases |ys|
  {
    if |xs| > 0 {
      assert UniqueKeys(ys[1..], key) by {
        forall i, j | 0 <= i < j < |ys[1..]|
          ensures key(ys[1..][i]) != key(ys[1..][j])
        {
          assert ys[1..][i] == ys[i + 1] && ys[1..][j] == ys[j + 1];
        }
      }
      if xs[0] == ys[0] && IsSubseq(xs[1..], ys[1..]) {
        SubseqUniqueKeys(xs[1..], ys[1..], key);
        SubseqMembers(xs[1..], ys[1..]);
        forall i, j | 0 <= i < j < |xs|
          ensures key(xs[i]) != key(xs[j])
        {
          if i == 0 {
            assert xs[j] == xs[1..][j - 1] && xs[j] in ys[1..];
            var m :| 0 <= m < |ys[1..]| && ys[1..][m] == xs[j];
            assert ys[m + 1] == xs[j];
          } else {
            assert xs[i] == xs[1..][i - 1] && xs[j] == xs[1..][j - 1];
          }
        }
      } else {
        SubseqUniqueKeys(xs, ys[1..], key);
      }
    }
  }

  lemma {:induction false} SubseqRefl<T>(xs: seq<T>)
    ensures IsSubseq(xs, xs)
  {
    if |xs| > 0 {
      SubseqRefl(xs[1..]);
    }
  }

  // ---------------------------------------------------------------- filtering

  /** `df[mask]`: the rows satisfying `p`, in their original order. */
  function Filter<T(==)>(xs: seq<T>, p: T -> bool): (r: seq<T>)
    ensures |r| <= |xs|
    ensures forall i :: 0 <= i < |r| ==> r[i] in xs && p(r[i])
    ensures forall i :: 0 <= i < |xs| && p(xs[i]) ==> xs[i] in r
  {
    if |xs| == 0 then []
    else (if p(xs[0]) then [xs[0]] else []) + Filter(xs[1..], p)
  }

  /** Filtering only removes rows. */
  lemma {:induction false} FilterIsSubseq<T>(xs: seq<T>, p: T -> bool)
    ensures IsSubseq(Filter(xs, p), xs)
  {
    if |xs| > 0 {
      var f := Filter(xs[1..], p);
      FilterIsSubseq(xs[1..], p);
      if p(xs[0]) {
        assert Filter(xs, p) == [xs[0]] + f;
        assert Filter(xs, p)[1..] == f;
      } else {
        assert Filter(xs, p) == f;
      }
    }
  }

  /** Two successive masks are one mask with the conjunction. */
  lemma {:induction false} FilterFusion<T>(xs: seq<T>, p: T -> bool, q: T -> bool)
    ensures Filter(Filter(xs, p), q) == Filter(xs, x => p(x) && q(x))
  {
    if |xs| > 0 {
      FilterFusion(xs[1..], p, q);
      var f := Filter(xs, p);
      if p(xs[0]) {
        assert f == [xs[0]] + Filter(xs[1..], p);
        assert f[1..] == Filter(xs[1..], p);
      } else {
        assert f == Filter(xs[1..], p);
      }
    }
  }

  /** `[f(x) for x in xs]` where one failure spoils the whole list. */
  function AllOrNothing<A, B>(xs: seq<A>, f: A -> Option<B>): (r: Option<seq<B>>)
    ensures r.Some? ==> |r.value| == |xs| && forall i :: 0 <= i < |xs| ==> f(xs[i]) == Some(r.value[i])
    ensures r.None? ==> exists i :: 0 <= i < |xs| && f(xs[i]).None?
  {
    if |xs| == 0 then Some([])
    else
      match f(xs[0])
      case None => None
      case Some(y) =>
        var rest := AllOrNothing(xs[1..], f);
        assert forall i :: 1 <= i < |xs| ==> xs[i] == xs[1..][i - 1];
        if rest.None? then None else Some([y] + rest.value)
  }

  /** Two successive masks are one mask by any test equal to their conjunction. */
  lemma FilterFusionTo<T>(xs: seq<T>, p: T -> bool, q: T -> bool, pq: T -> bool)
    requires forall i :: 0 <= i < |xs| ==> pq(xs[i]) == (p(xs[i]) && q(xs[i]))
    ensures Filter(Filter(xs, p), q) == Filter(xs, pq)
  {
    FilterFusion(xs, p, q);
    FilterExt(xs, x => p(x) && q(x), pq);
  }

  /** A mask every row already satisfies changes nothing. */
  lemma {:induction false} FilterAll<T>(xs: seq<T>, p: T -> bool)
    requires forall x :: x in xs ==> p(x)
    ensures Filter(xs, p) == xs
  {
    if |xs| > 0 {
      assert xs[0] in xs;
      assert forall x :: x in xs[1..] ==> x in xs;
      FilterAll(xs[1..], p);
    }
  }

  /** Masks that agree on every row select the same rows. */
  lemma {:induction false} FilterExt<T>(xs: seq<T>, p: T -> bool, q: T -> bool)
    requires forall i :: 0 <= i < |xs| ==> p(xs[i]) == q(xs[i])
    ensures Filter(xs, p) == Filter(xs, q)
  {
    if |xs| > 0 {
      assert forall i :: 0 <= i < |xs[1..]| ==> xs[1..][i] == xs[i + 1];
      FilterExt(xs[1..], p, q);
    }
  }

  /** A stricter mask keeps a subsequence of what a looser mask keeps. */
  lemma {:induction false} FilterMono<T>(xs: seq<T>, p: T -> bool, q: T -> bool)
    requires forall i :: 0 <= i < |xs| && p(xs[i]) ==> q(xs[i])
    ensures IsSubseq(Filter(xs, p), Filter(xs, q))
  {
    if |xs| > 0 {
      assert forall i :: 0 <= i < |xs[1..]| ==> xs[1..][i] == xs[i + 1];
      FilterMono(xs[1..], p, q);
      var fp := Filter(xs[1..], p);
      var fq := Filter(xs[1..], q);
      if p(xs[0]) {
        assert Filter(xs, p) == [xs[0]] + fp && Filter(xs, q) == [xs[0]] + fq;
        assert Filter(xs, p)[1..] == fp && Filter(xs, q)[1..] == fq;
      } else if q(xs[0]) {
        assert Filter(xs, q) == [xs[0]] + fq && Filter(xs, q)[1..] == fq;
        assert Filter(xs, p) == fp;
      } else {
        assert Filter(xs, p) == fp && Filter(xs, q) == fq;
      }
    }
  }

  /** Masking distributes over concatenation. */
  lemma {:induction false} FilterAppend<T>(xs: seq<T>, ys: seq<T>, p: T -> bool)
    ensures Filter(xs + ys, p) == Filter(xs, p) + Filter(ys, p)
  {
    if |xs| > 0 {
      assert (xs + ys)[0] == xs[0] && (xs + ys)[1..] == xs[1..] + ys;
      FilterAppend(xs[1..], ys, p);
    } else {
      assert xs + ys == ys;
    }
  }

  /** Keeping the successes of two lists back to back is keeping each list's successes in turn. */
  lemma {:induction false} SuccessesAppend<A, B>(xs: seq<A>, ys: seq<A>, f: A -> Option<B>)
    ensures Successes(xs + ys, f) == Successes(xs, f) + Successes(ys, f)
  {
    if |xs| > 0 {
      assert (xs + ys)[0] == xs[0] && (xs + ys)[1..] == xs[1..] + ys;
      SuccessesAppend(xs[1..], ys, f);
    } else {
      assert xs + ys == ys;
    }
  }

  /** All the rows of several result lists, list after list. */
  function Flatten<T>(xss: seq<seq<T>>): seq<T>
  {
    if |xss| == 0 then [] else xss[0] + Flatten(xss[1..])
  }

  /** A dict filled by `d[key(x)] = val(x)` for each row in turn: a later row overwrites an earlier one. */
  function LastWins<T, K, V>(xs: seq<T>, key: T -> K, val: T -> V): map<K, V>
  {
    if |xs| == 0 then map[]
    else LastWins(xs[..|xs| - 1], key, val)[key(xs[|xs| - 1]) := val(xs[|xs| - 1])]
  }

  /** The dict has one entry per key, holding the value of the LAST row with that key. */
  lemma {:induction false} LastWinsFacts<T, K, V>(xs: seq<T>, key: T -> K, val: T -> V)
    ensures LastWins(xs, key, val).Keys == KeysOf(xs, key)
    ensures forall i :: 0 <= i < |xs| && (forall j :: i < j < |xs| ==> key(xs[j]) != key(xs[i]))
              ==> LastWins(xs, key, val)[key(xs[i])] == val(xs[i])
  {
    if |xs| > 0 {
      var init := xs[..|xs| - 1];
      LastWinsFacts(init, key, val);
      assert KeysOf(xs, key) == KeysOf(init, key) + {key(xs[|xs| - 1])} by {
        assert forall y :: y in xs <==> y in init || y == xs[|xs| - 1];
      }
      forall i | 0 <= i < |xs| && (forall j :: i < j < |xs| ==> key(xs[j]) != key(xs[i]))
        ensures LastWins(xs, key, val)[key(xs[i])] == val(xs[i])
      {
        if i < |xs| - 1 {
          assert xs[i] == init[i];
          assert forall j :: i < j < |init| ==> init[j] == xs[j];
        }
      }
    }
  }

  /** Keep-first de-duplication over a concatenation: the second part only adds keys not seen in the first. */
  lemma {:induction false} DedupFromAppend<T, K>(xs: seq<T>, ys: seq<T>, key: T -> K, seen: set<K>)
    ensures DedupFrom(xs + ys, key, seen) == DedupFrom(xs, key, seen) + DedupFrom(ys, key, seen + KeysOf(xs, key))
    decreases |xs|
  {
    if |xs| == 0 {
      assert xs + ys == ys;
      assert KeysOf(xs, key) == {};
      assert seen + {} == seen;
    } else {
      assert (xs + ys)[0] == xs[0] && (xs + ys)[1..] == xs[1..] + ys;
      assert KeysOf(xs, key) == {key(xs[0])} + KeysOf(xs[1..], key) by {
        assert forall y :: y in xs <==> y == xs[0] || y in xs[1..];
      }
      if key(xs[0]) in seen {
        DedupFromAppend(xs[1..], ys, key, seen);
        assert seen + KeysOf(xs, key) == seen + KeysOf(xs[1..], key);
      } else {
        DedupFromAppend(xs[1..], ys, key, seen + {key(xs[0])});
        assert seen + {key(xs[0])} + KeysOf(xs[1..], key) == seen + KeysOf(xs, key);
      }
    }
  }

  /** The keys of a concatenation are the keys of its parts. */
  lemma KeysOfAppend<T, K>(xs: seq<T>, ys: seq<T>, key: T -> K)
    ensures KeysOf(xs + ys, key) == KeysOf(xs, key) + KeysOf(ys, key)
  {
    assert forall y :: y in xs + ys <==> y in xs || y in ys;
  }

  /** The keys of a one-row list. */
  lemma KeysOfSingleton<T, K>(x: T, key: T -> K)
    ensures KeysOf([x], key) == {key(x)}
  {
    assert x in [x];
    forall k | k in KeysOf([x], key)
      ensures k == key(x)
    {
      var y :| y in [x] && key(y) == k;
    }
  }

  /**
   * The dict loop `for x in xs: if key(x) not in d: d[key(x)] = x`, returning `list(d.values())`:
   * the same rows as keep-first de-duplication.
   */
  method DedupLoop<T(==), K(==)>(xs: seq<T>, key: T -> K) returns (r: seq<T>)
    ensures r == DedupBy(xs, key)
  {
    r := [];
    var seen: set<K> := {};
    for i := 0 to |xs|
      invariant r == DedupBy(xs[..i], key)
      invariant seen == KeysOf(xs[..i], key)
    {
      assert xs[..i + 1] == xs[..i] + [xs[i]];
      DedupFromSnoc(xs[..i], xs[i], key, {});
      KeysOfAppend(xs[..i], [xs[i]], key);
      KeysOfSingleton(xs[i], key);
      if key(xs[i]) !in seen {
        r := r + [xs[i]];
        seen := seen + {key(xs[i])};
      }
    }
    assert xs[..|xs|] == xs;
  }

  /** A column has at most as many distinct values as rows. */
  lemma {:induction false} ImageCard<T, K>(xs: seq<T>, key: T -> K)
    ensures |KeysOf(xs, key)| <= |xs|
  {
    if |xs| > 0 {
      ImageCard(xs[1..], key);
      assert KeysOf(xs, key) == {key(xs[0])} + KeysOf(xs[1..], key) by {
        assert forall y :: y in xs <==> y == xs[0] || y in xs[1..];
      }
    }
  }

  /** A non-empty column has at least one value. */
  lemma ImageNonEmpty<T, K>(xs: seq<T>, key: T -> K)
    requires |xs| > 0
    ensures |KeysOf(xs, key)| >= 1
  {
    assert key(xs[0]) in KeysOf(xs, key);
  }

  /** Mapping a partial lookup over a list and keeping the successes (`if author: authors.append(author)`). */
  function Successes<A(==), B(==)>(xs: seq<A>, f: A -> Option<B>): (r: seq<B>)
    ensures |r| <= |xs|
    ensures forall i :: 0 <= i < |r| ==> exists j :: 0 <= j < |xs| && f(xs[j]) == Some(r[i])
    ensures forall j :: 0 <= j < |xs| && f(xs[j]).Some? ==> f(xs[j]).value in r
  {
    if |xs| == 0 then []
    else
      var rest := Successes(xs[1..], f);
      var head := if f(xs[0]).Some? then [f(xs[0]).value] else [];
      var r := head + rest;
      assert forall i :: 0 <= i < |rest| ==> r[|head| + i] == rest[i];
      assert forall j :: 1 <= j < |xs| ==> xs[1..][j - 1] == xs[j];
      r
  }

  /** One step of `Successes`: the head's success, if any, then the rest's. */
  lemma SuccessesCons<A, B>(xs: seq<A>, f: A -> Option<B>)
    requires |xs| > 0
    ensures Successes(xs, f) == (if f(xs[0]).Some? then [f(xs[0]).value] else []) + Successes(xs[1..], f)
  {
  }

  /** When every lookup succeeds, the successes are all the results, in order. */
  lemma {:induction false} SuccessesAllSome<A, B>(xs: seq<A>, f: A -> Option<B>, ys: seq<B>)
    requires |ys| == |xs| && forall i :: 0 <= i < |xs| ==> f(xs[i]) == Some(ys[i])
    ensures Successes(xs, f) == ys
  {
    if |xs| > 0 {
      SuccessesCons(xs, f);
      SuccessesAllSome(xs[1..], f, ys[1..]);
      assert [ys[0]] + ys[1..] == ys;
    }
  }

  // ---------------------------------------------------------------- keep-first de-duplication

  /** The set of keys occurring in `xs`. */
  function KeysOf<T(==), K>(xs: seq<T>, key: T -> K): set<K>
  {
    set x | x in xs :: key(x)
  }

  /** No two rows share a key. */
  predicate UniqueKeys<T(==), K(==)>(xs: seq<T>, key: T -> K)
  {
    forall i, j :: 0 <= i < j < |xs| ==> key(xs[i]) != key(xs[j])
  }

  /** Keep-first scan, skipping keys already in `seen`. */
  function DedupFrom<T(==), K(==)>(xs: seq<T>, key: T -> K, seen: set<K>): seq<T>
  {
    if |xs| == 0 then []
    else if key(xs[0]) in seen then DedupFrom(xs[1..], key, seen)
    else [xs[0]] + DedupFrom(xs[1..], key, seen + {key(xs[0])})
  }

  /** `drop_duplicates(subset=key, keep='first')`, or a dict filled with `if k not in d: d[k] = row`. */
  function DedupBy<T(==), K(==)>(xs: seq<T>, key: T -> K): seq<T>
  {
    DedupFrom(xs, key, {})
  }

  /**
   * Reference definition, scanning from the other end: a row is kept exactly when
   * no EARLIER row has its key.
   */
  function FirstOccurrences<T(==), K(==)>(xs: seq<T>, key: T -> K): seq<T>
  {
    if |xs| == 0 then []
    else
      var init := xs[..|xs| - 1];
      var x := xs[|xs| - 1];
      FirstOccurrences(init, key) + (if key(x) in KeysOf(init, key) then [] else [x])
  }

  lemma {:induction false} DedupFromSnoc<T, K>(xs: seq<T>, x: T, key: T -> K, seen: set<K>)
    ensures DedupFrom(xs + [x], key, seen)
         == DedupFrom(xs, key, seen) + (if key(x) in seen + KeysOf(xs, key) then [] else [x])
    decreases |xs|
  {
    if |xs| == 0 {
      assert KeysOf(xs, key) == {};
      assert ([] + [x])[1..] == [];
    } else {
      var ys := xs + [x];
      assert ys[0] == xs[0] && ys[1..] == xs[1..] + [x];
      assert KeysOf(xs, key) == {key(xs[0])} + KeysOf(xs[1..], key) by {
        assert forall y :: y in xs <==> y == xs[0] || y in xs[1..];
      }
      if key(xs[0]) in seen {
        DedupFromSnoc(xs[1..], x, key, seen);
      } else {
        DedupFromSnoc(xs[1..], x, key, seen + {key(xs[0])});
      }
    }
  }

  /** Keep-first de-duplication agrees with the reference definition. */
  lemma {:induction false} DedupIsFirstOccurrences<T, K>(xs: seq<T>, key: T -> K)
    ensures DedupBy(xs, key) == FirstOccurrences(xs, key)
    decreases |xs|
  {
    if |xs| > 0 {
      var init := xs[..|xs| - 1];
      assert xs == init + [xs[|xs| - 1]];
      DedupFromSnoc(init, xs[|xs| - 1], key, {});
      DedupIsFirstOccurrences(init, key);
    }
  }

  /** The rows kept by the scan: a subsequence, keys fresh and distinct, every key represented. */
  lemma {:induction false} DedupFromFacts<T, K>(xs: seq<T>, key: T -> K, seen: set<K>)
    ensures IsSubseq(DedupFrom(xs, key, seen), xs)
    ensures UniqueKeys(DedupFrom(xs, key, seen), key)
    ensures KeysOf(DedupFrom(xs, key, seen), key) == KeysOf(xs, key) - seen
    decreases |xs|
  {
    var r := DedupFrom(xs, key, seen);
    if |xs| > 0 {
      assert KeysOf(xs, key) == {key(xs[0])} + KeysOf(xs[1..], key) by {
        assert forall y :: y in xs <==> y == xs[0] || y in xs[1..];
      }
      if key(xs[0]) in seen {
        DedupFromFacts(xs[1..], key, seen);
      } else {
        var seen' := seen + {key(xs[0])};
        var rest := DedupFrom(xs[1..], key, seen');
        DedupFromFacts(xs[1..], key, seen');
        assert r == [xs[0]] + rest && r[1..] == rest;
        assert KeysOf(r, key) == {key(xs[0])} + KeysOf(rest, key) by {
          assert forall y :: y in r <==> y == xs[0] || y in rest;
        }
        forall i, j | 0 <= i < j < |r|
          ensures key(r[i]) != key(r[j])
        {
          if i == 0 {
            assert r[j] in rest;
          } else {
            assert r[i] == rest[i - 1] && r[j] == rest[j - 1];
          }
        }
      }
    }
  }

  /** Keep-first de-duplication: one row per key, every key kept, only rows removed, idempotent. */
  lemma DedupFacts<T, K>(xs: seq<T>, key: T -> K)
    ensures IsSubseq(DedupBy(xs, key), xs)
    ensures UniqueKeys(DedupBy(xs, key), key)
    ensures KeysOf(DedupBy(xs, key), key) == KeysOf(xs, key)
  {
    DedupFromFacts(xs, key, {});
  }

  /** A kept row is the first row of the input with its key. */
  lemma {:induction false} FirstOccurrencesAreFirst<T, K>(xs: seq<T>, key: T -> K, k: nat)
    requires k < |FirstOccurrences(xs, key)|
    ensures exists i :: 0 <= i < |xs| && xs[i] == FirstOccurrences(xs, key)[k]
                    && forall j :: 0 <= j < i ==> key(xs[j]) != key(xs[i])
    decreases |xs|
  {
    var init := xs[..|xs| - 1];
    var x := xs[|xs| - 1];
    var fi := FirstOccurrences(init, key);
    if k < |fi| {
      assert FirstOccurrences(xs, key)[k] == fi[k];
      FirstOccurrencesAreFirst(init, key, k);
      var i :| 0 <= i < |init| && init[i] == fi[k] && forall j :: 0 <= j < i ==> key(init[j]) != key(init[i]);
      assert xs[i] == init[i];
    } else {
      assert key(x) !in KeysOf(init, key) && FirstOccurrences(xs, key)[k] == x;
      var i := |xs| - 1;
      forall j | 0 <= j < i
        ensures key(xs[j]) != key(xs[i])
      {
        assert xs[j] == init[j] && init[j] in init;
      }
    }
  }

  /** Every row kept by keep-first de-duplication is the first row of the input with its key. */
  lemma DedupKeepsFirst<T, K>(xs: seq<T>, key: T -> K, k: nat)
    requires k < |DedupBy(xs, key)|
    ensures exists i :: 0 <= i < |xs| && xs[i] == DedupBy(xs, key)[k]
                    && forall j :: 0 <= j < i ==> key(xs[j]) != key(xs[i])
  {
    DedupIsFirstOccurrences(xs, key);
    FirstOccurrencesAreFirst(xs, key, k);
  }

  /** De-duplicating a list whose keys are already distinct, none of them already seen, changes nothing. */
  lemma {:induction false} DedupUniqueIsIdentity<T, K>(xs: seq<T>, key: T -> K, seen: set<K>)
    requires UniqueKeys(xs, key)
    requires forall x :: x in xs ==> key(x) !in seen
    ensures DedupFrom(xs, key, seen) == xs
    decreases |xs|
  {
    if |xs| > 0 {
      var seen' := seen + {key(xs[0])};
      forall x | x in xs[1..]
        ensures key(x) !in seen'
      {
        var j :| 0 <= j < |xs[1..]| && xs[1..][j] == x;
        assert x == xs[j + 1];
      }
      assert UniqueKeys(xs[1..], key) by {
        forall i, j | 0 <= i < j < |xs[1..]|
          ensures key(xs[1..][i]) != key(xs[1..][j])
        {
          assert xs[1..][i] == xs[i + 1] && xs[1..][j] == xs[j + 1];
        }
      }
      DedupUniqueIsIdentity(xs[1..], key, seen');
    }
  }

  /** De-duplicating twice is de-duplicating once. */
  lemma DedupIdempotent<T, K>(xs: seq<T>, key: T -> K)
    ensures DedupBy(DedupBy(xs, key), key) == DedupBy(xs, key)
  {
    DedupFacts(xs, key);
    DedupUniqueIsIdentity(DedupBy(xs, key), key, {});
  }

  /** In a list with distinct keys every element occurs once. */
  lemma CountOneWhenUnique<T, K>(d: seq<T>, key: T -> K, a: nat)
    requires UniqueKeys(d, key) && a < |d|
    ensures multiset(d)[d[a]] == 1
  {
    var x := d[a];
    assert d == d[..a] + [x] + d[a + 1..];
    var before, after := d[..a], d[a + 1..];
    assert forall t :: 0 <= t < |before| ==> before[t] != x;
    assert forall t :: 0 <= t < |after| ==> after[t] != x;
    assert multiset(d) == multiset(d[..a]) + multiset{x} + multiset(d[a + 1..]);
  }

  /** A permutation of a list with distinct keys has distinct keys. */
  lemma PermutationKeepsUnique<T, K>(d: seq<T>, r: seq<T>, key: T -> K)
    requires UniqueKeys(d, key) && multiset(r) == multiset(d)
    ensures UniqueKeys(r, key)
  {
    forall i, j | 0 <= i < j < |r|
      ensures key(r[i]) != key(r[j])
    {
      if key(r[i]) == key(r[j]) {
        assert r[i] in multiset(d) && r[j] in multiset(d);
        var a :| 0 <= a < |d| && d[a] == r[i];
        var b :| 0 <= b < |d| && d[b] == r[j];
        if a == b {
          // The same element sits twice in `r`, so it sits twice in `d`.
          assert r == r[..i] + [r[i]] + r[i + 1..j] + [r[j]] + r[j + 1..];
          assert multiset(r)[r[i]] >= 2;
          CountOneWhenUnique(d, key, a);
        }
      }
    }
  }

  // ---------------------------------------------------------------- sorting

  /** Lexicographic `>=` on a (primary, tie-break) key. */
  predicate GeKey(a: (int, int), b: (int, int)) {
    a.0 > b.0 || (a.0 == b.0 && a.1 >= b.1)
  }

  /** Non-increasing by the key, lexicographically. */
  predicate SortedDesc<T>(xs: seq<T>, key: T -> (int, int)) {
    forall i, j :: 0 <= i < j < |xs| ==> GeKey(key(xs[i]), key(xs[j]))
  }

  /** An element of a sorted list whose key beats the last of a prefix sits in that prefix. */
  lemma LargerInPrefix<T>(sorted: seq<T>, r: seq<T>, key: T -> (int, int), x: T)
    requires x in sorted && SortedDesc(sorted, key) && r <= sorted
    requires |r| > 0 && !GeKey(key(r[|r| - 1]), key(x))
    ensures x in r
  {
    var q :| 0 <= q < |sorted| && sorted[q] == x;
    var last, here := key(sorted[|r| - 1]), key(sorted[q]);
    assert q < |r|;
    assert r[q] == x;
  }

  /** Inserts `x` before the first row whose key is not greater than its own. */
  function Insert<T>(x: T, s: seq<T>, key: T -> (int, int)): (r: seq<T>)
    ensures |r| == |s| + 1
  {
    if |s| == 0 then [x]
    else if GeKey(key(x), key(s[0])) then [x] + s
    else [s[0]] + Insert(x, s[1..], key)
  }

  /** Insertion into a sorted list adds exactly one row and keeps it sorted. */
  lemma {:induction false} InsertFacts<T>(x: T, s: seq<T>, key: T -> (int, int))
    requires SortedDesc(s, key)
    ensures multiset(Insert(x, s, key)) == multiset(s) + multiset{x}
    ensures SortedDesc(Insert(x, s, key), key)
  {
    if |s| > 0 && !GeKey(key(x), key(s[0])) {
      var t := Insert(x, s[1..], key);
      InsertFacts(x, s[1..], key);
      assert s == [s[0]] + s[1..];
      assert Insert(x, s, key) == [s[0]] + t;
      forall k | 0 <= k < |t|
        ensures GeKey(key(s[0]), key(t[k]))
      {
        assert t[k] in multiset(t);
        if t[k] != x {
          assert t[k] in multiset(s[1..]);
          var m :| 0 <= m < |s[1..]| && s[1..][m] == t[k];
          assert s[m + 1] == t[k];
        }
      }
    }
  }

  /** `sort_values(by=[k1, k2], ascending=[False, False])` as a stable insertion sort. */
  function SortDesc<T>(xs: seq<T>, key: T -> (int, int)): (r: seq<T>)
    ensures |r| == |xs|
    ensures multiset(r) == multiset(xs)
    ensures SortedDesc(r, key)
  {
    if |xs| == 0 then []
    else
      var rest := SortDesc(xs[1..], key);
      InsertFacts(xs[0], rest, key);
      assert xs == [xs[0]] + xs[1..];
      Insert(xs[0], rest, key)
  }

  // ---------------------------------------------------------------- slicing and ranks

  /** Python's `s[:n]`, including negative `n` (drop that many from the end). */
  function SliceTo<T>(s: seq<T>, n: int): (r: seq<T>)
    ensures r <= s
    ensures n >= 0 ==> |r| == if n <= |s| then n else |s|
    ensures n < 0 ==> |r| == if |s| + n >= 0 then |s| + n else 0
  {
    if n >= 0 then (if n <= |s| then s[..n] else s)
    else if |s| + n >= 0 then s[..|s| + n]
    else []
  }

  /** The rows an `enumerate` loop reads before `if i >= n: break`: none at all when `n <= 0`. */
  function Take<T>(s: seq<T>, n: int): (r: seq<T>)
    ensures r <= s
    ensures |r| == if n <= 0 then 0 else if n <= |s| then n else |s|
  {
    if n <= 0 then [] else if n <= |s| then s[..n] else s
  }

  /** A row together with its 1-based position in the final ordering. */
  datatype Ranked<T> = Ranked(rank: int, item: T)

  /** `df['rank'] = range(1, len(df) + 1)`. */
  function AssignRanks<T>(xs: seq<T>): (r: seq<Ranked<T>>)
    ensures |r| == |xs|
    ensures forall i :: 0 <= i < |r| ==> r[i] == Ranked(i + 1, xs[i])
  {
    seq(|xs|, i requires 0 <= i < |xs| => Ranked(i + 1, xs[i]))
  }

  /** The rows of a ranking, without their rank numbers. */
  function Items<T>(rs: seq<Ranked<T>>): (r: seq<T>)
    ensures |r| == |rs| && forall i :: 0 <= i < |rs| ==> r[i] == rs[i].item
  {
    seq(|rs|, i requires 0 <= i < |rs| => rs[i].item)
  }

  /** Sum of a column. */
  function Sum(xs: seq<int>): int
  {
    if |xs| == 0 then 0 else xs[0] + Sum(xs[1..])
  }
}
