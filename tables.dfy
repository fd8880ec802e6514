/** Tables as sequences of rows, and the one operation the dashboard applies
    to them: keeping the rows a boolean mask selects (`df[mask]` in pandas). */
module Tables {

  datatype Option<+T> = None | Some(value: T)

  datatype Result<+T, +E> = Ok(value: T) | Err(error: E)

  /** `r` is `s` with some rows dropped: every row of `r` comes from `s`,
      in the same order, each row of `s` used at most once. */
  ghost predicate IsSubsequence<T>(r: seq<T>, s: seq<T>)
    decreases |s|
  {
    if r == [] then true
    else if s == [] then false
    else (r[0] == s[0] && IsSubsequence(r[1..], s[1..])) || IsSubsequence(r, s[1..])
  }

  /** The rows of `s` for which the mask `keep` holds, in their original order.
      Each kept row appears exactly as often as in `s`, every other row not at all. */
  function Filter<T(==,!new)>(s: seq<T>, keep: T -> bool): (r: seq<T>)
    ensures |r| <= |s|
    ensures IsSubsequence(r, s)
    ensures forall x :: multiset(r)[x] == if keep(x) then multiset(s)[x] else 0
    ensures forall x :: x in r <==> x in s && keep(x)
  {
    if s == [] then []
    else
      assert s == [s[0]] + s[1..];
      var rest := Filter(s[1..], keep);
      if keep(s[0]) then
        assert ([s[0]] + rest)[1..] == rest;
        [s[0]] + rest
      else rest
  }

  /** A subsequence never holds a row more often than the sequence it is drawn from. */
  lemma {:induction false} SubsequenceMultiset<T>(r: seq<T>, s: seq<T>)
    requires IsSubsequence(r, s)
    ensures multiset(r) <= multiset(s)
    decreases |s|
  {
    if r != [] {
      assert s == [s[0]] + s[1..];
      if r[0] == s[0] && IsSubsequence(r[1..], s[1..]) {
        SubsequenceMultiset(r[1..], s[1..]);
        assert r == [r[0]] + r[1..];
      } else {
        SubsequenceMultiset(r, s[1..]);
      }
    }
  }

  /** Filter is the only order-preserving selection that keeps every masked row
      as often as it occurs and no other row: an independent definition of the mask. */
  lemma {:induction false} FilterUnique<T(!new)>(s: seq<T>, keep: T -> bool, r: seq<T>)
    requires IsSubsequence(r, s)
    requires forall x :: multiset(r)[x] == if keep(x) then multiset(s)[x] else 0
    ensures r == Filter(s, keep)
    decreases |s|
  {
    if s == [] {
    } else {
      var a, t := s[0], s[1..];
      assert s == [a] + t;
      if keep(a) {
        assert multiset(r)[a] == multiset(s)[a] == multiset(t)[a] + 1;
        if r == [] || !(r[0] == a && IsSubsequence(r[1..], t)) {
          if r != [] {
            assert IsSubsequence(r, t);
            SubsequenceMultiset(r, t);
          }
          assert false;
        }
        assert r == [a] + r[1..];
        forall x ensures multiset(r[1..])[x] == if keep(x) then multiset(t)[x] else 0 {
          assert multiset(r)[x] == multiset([a])[x] + multiset(r[1..])[x];
        }
        FilterUnique(t, keep, r[1..]);
      } else {
        assert a !in r by {
          assert multiset(r)[a] == 0;
        }
        if r != [] {
          assert r[0] != a;
          assert IsSubsequence(r, t);
        }
        forall x ensures multiset(r)[x] == if keep(x) then multiset(t)[x] else 0 {
          if x != a {
            assert multiset(s)[x] == multiset(t)[x];
          }
        }
        FilterUnique(t, keep, r);
      }
    }
  }

  /** Filtering an already filtered table with the same mask changes nothing. */
  lemma {:induction false} FilterIdempotent<T(!new)>(s: seq<T>, keep: T -> bool)
    ensures Filter(Filter(s, keep), keep) == Filter(s, keep)
  {
    if s != [] {
      FilterIdempotent(s[1..], keep);
    }
  }

  /** The first selected row is the first row of `s` the mask accepts. */
  lemma {:induction false} FilterHead<T(!new)>(s: seq<T>, keep: T -> bool, i: nat)
    requires i < |s| && keep(s[i])
    requires forall j :: 0 <= j < i ==> !keep(s[j])
    ensures Filter(s, keep) != [] && Filter(s, keep)[0] == s[i]
  {
    if i > 0 {
      FilterHead(s[1..], keep, i - 1);
    }
  }
}
