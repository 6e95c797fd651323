/** Specifications of the operations the server applies to its ordered lists:
    `List<T>.Remove` (delete the first occurrence) and filtering by a set of
    excluded elements (`List<T>.RemoveAll` with a membership test). */
module Sequences {

  /** No element occurs twice. */
  predicate NoDup<T(==)>(s: seq<T>) {
    forall i, j :: 0 <= i < j < |s| ==> s[i] != s[j]
  }

  /** Without its last element, a list without duplicates still has none,
      and does not contain that element. */
  lemma NoDupSplitLast<T>(s: seq<T>)
    requires NoDup(s) && s != []
    ensures NoDup(s[..|s| - 1]) && s[|s| - 1] !in s[..|s| - 1]
  {
    var front := s[..|s| - 1];
    forall i, j | 0 <= i < j < |front| ensures front[i] != front[j] {
      assert front[i] == s[i] && front[j] == s[j];
    }
    forall k | 0 <= k < |front| ensures front[k] != s[|s| - 1] {
      assert front[k] == s[k];
    }
  }

  /** `r` is `s` with some elements dropped and the rest in their original order. */
  predicate IsSubsequence<T(==)>(r: seq<T>, s: seq<T>)
    decreases |s|
  {
    if r == [] then true
    else if s == [] then false
    else if r[0] == s[0] then IsSubsequence(r[1..], s[1..])
    else IsSubsequence(r, s[1..])
  }

  /** The set of elements of a sequence. */
  function Elements<T(!new)>(s: seq<T>): (e: set<T>)
    ensures forall x :: x in e <==> x in s
  {
    set x | x in s
  }

  // The next three facts are stated as lemmas so that they are proved apart
  // from the large contexts of the inductions that use them.

  lemma ConcatAssoc<T>(a: seq<T>, b: seq<T>, c: seq<T>)
    ensures a + b + c == a + (b + c)
  {
  }

  lemma ElementsAppend<T(!new)>(s: seq<T>, t: seq<T>)
    ensures Elements(s + t) == Elements(s) + Elements(t)
  {
  }

  lemma ElementsAppendOne<T(!new)>(s: seq<T>, x: T)
    ensures Elements(s + [x]) == Elements(s) + {x}
  {
  }

  /** `List<T>.Remove(x)`: deletes the first occurrence of `x`, if there is one. */
  function RemoveFirst<T(==, !new)>(s: seq<T>, x: T): (r: seq<T>)
    ensures x in s ==> |r| == |s| - 1
    ensures x !in s ==> r == s
    ensures forall y :: y in r ==> y in s
  {
    if s == [] then []
    else if s[0] == x then s[1..]
    else
      assert x in s ==> x in s[1..];
      [s[0]] + RemoveFirst(s[1..], x)
  }

  /** Removal keeps every other element. */
  lemma {:induction false} RemoveFirstKeepsOthers<T(!new)>(s: seq<T>, x: T, y: T)
    requires y != x
    ensures y in RemoveFirst(s, x) <==> y in s
  {
    if s != [] && s[0] != x {
      RemoveFirstKeepsOthers(s[1..], x, y);
    }
  }

  /** Removal takes away exactly one occurrence of a present element. */
  lemma {:induction false} RemoveFirstCount<T(!new)>(s: seq<T>, x: T)
    ensures multiset(RemoveFirst(s, x)) == if x in s then multiset(s) - multiset{x} else multiset(s)
  {
    if s != [] {
      assert s == [s[0]] + s[1..];
      if s[0] != x {
        RemoveFirstCount(s[1..], x);
      }
    }
  }

  /** Only the first occurrence goes; what stands before and after it keeps its order. */
  lemma {:induction false} RemoveFirstAt<T(!new)>(s: seq<T>, x: T, i: nat)
    requires i < |s| && s[i] == x && x !in s[..i]
    ensures RemoveFirst(s, x) == s[..i] + s[i + 1..]
  {
    if i > 0 {
      assert s[0] != x by { assert s[0] == s[..i][0]; }
      assert s[1..][i - 1] == x;
      assert s[1..][..i - 1] == s[..i][1..];
      RemoveFirstAt(s[1..], x, i - 1);
      assert s[1..][i..] == s[i + 1..];
    }
  }

  /** The elements of `s` that are not in `gone`, in their order in `s`. */
  function Without<T(==, !new)>(s: seq<T>, gone: set<T>): (r: seq<T>)
    ensures |r| <= |s|
    ensures forall y :: y in r <==> y in s && y !in gone
  {
    if s == [] then []
    else (if s[0] in gone then [] else [s[0]]) + Without(s[1..], gone)
  }

  /** A filtered list keeps the order of the original. */
  lemma {:induction false} WithoutIsSubsequence<T(!new)>(s: seq<T>, gone: set<T>)
    ensures IsSubsequence(Without(s, gone), s)
  {
    if s != [] {
      WithoutIsSubsequence(s[1..], gone);
      var rest := Without(s[1..], gone);
      if s[0] !in gone {
        assert ([s[0]] + rest)[1..] == rest;
      } else {
        assert Without(s, gone) == rest;
        SubsequenceOfTail(rest, s);
      }
    }
  }

  /** A filtered list keeps every occurrence of the elements it keeps and none
      of the others: together with the order, it is exactly `s` restricted to
      the complement of `gone`. */
  lemma {:induction false} WithoutCounts<T(!new)>(s: seq<T>, gone: set<T>)
    ensures forall y :: multiset(Without(s, gone))[y] == if y in gone then 0 else multiset(s)[y]
  {
    if s != [] {
      WithoutCounts(s[1..], gone);
      var head := if s[0] in gone then [] else [s[0]];
      assert s == [s[0]] + s[1..];
      assert multiset(s) == multiset{s[0]} + multiset(s[1..]);
      assert multiset(Without(s, gone)) == multiset(head) + multiset(Without(s[1..], gone));
    }
  }

  /** A subsequence of the tail is a subsequence of the whole. */
  lemma {:induction false} SubsequenceOfTail<T>(r: seq<T>, s: seq<T>)
    requires s != [] && IsSubsequence(r, s[1..])
    ensures IsSubsequence(r, s)
    decreases 2 * |s|
  {
    if r != [] && r[0] == s[0] {
      SubsequenceDropHead(r, s[1..]);
    }
  }

  /** Dropping the first element of a subsequence leaves a subsequence. */
  lemma {:induction false} SubsequenceDropHead<T>(r: seq<T>, s: seq<T>)
    requires r != [] && IsSubsequence(r, s)
    ensures IsSubsequence(r[1..], s)
    decreases 2 * |s| + 1
  {
    if r[0] == s[0] {
      if r[1..] != [] {
        SubsequenceOfTail(r[1..], s);
      }
    } else {
      SubsequenceDropHead(r, s[1..]);
      if r[1..] != [] {
        SubsequenceOfTail(r[1..], s);
      }
    }
  }

  /** Filtering keeps elements distinct. */
  lemma {:induction false} WithoutNoDup<T(!new)>(s: seq<T>, gone: set<T>)
    requires NoDup(s)
    ensures NoDup(Without(s, gone))
  {
    if s != [] {
      assert NoDup(s[1..]) by {
        forall i, j | 0 <= i < j < |s[1..]| ensures s[1..][i] != s[1..][j] {
          assert s[1..][i] == s[i + 1] && s[1..][j] == s[j + 1];
        }
      }
      WithoutNoDup(s[1..], gone);
      var rest := Without(s[1..], gone);
      if s[0] !in gone {
        assert s[0] !in s[1..] by {
          forall k | 0 <= k < |s[1..]| ensures s[1..][k] != s[0] {
            assert s[1..][k] == s[k + 1];
          }
        }
        assert s[0] !in rest;
        var r := [s[0]] + rest;
        forall i, j | 0 <= i < j < |r| ensures r[i] != r[j] {
          if i > 0 {
            assert r[i] == rest[i - 1] && r[j] == rest[j - 1];
          } else {
            assert r[j] == rest[j - 1];
          }
        }
      }
    }
  }

  /** Dropping the empty set changes nothing. */
  lemma {:induction false} WithoutNothing<T(!new)>(s: seq<T>)
    ensures Without(s, {}) == s
  {
    if s != [] {
      WithoutNothing(s[1..]);
      assert s == [s[0]] + s[1..];
    }
  }

  /** Filtering twice is filtering once by the union. */
  lemma {:induction false} WithoutWithout<T(!new)>(s: seq<T>, a: set<T>, b: set<T>)
    ensures Without(Without(s, a), b) == Without(s, a + b)
  {
    if s != [] {
      WithoutWithout(s[1..], a, b);
      var head := if s[0] in a then [] else [s[0]];
      var w := Without(s, a);
      assert w == head + Without(s[1..], a);
      if s[0] !in a {
        assert w[0] == s[0] && w[1..] == Without(s[1..], a);
      } else {
        assert w == Without(s[1..], a);
      }
    }
  }

  /** Filtering distributes over concatenation. */
  lemma {:induction false} WithoutAppend<T(!new)>(s: seq<T>, t: seq<T>, gone: set<T>)
    ensures Without(s + t, gone) == Without(s, gone) + Without(t, gone)
  {
    if s == [] {
      assert s + t == t;
    } else {
      assert (s + t)[0] == s[0] && (s + t)[1..] == s[1..] + t;
      WithoutAppend(s[1..], t, gone);
    }
  }

  /** On a list without duplicates, removing the first occurrence is filtering
      that one element out. */
  lemma {:induction false} RemoveFirstNoDup<T(!new)>(s: seq<T>, x: T)
    requires NoDup(s)
    ensures RemoveFirst(s, x) == Without(s, {x})
  {
    if s != [] {
      assert NoDup(s[1..]) by {
        forall i, j | 0 <= i < j < |s[1..]| ensures s[1..][i] != s[1..][j] {
          assert s[1..][i] == s[i + 1] && s[1..][j] == s[j + 1];
        }
      }
      if s[0] == x {
        assert x !in s[1..] by {
          forall k | 0 <= k < |s[1..]| ensures s[1..][k] != x {
            assert s[1..][k] == s[k + 1];
          }
        }
        WithoutAbsent(s[1..], {x});
      } else {
        RemoveFirstNoDup(s[1..], x);
      }
    }
  }

  /** Filtering out elements that do not occur changes nothing. */
  lemma {:induction false} WithoutAbsent<T(!new)>(s: seq<T>, gone: set<T>)
    requires forall y :: y in gone ==> y !in s
    ensures Without(s, gone) == s
  {
    if s != [] {
      WithoutAbsent(s[1..], gone);
      assert s == [s[0]] + s[1..];
    }
  }

  /** On a list without duplicates, a removed element is gone for good:
      removing it again finds nothing. */
  lemma RemoveFirstTwice<T(!new)>(s: seq<T>, x: T)
    requires NoDup(s)
    ensures x !in RemoveFirst(s, x)
    ensures RemoveFirst(RemoveFirst(s, x), x) == RemoveFirst(s, x)
  {
    RemoveFirstNoDup(s, x);
  }

  /** Filtering is idempotent. */
  lemma WithoutIdempotent<T(!new)>(s: seq<T>, gone: set<T>)
    ensures Without(Without(s, gone), gone) == Without(s, gone)
  {
    WithoutWithout(s, gone, gone);
    assert gone + gone == gone;
  }

  /** Filtering before an append as well as after it is filtering once at the end. */
  lemma FilterAfterAppend<T(!new)>(s: seq<T>, t: seq<T>, gone: set<T>)
    ensures Without(Without(s, gone) + t, gone) == Without(s + t, gone)
  {
    WithoutAppend(Without(s, gone), t, gone);
    WithoutIdempotent(s, gone);
    WithoutAppend(s, t, gone);
  }
}
