/**
  Sequence operations with the semantics of the JavaScript array methods the
  step component uses on its child lists and on the flow's step registry:
  `findIndex` by id, `splice(i, 1)`, `splice(start, 0, x)` and `push`.
 */
module Lists {

  /** No element occurs twice. */
  ghost predicate NoDup<T>(s: seq<T>) {
    forall i, j | 0 <= i < j < |s| :: s[i] != s[j]
  }

  /** `s.findIndex(e => e == x)`: the first position holding `x`, or -1. */
  function FindIndex<T(==)>(s: seq<T>, x: T): (i: int)
    ensures -1 <= i < |s|
    ensures i == -1 <==> x !in s
    ensures 0 <= i ==> s[i] == x && x !in s[..i]
  {
    if |s| == 0 then -1
    else if s[0] == x then 0
    else
      var j := FindIndex(s[1..], x);
      if j == -1 then -1
      else
        assert s[..j + 1] == [s[0]] + s[1..][..j];
        j + 1
  }

  /** `s.splice(i, 1)` with a valid index: drop the element at `i`. */
  function RemoveAt<T>(s: seq<T>, i: nat): (r: seq<T>)
    requires i < |s|
    ensures |r| == |s| - 1
    ensures forall j | 0 <= j < |r| :: r[j] == if j < i then s[j] else s[j + 1]
  {
    s[..i] + s[i + 1..]
  }

  /**
    The position at which `splice(start, 0, x)` inserts into an array of
    length `len`: a negative start counts back from the end and stops at 0,
    a start past the end means the end.
   */
  function SpliceStart(len: nat, start: int): (k: nat)
    ensures k <= len
    ensures 0 <= start <= len ==> k == start
  {
    if start < 0 then (if len + start < 0 then 0 else len + start)
    else if start > len then len
    else start
  }

  /** `s.splice(start, 0, x)`: insert `x` at the normalised start position. */
  function InsertAt<T>(s: seq<T>, start: int, x: T): (r: seq<T>)
    ensures |r| == |s| + 1
    ensures r[SpliceStart(|s|, start)] == x
    ensures forall j | 0 <= j < |s| :: r[if j < SpliceStart(|s|, start) then j else j + 1] == s[j]
  {
    var k := SpliceStart(|s|, start);
    s[..k] + [x] + s[k..]
  }

  /** Where `splice(start, 0, x)` puts `x`, and that everything else keeps its order around it. */
  lemma InsertAtParts<T>(s: seq<T>, start: int, x: T)
    ensures var k := SpliceStart(|s|, start); var r := InsertAt(s, start, x);
      r[k] == x && r[..k] == s[..k] && r[k + 1..] == s[k..]
  {
    var k := SpliceStart(|s|, start);
    var r := InsertAt(s, start, x);
    assert r == s[..k] + [x] + s[k..];
    assert r[k + 1..] == s[k..];
  }

  /** `splice(start, 0, x)` adds `x` and keeps every other element. */
  lemma InsertAtMembers<T(!new)>(s: seq<T>, start: int, x: T)
    ensures forall y :: y in InsertAt(s, start, x) <==> y == x || y in s
    ensures NoDup(s) && x !in s ==> NoDup(InsertAt(s, start, x))
  {
    var k := SpliceStart(|s|, start);
    assert InsertAt(s, start, x) == s[..k] + [x] + s[k..];
    assert s == s[..k] + s[k..];
    if NoDup(s) && x !in s {
      var r := InsertAt(s, start, x);
      forall i, j | 0 <= i < j < |r|
        ensures r[i] != r[j]
      {
        if i < k && j < k {
          assert r[i] == s[i] && r[j] == s[j];
        } else if i < k && j == k {
          assert r[i] == s[i];
        } else if i < k {
          assert r[i] == s[i] && r[j] == s[j - 1];
        } else if i == k {
          assert r[j] == s[j - 1];
        } else {
          assert r[i] == s[i - 1] && r[j] == s[j - 1];
        }
      }
    }
  }

  /** Putting `x` between the two parts of `s` split at `k` adds `x` and keeps every other element. */
  lemma SplitMembers<T(!new)>(s: seq<T>, k: nat, x: T)
    requires k <= |s|
    ensures forall y :: y in s[..k] + [x] + s[k..] <==> y == x || y in s
    ensures NoDup(s) && x !in s ==> NoDup(s[..k] + [x] + s[k..])
  {
    assert InsertAt(s, k, x) == s[..k] + [x] + s[k..];
    InsertAtMembers(s, k, x);
  }

  /** Removing what `splice(start, 0, x)` inserted gives the array back. */
  lemma RemoveInserted<T>(s: seq<T>, start: int, x: T)
    ensures RemoveAt(InsertAt(s, start, x), SpliceStart(|s|, start)) == s
  {
    var k := SpliceStart(|s|, start);
    InsertAtParts(s, start, x);
    assert s == s[..k] + s[k..];
  }

  /** Putting an element back where it was removed restores the sequence. */
  lemma ReinsertRemoved<T>(s: seq<T>, i: nat)
    requires i < |s|
    ensures InsertAt(RemoveAt(s, i), i, s[i]) == s
  {
    var r := RemoveAt(s, i);
    assert SpliceStart(|r|, i) == i;
    assert r[..i] == s[..i];
    assert r[i..] == s[i + 1..];
    assert s == s[..i] + [s[i]] + s[i + 1..];
  }

  /**
    Splicing `x` in right after a block `m` that was itself spliced in at
    `k` extends the block: successive splices at `k`, `k + 1`, ... keep
    their order.
   */
  lemma InsertAfterBlock<T>(s: seq<T>, k: nat, m: seq<T>, x: T)
    requires k <= |s|
    ensures InsertAt(s[..k] + m + s[k..], k + |m|, x) == s[..k] + (m + [x]) + s[k..]
  {
    var u := s[..k] + m + s[k..];
    assert SpliceStart(|u|, k + |m|) == k + |m|;
    assert u[..k + |m|] == s[..k] + m;
    assert u[k + |m|..] == s[k..];
  }

  /** Removing the entry at `i` and putting a block in its place. */
  lemma ReplaceAt<T>(s: seq<T>, i: nat, m: seq<T>)
    requires i < |s|
    ensures var r := RemoveAt(s, i); r[..i] + m + r[i..] == s[..i] + m + s[i + 1..]
  {
    var r := RemoveAt(s, i);
    assert r[..i] == s[..i];
    assert r[i..] == s[i + 1..];
  }

  /** A block put where the entry at `i` was removed stands in its place. */
  lemma ReplaceAtVia<T>(s: seq<T>, i: nat, m: seq<T>, l: seq<T>, r: seq<T>)
    requires i < |s| && l == RemoveAt(s, i) && r == l[..i] + m + l[i..]
    ensures r == s[..i] + m + s[i + 1..]
  {
    ReplaceAt(s, i, m);
  }

  /** Putting a block in place of the entry at `k` of a duplicate-free sequence: what it then holds. */
  lemma ReplaceMembers<T(!new)>(s: seq<T>, k: nat, m: seq<T>)
    requires k < |s| && NoDup(s)
    ensures forall y :: y in s[..k] + m + s[k + 1..] <==> y in m || (y in s && y != s[k])
    ensures NoDup(m) && (forall y | y in m :: y !in s) ==> NoDup(s[..k] + m + s[k + 1..])
  {
    var r := s[..k] + m + s[k + 1..];
    assert s == s[..k] + [s[k]] + s[k + 1..];
    forall y | y in s && y != s[k]
      ensures y in s[..k] || y in s[k + 1..]
    {
      var j :| 0 <= j < |s| && s[j] == y;
      if j < k {
        assert s[..k][j] == y;
      } else {
        assert j != k;
        assert s[k + 1..][j - k - 1] == y;
      }
    }
    forall y | y in s[..k] || y in s[k + 1..]
      ensures y != s[k]
    {
      if y in s[..k] {
        var j :| 0 <= j < k && s[..k][j] == y;
        assert s[j] == y;
      } else {
        var j :| 0 <= j < |s| - k - 1 && s[k + 1..][j] == y;
        assert s[k + 1 + j] == y;
      }
    }
    if NoDup(m) && (forall y | y in m :: y !in s) {
      forall i, j | 0 <= i < j < |r|
        ensures r[i] != r[j]
      {
        if j < k {
          assert r[i] == s[i] && r[j] == s[j];
        } else if j < k + |m| {
          if i >= k {
            assert r[i] == m[i - k] && r[j] == m[j - k];
          } else {
            assert r[i] == s[i] && r[j] == m[j - k];
            assert m[j - k] in m;
          }
        } else {
          assert r[j] == s[j - |m| + 1];
          if i < k {
            assert r[i] == s[i];
          } else if i < k + |m| {
            assert r[i] == m[i - k];
            assert m[i - k] in m;
          } else {
            assert r[i] == s[i - |m| + 1];
          }
        }
      }
    }
  }

  /** Two duplicate-free sequences with no element in common concatenate to a duplicate-free one. */
  lemma NoDupAppend<T>(s: seq<T>, t: seq<T>)
    requires NoDup(s) && NoDup(t) && forall x | x in s :: x !in t
    ensures NoDup(s + t)
  {
    var r := s + t;
    forall i, j | 0 <= i < j < |r|
      ensures r[i] != r[j]
    {
      if i < |s| && j >= |s| {
        assert r[i] == s[i] && r[j] == t[j - |s|];
        assert s[i] in s;
      }
    }
  }

  /** A duplicate-free sequence has as many elements as the set of its elements. */
  lemma {:induction false} NoDupCard<T>(s: seq<T>, S: set<T>)
    requires NoDup(s) && forall x :: x in s <==> x in S
    ensures |s| == |S|
  {
    if s != [] {
      var t := s[1..];
      forall x
        ensures x in t <==> x in S - {s[0]}
      {
        if x in t {
          var k :| 0 <= k < |t| && t[k] == x;
          assert s[k + 1] == x;
        }
        if x in s && x != s[0] {
          var k :| 0 <= k < |s| && s[k] == x;
          assert t[k - 1] == x;
        }
      }
      NoDupCard(t, S - {s[0]});
    } else {
      assert forall x :: x !in S;
    }
  }

  /** Appending the elements of a slice one at a time. */
  lemma AppendSliceStep<T>(acc: seq<T>, s: seq<T>, i: nat, j: nat)
    requires i < j <= |s|
    ensures (acc + [s[i]]) + s[i + 1..j] == acc + s[i..j]
  {
    assert s[i..j] == [s[i]] + s[i + 1..j];
  }

  /** Growing a prefix by one element. */
  lemma PrefixStep<T>(s: seq<T>, i: nat)
    requires i < |s|
    ensures s[..i] + [s[i]] == s[..i + 1]
  {
  }

  /** An empty block spliced in at `k` leaves the sequence as it was. */
  lemma EmptyBlock<T>(s: seq<T>, k: nat, m: seq<T>)
    requires k <= |s| && m == []
    ensures s[..k] + m + s[k..] == s
  {
  }

  /** Taking out the entry at `i` is putting an empty block in its place. */
  lemma RemoveAtEmptyBlock<T>(s: seq<T>, i: nat, m: seq<T>)
    requires i < |s| && m == []
    ensures RemoveAt(s, i) == s[..i] + m + s[i + 1..]
  {
  }

  /** Splitting a slice off the front. */
  lemma SliceStep<T>(s: seq<T>, i: nat, j: nat)
    requires i < j <= |s|
    ensures s[i..j] == [s[i]] + s[i + 1..j]
  {
  }

  /** Remove the first occurrence of `x`, if any (`findIndex` then `splice(i, 1)`). */
  function RemoveFirst<T(==)>(s: seq<T>, x: T): (r: seq<T>)
    ensures x !in s ==> r == s
    ensures x in s ==> |r| == |s| - 1
  {
    var i := FindIndex(s, x);
    if i == -1 then s else RemoveAt(s, i)
  }

  /** `RemoveFirst` only drops an element. */
  lemma RemoveFirstSubset<T(!new)>(s: seq<T>, x: T)
    ensures forall y :: y in RemoveFirst(s, x) ==> y in s
  {
    var i := FindIndex(s, x);
    if i != -1 {
      assert s == s[..i] + [s[i]] + s[i + 1..];
    }
  }

  /** `RemoveFirst` takes out the entry at `FindIndex`, which reinsertion puts back. */
  lemma RemoveFirstUndone<T>(s: seq<T>, x: T)
    ensures 0 <= FindIndex(s, x) ==> InsertAt(RemoveFirst(s, x), FindIndex(s, x), x) == s
  {
    var i := FindIndex(s, x);
    if 0 <= i {
      ReinsertRemoved(s, i);
    }
  }

  /** The elements of `s` that are not in `S`, in their original order. */
  function Without<T(!new)>(s: seq<T>, S: set<T>): (r: seq<T>)
    ensures forall x :: x in r <==> x in s && x !in S
    ensures |r| <= |s|
    ensures NoDup(s) ==> NoDup(r)
  {
    if |s| == 0 then []
    else
      var rest := Without(s[1..], S);
      if s[0] in S then rest
      else
        assert NoDup(s) ==> s[0] !in s[1..];
        [s[0]] + rest
  }

  lemma {:induction false} WithoutNothing<T(!new)>(s: seq<T>, S: set<T>)
    requires forall i | 0 <= i < |s| :: s[i] !in S
    ensures Without(s, S) == s
  {
    if |s| > 0 {
      WithoutNothing(s[1..], S);
    }
  }

  lemma {:induction false} WithoutAppend<T(!new)>(s: seq<T>, t: seq<T>, S: set<T>)
    ensures Without(s + t, S) == Without(s, S) + Without(t, S)
  {
    if |s| == 0 {
      assert s + t == t;
    } else {
      assert (s + t)[1..] == s[1..] + t;
      WithoutAppend(s[1..], t, S);
    }
  }

  /** On a duplicate-free sequence, dropping the first `x` drops every `x`. */
  lemma {:induction false} RemoveAtIsWithout<T(!new)>(s: seq<T>, i: nat)
    requires NoDup(s) && i < |s|
    ensures RemoveAt(s, i) == Without(s, {s[i]})
  {
    if i == 0 {
      assert forall k | 0 <= k < |s[1..]| :: s[1..][k] != s[0];
      WithoutNothing(s[1..], {s[0]});
      assert RemoveAt(s, 0) == s[1..];
    } else {
      assert NoDup(s[1..]);
      RemoveAtIsWithout(s[1..], i - 1);
      assert s[0] != s[i];
      assert RemoveAt(s, i) == [s[0]] + RemoveAt(s[1..], i - 1);
    }
  }

  lemma RemoveFirstIsWithout<T(!new)>(s: seq<T>, x: T)
    requires NoDup(s)
    ensures RemoveFirst(s, x) == Without(s, {x})
  {
    var i := FindIndex(s, x);
    if i == -1 {
      WithoutNothing(s, {x});
    } else {
      RemoveAtIsWithout(s, i);
    }
  }

  /** Filtering by `A` and then by `B` is filtering by their union `C`. */
  lemma WithoutUnion<T(!new)>(s: seq<T>, A: set<T>, B: set<T>, C: set<T>)
    requires C == A + B
    ensures Without(Without(s, A), B) == Without(s, C)
  {
    WithoutTwice(s, A, B);
  }

  /** Filtering by `A` and then by `B` is filtering by both at once. */
  lemma {:induction false} WithoutTwice<T(!new)>(s: seq<T>, A: set<T>, B: set<T>)
    ensures Without(Without(s, A), B) == Without(s, A + B)
  {
    if |s| > 0 {
      WithoutTwice(s[1..], A, B);
    }
  }
}
