/**
 * `allReplies.sort((a, b) => new Date(a.timestamp) - new Date(b.timestamp))`.
 *
 * `Array.prototype.sort` is stable (ECMA-262, since the 2019 edition), so
 * with a consistent comparator its result is the one permutation of the
 * input that is ordered by timestamp and keeps replies with equal timestamps
 * in their fetched order.  StableSort is that permutation, defined by
 * insertion; SortedStableUnique shows that nothing else qualifies, so the
 * engine's own algorithm is immaterial.  SortByTimestamp sorts an array in
 * place and is proved to produce StableSort of its old contents.
 */
module TimeSort {
  import opened Records

  predicate SortedByTime(s: seq<Reply>) {
    forall i, j :: 0 <= i < j < |s| ==> s[i].timestamp <= s[j].timestamp
  }

  /** The replies of s with timestamp t, in their order in s. */
  function WithTimestamp(s: seq<Reply>, t: int): seq<Reply> {
    if s == [] then []
    else (if s[0].timestamp == t then [s[0]] else []) + WithTimestamp(s[1..], t)
  }

  lemma {:induction false} WithTimestampAppend(a: seq<Reply>, b: seq<Reply>, t: int)
    ensures WithTimestamp(a + b, t) == WithTimestamp(a, t) + WithTimestamp(b, t)
  {
    if a == [] {
      assert a + b == b;
    } else {
      assert (a + b)[0] == a[0];
      assert (a + b)[1..] == a[1..] + b;
      WithTimestampAppend(a[1..], b, t);
      var h := if a[0].timestamp == t then [a[0]] else [];
      assert WithTimestamp(a, t) == h + WithTimestamp(a[1..], t);
      assert WithTimestamp(a + b, t) == h + WithTimestamp((a + b)[1..], t);
      assert WithTimestamp(a + b, t) == h + (WithTimestamp(a[1..], t) + WithTimestamp(b, t));
      assert h + (WithTimestamp(a[1..], t) + WithTimestamp(b, t))
          == (h + WithTimestamp(a[1..], t)) + WithTimestamp(b, t);
    }
  }

  /** Insert x into s after every element whose timestamp is not later than
      x's, scanning from the end as insertion sort does. */
  function InsertByTime(s: seq<Reply>, x: Reply): seq<Reply> {
    if s == [] || s[|s| - 1].timestamp <= x.timestamp then s + [x]
    else InsertByTime(s[..|s| - 1], x) + [s[|s| - 1]]
  }

  /** The stable sort of s by timestamp. */
  function StableSort(s: seq<Reply>): seq<Reply> {
    if s == [] then [] else InsertByTime(StableSort(s[..|s| - 1]), s[|s| - 1])
  }

  lemma {:induction false} InsertByTimePermutes(s: seq<Reply>, x: Reply)
    ensures multiset(InsertByTime(s, x)) == multiset(s) + multiset{x}
  {
    if s != [] && s[|s| - 1].timestamp > x.timestamp {
      InsertByTimePermutes(s[..|s| - 1], x);
      assert s == s[..|s| - 1] + [s[|s| - 1]];
    }
  }

  lemma {:induction false} InsertByTimeSorted(s: seq<Reply>, x: Reply)
    requires SortedByTime(s)
    ensures SortedByTime(InsertByTime(s, x))
  {
    if s != [] && s[|s| - 1].timestamp > x.timestamp {
      var init, last := s[..|s| - 1], s[|s| - 1];
      InsertByTimeSorted(init, x);
      InsertByTimePermutes(init, x);
      InsertByTimeBounded(init, x, last.timestamp);
    }
  }

  /** Inserting x, at or below a bound t, into replies at or below t keeps
      every reply at or below t. */
  lemma InsertByTimeBounded(s: seq<Reply>, x: Reply, t: int)
    requires forall i :: 0 <= i < |s| ==> s[i].timestamp <= t
    requires x.timestamp <= t
    requires multiset(InsertByTime(s, x)) == multiset(s) + multiset{x}
    ensures forall i :: 0 <= i < |InsertByTime(s, x)| ==> InsertByTime(s, x)[i].timestamp <= t
  {
    var r := InsertByTime(s, x);
    forall i | 0 <= i < |r| ensures r[i].timestamp <= t {
      assert r[i] in multiset(r);
      if r[i] != x {
        assert r[i] in s;
      }
    }
  }

  lemma {:induction false} InsertByTimeStable(s: seq<Reply>, x: Reply, t: int)
    ensures WithTimestamp(InsertByTime(s, x), t)
         == WithTimestamp(s, t) + (if x.timestamp == t then [x] else [])
  {
    if s == [] || s[|s| - 1].timestamp <= x.timestamp {
      WithTimestampAppend(s, [x], t);
    } else {
      var init, last := s[..|s| - 1], s[|s| - 1];
      InsertByTimeStable(init, x, t);
      WithTimestampAppend(InsertByTime(init, x), [last], t);
      WithTimestampAppend(init, [last], t);
      assert s == init + [last];
    }
  }

  /** The sorted replies are ordered by timestamp... */
  lemma {:induction false} StableSortSorted(s: seq<Reply>)
    ensures SortedByTime(StableSort(s))
  {
    if s != [] {
      StableSortSorted(s[..|s| - 1]);
      InsertByTimeSorted(StableSort(s[..|s| - 1]), s[|s| - 1]);
    }
  }

  /** ... are a permutation of the fetched replies ... */
  lemma {:induction false} StableSortPermutes(s: seq<Reply>)
    ensures multiset(StableSort(s)) == multiset(s)
  {
    if s != [] {
      StableSortPermutes(s[..|s| - 1]);
      InsertByTimePermutes(StableSort(s[..|s| - 1]), s[|s| - 1]);
      assert s == s[..|s| - 1] + [s[|s| - 1]];
    }
  }

  /** ... and replies with equal timestamps keep their fetched order. */
  lemma {:induction false} StableSortStable(s: seq<Reply>, t: int)
    ensures WithTimestamp(StableSort(s), t) == WithTimestamp(s, t)
  {
    if s != [] {
      var init, last := s[..|s| - 1], s[|s| - 1];
      StableSortStable(init, t);
      InsertByTimeStable(StableSort(init), last, t);
      WithTimestampAppend(init, [last], t);
      assert s == init + [last];
    }
  }

  lemma WithTimestampNonEmpty(s: seq<Reply>, t: int)
    requires s != [] && s[0].timestamp == t
    ensures WithTimestamp(s, t) != [] && WithTimestamp(s, t)[0] == s[0]
  {
  }

  lemma {:induction false} WithTimestampMember(s: seq<Reply>, t: int) returns (i: nat)
    requires WithTimestamp(s, t) != []
    ensures i < |s| && s[i].timestamp == t
  {
    if s[0].timestamp == t {
      i := 0;
    } else {
      var k := WithTimestampMember(s[1..], t);
      i := k + 1;
    }
  }

  /** A reply with timestamp t shows up in WithTimestamp(s, t). */
  lemma {:induction false} WithTimestampHas(s: seq<Reply>, t: int, k: nat) returns (b: nat)
    requires k < |s| && s[k].timestamp == t
    ensures b < |WithTimestamp(s, t)| && WithTimestamp(s, t)[b] == s[k]
  {
    var h := if s[0].timestamp == t then [s[0]] else [];
    assert WithTimestamp(s, t) == h + WithTimestamp(s[1..], t);
    if k == 0 {
      b := 0;
    } else {
      assert s[1..][k - 1] == s[k];
      var b' := WithTimestampHas(s[1..], t, k - 1);
      b := |h| + b';
    }
  }

  /** Two replies with timestamp t keep their relative order in
      WithTimestamp(s, t). */
  lemma {:induction false} WithTimestampKeepsOrder(s: seq<Reply>, p: nat, q: nat) returns (a: nat, b: nat)
    requires p < q < |s| && s[p].timestamp == s[q].timestamp
    ensures var w := WithTimestamp(s, s[p].timestamp);
      a < b < |w| && w[a] == s[p] && w[b] == s[q]
  {
    var t := s[p].timestamp;
    var h := if s[0].timestamp == t then [s[0]] else [];
    assert WithTimestamp(s, t) == h + WithTimestamp(s[1..], t);
    assert s[1..][q - 1] == s[q];
    if p == 0 {
      var b' := WithTimestampHas(s[1..], t, q - 1);
      a, b := 0, 1 + b';
    } else {
      assert s[1..][p - 1] == s[p];
      var a', b' := WithTimestampKeepsOrder(s[1..], p - 1, q - 1);
      a, b := |h| + a', |h| + b';
    }
  }

  /** Every element of WithTimestamp(s, t) is an element of s. */
  lemma {:induction false} WithTimestampFrom(s: seq<Reply>, t: int, b: nat) returns (j: nat)
    requires b < |WithTimestamp(s, t)|
    ensures j < |s| && s[j] == WithTimestamp(s, t)[b]
  {
    var h := if s[0].timestamp == t then [s[0]] else [];
    assert WithTimestamp(s, t) == h + WithTimestamp(s[1..], t);
    if b < |h| {
      j := 0;
    } else {
      var j' := WithTimestampFrom(s[1..], t, b - |h|);
      j := j' + 1;
    }
  }

  /** Elements a < b of WithTimestamp(s, t) sit at positions i < j of s. */
  lemma {:induction false} WithTimestampPositions(s: seq<Reply>, t: int, a: nat, b: nat) returns (i: nat, j: nat)
    requires a < b < |WithTimestamp(s, t)|
    ensures i < j < |s| && s[i] == WithTimestamp(s, t)[a] && s[j] == WithTimestamp(s, t)[b]
  {
    var h := if s[0].timestamp == t then [s[0]] else [];
    assert WithTimestamp(s, t) == h + WithTimestamp(s[1..], t);
    if a < |h| {
      var j' := WithTimestampFrom(s[1..], t, b - 1);
      i, j := 0, j' + 1;
    } else {
      var i', j' := WithTimestampPositions(s[1..], t, a - |h|, b - |h|);
      i, j := i' + 1, j' + 1;
    }
  }

  /** Replies with equal timestamps keep their fetched order in the sort:
      the one at fetched position p < q comes first. */
  lemma TiedKeepOrder(s: seq<Reply>, p: nat, q: nat) returns (i: nat, j: nat)
    requires p < q < |s| && s[p].timestamp == s[q].timestamp
    ensures i < j < |StableSort(s)| && StableSort(s)[i] == s[p] && StableSort(s)[j] == s[q]
  {
    var a, b := WithTimestampKeepsOrder(s, p, q);
    StableSortStable(s, s[p].timestamp);
    i, j := WithTimestampPositions(StableSort(s), s[p].timestamp, a, b);
  }

  lemma AgreeOnEmpty(a: seq<Reply>, b: seq<Reply>)
    requires a == []
    requires forall t :: WithTimestamp(a, t) == WithTimestamp(b, t)
    ensures b == []
  {
    if b != [] {
      WithTimestampNonEmpty(b, b[0].timestamp);
    }
  }

  lemma AgreeOnHead(a: seq<Reply>, b: seq<Reply>)
    requires a != [] && b != [] && SortedByTime(a) && SortedByTime(b)
    requires forall t :: WithTimestamp(a, t) == WithTimestamp(b, t)
    ensures a[0] == b[0]
  {
    var ta, tb := a[0].timestamp, b[0].timestamp;
    WithTimestampNonEmpty(a, ta);
    WithTimestampNonEmpty(b, tb);
    assert WithTimestamp(b, ta) == WithTimestamp(a, ta);
    assert WithTimestamp(a, tb) == WithTimestamp(b, tb);
    var i := WithTimestampMember(b, ta);
    var j := WithTimestampMember(a, tb);
    assert tb <= b[i].timestamp && ta <= a[j].timestamp;
  }

  lemma AgreeOnTail(a: seq<Reply>, b: seq<Reply>, t: int)
    requires a != [] && b != [] && a[0] == b[0]
    requires WithTimestamp(a, t) == WithTimestamp(b, t)
    ensures WithTimestamp(a[1..], t) == WithTimestamp(b[1..], t)
  {
    var h := if a[0].timestamp == t then [a[0]] else [];
    assert WithTimestamp(a, t) == h + WithTimestamp(a[1..], t);
    assert WithTimestamp(b, t) == h + WithTimestamp(b[1..], t);
    assert WithTimestamp(a[1..], t) == WithTimestamp(a, t)[|h|..];
    assert WithTimestamp(b[1..], t) == WithTimestamp(b, t)[|h|..];
  }

  /** Two sequences that are ordered by timestamp and agree on the
      subsequence of every timestamp are equal. */
  lemma {:induction false} SortedStableUnique(a: seq<Reply>, b: seq<Reply>)
    requires SortedByTime(a) && SortedByTime(b)
    requires forall t :: WithTimestamp(a, t) == WithTimestamp(b, t)
    ensures a == b
    decreases |a|
  {
    if a == [] {
      AgreeOnEmpty(a, b);
    } else if b == [] {
      AgreeOnEmpty(b, a);
    } else {
      AgreeOnHead(a, b);
      forall t ensures WithTimestamp(a[1..], t) == WithTimestamp(b[1..], t) {
        AgreeOnTail(a, b, t);
      }
      SortedStableUnique(a[1..], b[1..]);
      assert a == [a[0]] + a[1..] && b == [b[0]] + b[1..];
    }
  }

  /** StableSort is the only ordering of the replies that `sort` may return. */
  lemma StableSortCharacterised(s: seq<Reply>, r: seq<Reply>)
    requires SortedByTime(r)
    requires forall t :: WithTimestamp(r, t) == WithTimestamp(s, t)
    ensures r == StableSort(s)
  {
    StableSortSorted(s);
    forall t ensures WithTimestamp(r, t) == WithTimestamp(StableSort(s), t) {
      StableSortStable(s, t);
    }
    SortedStableUnique(r, StableSort(s));
  }

  /** `allReplies.sort(...)`, in place, as insertion sort. */
  method SortByTimestamp(a: array<Reply>)
    modifies a
    ensures a[..] == StableSort(old(a[..]))
  {
    ghost var input := a[..];
    var i := 0;
    while i < a.Length
      invariant 0 <= i <= a.Length
      invariant a[..i] == StableSort(input[..i])
      invariant a[i..] == input[i..]
    {
      assert a[i] == input[i];
      InsertNext(a, i);
      assert input[..i + 1][..i] == input[..i];
      assert a[i + 1..] == input[i + 1..];
      i := i + 1;
    }
    assert input[..a.Length] == input;
  }

  /** One step of insertion sort: moves a[i] left past the elements of
      a[..i] that are later than it. */
  method InsertNext(a: array<Reply>, i: nat)
    requires i < a.Length
    modifies a
    ensures a[..i + 1] == InsertByTime(old(a[..i]), old(a[i]))
    ensures a[i + 1..] == old(a[i + 1..])
  {
    ghost var p, rest := a[..i], a[i + 1..];
    var key := a[i];
    var j := i;
    InsertStart(a[..], i);
    while j > 0 && a[j - 1].timestamp > key.timestamp
      invariant 0 <= j <= i
      invariant a[..] == p[..j] + [key] + p[j..] + rest
      invariant InsertByTime(p, key) == InsertByTime(p[..j], key) + p[j..]
    {
      ghost var before := a[..];
      var later := a[j - 1];
      a[j - 1] := a[j];
      ghost var mid := a[..];
      assert mid == before[j - 1 := before[j]];
      a[j] := later;
      assert a[..] == mid[j := later];
      InsertStep(p, key, rest, j, before, a[..]);
      j := j - 1;
    }
    InsertDone(p, key, rest, j, a[..]);
  }

  /** Before the first swap the key sits at i, after all of a[..i]. */
  lemma InsertStart(s: seq<Reply>, i: nat)
    requires i < |s|
    ensures var p := s[..i];
      && s == p[..i] + [s[i]] + p[i..] + s[i + 1..]
      && InsertByTime(p, s[i]) == InsertByTime(p[..i], s[i]) + p[i..]
  {
    var p := s[..i];
    assert p[..i] == p && p[i..] == [];
    assert s == p + [s[i]] + s[i + 1..];
  }

  /** Once the element before the key is not later than it, the key is in
      its place: the first i + 1 elements are the insertion, the rest is
      untouched. */
  lemma InsertDone(p: seq<Reply>, key: Reply, rest: seq<Reply>, j: nat, s: seq<Reply>)
    requires j <= |p| && s == p[..j] + [key] + p[j..] + rest
    requires j == 0 || s[j - 1].timestamp <= key.timestamp
    requires InsertByTime(p, key) == InsertByTime(p[..j], key) + p[j..]
    ensures s[..|p| + 1] == InsertByTime(p, key) && s[|p| + 1..] == rest
  {
    assert j > 0 ==> s[j - 1] == p[j - 1] && p[..j][j - 1] == p[j - 1];
    assert InsertByTime(p[..j], key) == p[..j] + [key];
    Layout(s, p[..j] + [key] + p[j..], rest);
  }

  /** Swapping the key with the later element before it moves the key one
      place left in the picture the loop keeps. */
  lemma InsertStep(p: seq<Reply>, key: Reply, rest: seq<Reply>, j: nat,
                   before: seq<Reply>, after: seq<Reply>)
    requires 0 < j <= |p|
    requires before == p[..j] + [key] + p[j..] + rest
    requires before[j - 1].timestamp > key.timestamp
    requires after == before[j - 1 := before[j]][j := before[j - 1]]
    requires InsertByTime(p, key) == InsertByTime(p[..j], key) + p[j..]
    ensures after == p[..j - 1] + [key] + p[j - 1..] + rest
    ensures InsertByTime(p, key) == InsertByTime(p[..j - 1], key) + p[j - 1..]
  {
    assert before[j - 1] == p[j - 1] && before[j] == key;
    ShiftStep(p, key, j);
    SwapStep(p, key, rest, j);
  }

  lemma ShiftStep(p: seq<Reply>, key: Reply, j: nat)
    requires 0 < j <= |p| && p[j - 1].timestamp > key.timestamp
    ensures InsertByTime(p[..j], key) + p[j..] == InsertByTime(p[..j - 1], key) + p[j - 1..]
  {
    assert p[..j][..j - 1] == p[..j - 1];
    assert p[j - 1..] == [p[j - 1]] + p[j..];
  }

  lemma SwapStep(p: seq<Reply>, key: Reply, rest: seq<Reply>, j: nat)
    requires 0 < j <= |p|
    ensures (p[..j] + [key] + p[j..] + rest)[j - 1 := key][j := p[j - 1]]
         == p[..j - 1] + [key] + p[j - 1..] + rest
  {
  }

  lemma Layout(s: seq<Reply>, front: seq<Reply>, back: seq<Reply>)
    requires s == front + back
    ensures s[..|front|] == front && s[|front|..] == back
  {
  }
}
