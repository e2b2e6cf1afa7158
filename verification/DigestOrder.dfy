/** The byte-wise order on digests, and the sort, dedup and binary search that rely on it. */
module DigestOrder {
  import opened ByteStrings

  /** Lexicographic order on strings of one length. */
  predicate LexLess(a: Bytes, b: Bytes)
    requires |a| == |b|
    decreases |a|
  {
    |a| > 0 && (a[0] < b[0] || (a[0] == b[0] && LexLess(a[1..], b[1..])))
  }

  predicate Less(a: Digest, b: Digest) {
    LexLess(a.bytes, b.bytes)
  }

  predicate AtMost(a: Digest, b: Digest) {
    !Less(b, a)
  }

  lemma {:induction false} LexTrichotomy(a: Bytes, b: Bytes)
    requires |a| == |b|
    ensures LexLess(a, b) || LexLess(b, a) || a == b
    ensures !(LexLess(a, b) && LexLess(b, a))
    ensures a == b ==> !LexLess(a, b)
    decreases |a|
  {
    if |a| > 0 {
      LexTrichotomy(a[1..], b[1..]);
      assert a == [a[0]] + a[1..] && b == [b[0]] + b[1..];
    }
  }

  lemma {:induction false} LexTransitive(a: Bytes, b: Bytes, c: Bytes)
    requires |a| == |b| == |c| && LexLess(a, b) && LexLess(b, c)
    ensures LexLess(a, c)
    decreases |a|
  {
    if a[0] == b[0] == c[0] {
      LexTransitive(a[1..], b[1..], c[1..]);
    }
  }

  lemma Trichotomy(a: Digest, b: Digest)
    ensures Less(a, b) || Less(b, a) || a == b
    ensures !(Less(a, b) && Less(b, a))
    ensures !Less(a, a)
  {
    LexTrichotomy(a.bytes, b.bytes);
    LexTrichotomy(a.bytes, a.bytes);
  }

  /** The order of byte arrays: the first byte that differs decides. */
  lemma LessAtFirstDifference(a: Digest, b: Digest)
    ensures Less(a, b) <==>
      exists k: nat :: k < 32 && a.bytes[k] < b.bytes[k] && a.bytes[..k] == b.bytes[..k]
  {
    LexAtFirstDifference(a.bytes, b.bytes);
  }

  lemma {:induction false} LexAtFirstDifference(a: Bytes, b: Bytes)
    requires |a| == |b|
    ensures LexLess(a, b) <==> exists k: nat :: k < |a| && a[k] < b[k] && a[..k] == b[..k]
    decreases |a|
  {
    if |a| > 0 {
      var a', b' := a[1..], b[1..];
      LexAtFirstDifference(a', b');
      if a[0] < b[0] {
        assert a[..0] == b[..0];
      } else if LexLess(a, b) {
        var k: nat :| k < |a'| && a'[k] < b'[k] && a'[..k] == b'[..k];
        assert a[..k + 1] == [a[0]] + a'[..k] && b[..k + 1] == [b[0]] + b'[..k];
        assert a[k + 1] < b[k + 1];
      }
      forall k: nat | k < |a| && a[k] < b[k] && a[..k] == b[..k] ensures LexLess(a, b) {
        if k > 0 {
          assert a[0] == a[..k][0] && b[0] == b[..k][0];
          assert a'[..k - 1] == a[..k][1..] && b'[..k - 1] == b[..k][1..] && a'[k - 1] < b'[k - 1];
        }
      }
    }
  }

  lemma LessTransitive(a: Digest, b: Digest, c: Digest)
    requires Less(a, b) && Less(b, c)
    ensures Less(a, c)
  {
    LexTransitive(a.bytes, b.bytes, c.bytes);
  }

  lemma LessAtMost(a: Digest, b: Digest, c: Digest)
    ensures Less(a, b) && AtMost(b, c) ==> Less(a, c)
    ensures AtMost(a, b) && Less(b, c) ==> Less(a, c)
    ensures AtMost(a, b) && AtMost(b, c) ==> AtMost(a, c)
  {
    Trichotomy(a, b);
    Trichotomy(b, c);
    Trichotomy(a, c);
    if Less(a, b) && Less(b, c) {
      LessTransitive(a, b, c);
    }
  }

  lemma {:induction false} ExtremesOf(a: Bytes)
    ensures !LexLess(a, Repeat(0, |a|)) && !LexLess(Repeat(255, |a|), a)
    decreases |a|
  {
    if |a| > 0 {
      ExtremesOf(a[1..]);
      assert Repeat(0, |a|)[1..] == Repeat(0, |a| - 1) && Repeat(255, |a|)[1..] == Repeat(255, |a| - 1);
    }
  }

  /** The two sentinels bound every digest. */
  lemma SentinelsBound(a: Digest)
    ensures AtMost(ZERO_DIGEST, a) && AtMost(a, MAX_DIGEST)
  {
    ExtremesOf(a.bytes);
  }

  // ---------- Sorting ----------

  ghost predicate Sorted(s: seq<Digest>) {
    forall i: nat, j: nat :: i < j < |s| ==> AtMost(s[i], s[j])
  }

  ghost predicate StrictlySorted(s: seq<Digest>) {
    forall i: nat, j: nat :: i < j < |s| ==> Less(s[i], s[j])
  }

  function InsertSorted(s: seq<Digest>, x: Digest): (r: seq<Digest>)
    ensures |r| == |s| + 1
    decreases |s|
  {
    if |s| == 0 then [x]
    else if AtMost(x, s[0]) then [x] + s
    else [s[0]] + InsertSorted(s[1..], x)
  }

  /** `sort`: any sort gives this list, for equal elements are identical. */
  function Sort(s: seq<Digest>): (r: seq<Digest>)
    ensures |r| == |s|
    decreases |s|
  {
    if |s| == 0 then [] else InsertSorted(Sort(s[1..]), s[0])
  }

  /** `dedup`: drops every element equal to its successor. */
  function Dedup(s: seq<Digest>): (r: seq<Digest>)
    ensures |r| <= |s|
    decreases |s|
  {
    if |s| <= 1 then s
    else if s[0] == s[1] then Dedup(s[1..])
    else [s[0]] + Dedup(s[1..])
  }

  lemma {:induction false} InsertSortedPermutes(s: seq<Digest>, x: Digest)
    ensures multiset(InsertSorted(s, x)) == multiset(s) + multiset{x}
    decreases |s|
  {
    if |s| > 0 {
      assert s == [s[0]] + s[1..];
      InsertSortedPermutes(s[1..], x);
    }
  }

  lemma PrependKeepsSorted(x: Digest, s: seq<Digest>)
    requires Sorted(s) && forall y :: y in s ==> AtMost(x, y)
    ensures Sorted([x] + s)
  {
  }

  lemma {:induction false} InsertSortedSorts(s: seq<Digest>, x: Digest)
    requires Sorted(s)
    ensures Sorted(InsertSorted(s, x))
    decreases |s|
  {
    if |s| == 0 {
    } else if AtMost(x, s[0]) {
      forall y | y in s ensures AtMost(x, y) {
        LessAtMost(x, s[0], y);
      }
      PrependKeepsSorted(x, s);
    } else {
      InsertSortedSorts(s[1..], x);
      InsertSortedPermutes(s[1..], x);
      var rest := InsertSorted(s[1..], x);
      Trichotomy(x, s[0]);
      forall y | y in rest ensures AtMost(s[0], y) {
        assert y in multiset(rest);
      }
      PrependKeepsSorted(s[0], rest);
    }
  }

  lemma {:induction false} SortCorrect(s: seq<Digest>)
    ensures Sorted(Sort(s)) && multiset(Sort(s)) == multiset(s)
    decreases |s|
  {
    if |s| > 0 {
      hide Sorted, InsertSorted, AtMost;
      SortCorrect(s[1..]);
      InsertSortedSorts(Sort(s[1..]), s[0]);
      InsertSortedPermutes(Sort(s[1..]), s[0]);
      FirstApart(s);
    }
  }

  lemma FirstApart(s: seq<Digest>)
    requires |s| > 0
    ensures multiset(s) == multiset{s[0]} + multiset(s[1..])
  {
    assert s == [s[0]] + s[1..];
  }

  lemma {:induction false} DedupCorrect(s: seq<Digest>)
    requires Sorted(s)
    ensures StrictlySorted(Dedup(s))
    ensures forall x :: x in Dedup(s) <==> x in s
    ensures |s| > 0 ==> |Dedup(s)| > 0 && Dedup(s)[0] == s[0]
    decreases |s|
  {
    if |s| > 1 {
      assert s == [s[0]] + s[1..];
      DedupCorrect(s[1..]);
      var rest := Dedup(s[1..]);
      if s[0] != s[1] {
        Trichotomy(s[0], s[1]);
        assert AtMost(s[0], s[1]);
        forall j: nat | j < |rest| ensures Less(s[0], rest[j]) {
          if j > 0 {
            LessTransitive(s[0], rest[0], rest[j]);
          }
        }
      }
    }
  }

  // ---------- Searching ----------

  /** `partition_point(|h| h < x)`: how many elements of a sorted list lie below x. */
  method PartitionPoint(s: seq<Digest>, x: Digest) returns (pos: nat)
    requires Sorted(s)
    ensures pos <= |s|
    ensures forall i: nat :: i < pos ==> Less(s[i], x)
    ensures forall i: nat :: pos <= i < |s| ==> AtMost(x, s[i])
  {
    var hi: nat := |s|;
    pos := 0;
    while pos < hi
      invariant pos <= hi <= |s|
      invariant forall i: nat :: i < pos ==> Less(s[i], x)
      invariant forall i: nat :: hi <= i < |s| ==> AtMost(x, s[i])
    {
      var mid: nat := (pos + hi) / 2;
      if Less(s[mid], x) {
        forall i: nat | i <= mid ensures Less(s[i], x) {
          LessAtMost(s[i], s[mid], x);
        }
        pos := mid + 1;
      } else {
        forall i: nat | mid <= i < |s| ensures AtMost(x, s[i]) {
          LessAtMost(x, s[mid], s[i]);
        }
        hi := mid;
      }
    }
  }
}
