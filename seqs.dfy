/** Sequence helpers shared by the model: first-occurrence deduplication
    (Python's `list(dict.fromkeys(xs))` and the `seen`-set loops),
    subsequences, and Python's prefix slice `xs[:n]`. */
module Seqs {

  predicate NoDup<T(==)>(s: seq<T>) {
    forall i, j :: 0 <= i < j < |s| ==> s[i] != s[j]
  }

  /** Index of the first occurrence of `x` in `s`. */
  function FirstIndex<T(==)>(s: seq<T>, x: T): (r: nat)
    requires x in s
    ensures r < |s| && s[r] == x && x !in s[..r]
  {
    if s[0] == x then 0 else
      assert s[1..][..FirstIndex(s[1..], x)] == s[1..1 + FirstIndex(s[1..], x)];
      1 + FirstIndex(s[1..], x)
  }

  /** The first occurrence of `x` in a prefix that holds it is its first
      occurrence in the whole sequence. */
  lemma FirstIndexInPrefix<T>(s: seq<T>, k: nat, x: T)
    requires k <= |s| && x in s[..k]
    ensures FirstIndex(s, x) == FirstIndex(s[..k], x)
  {
    var a, b := FirstIndex(s, x), FirstIndex(s[..k], x);
    assert s[..k][..b] == s[..b];
    assert s[b] == x;
  }

  /** Keeps the first occurrence of every element, in order. Processing the
      input from left to right, an element is appended unless already kept. */
  function Dedup<T(==)>(s: seq<T>): (r: seq<T>)
    ensures NoDup(r)
    ensures forall i :: 0 <= i < |r| ==> r[i] in s
    ensures forall i :: 0 <= i < |s| ==> s[i] in r
    ensures |r| <= |s|
    decreases |s|
  {
    if s == [] then [] else
      var d := Dedup(s[..|s| - 1]);
      assert s == s[..|s| - 1] + [s[|s| - 1]];
      if s[|s| - 1] in d then d else d + [s[|s| - 1]]
  }

  /** A non-empty sequence is its init followed by its last element. */
  lemma InitLast<T>(s: seq<T>)
    requires s != []
    ensures s == s[..|s| - 1] + [s[|s| - 1]]
    ensures forall x :: x in s <==> x in s[..|s| - 1] || x == s[|s| - 1]
  {
    assert s == s[..|s| - 1] + [s[|s| - 1]];
  }

  lemma DedupMember<T>(s: seq<T>, x: T)
    ensures x in Dedup(s) <==> x in s
  {
    if x in s {
      var i :| 0 <= i < |s| && s[i] == x;
    }
  }

  /** One step of the left-to-right loop: appending an element extends the
      deduplicated list by it exactly when it is new. */
  lemma DedupSnoc<T>(s: seq<T>, x: T)
    ensures Dedup(s + [x]) == if x in s then Dedup(s) else Dedup(s) + [x]
  {
    assert (s + [x])[..|s + [x]| - 1] == s;
  }

  /** The loop step `if x not in seen: out.append(x)` at position `i`, with
      `seen` holding what was kept so far. */
  lemma DedupStep<T>(s: seq<T>, i: int)
    requires 0 <= i < |s|
    ensures Dedup(s[..i + 1]) == if s[i] in Dedup(s[..i]) then Dedup(s[..i]) else Dedup(s[..i]) + [s[i]]
  {
    assert s[..i + 1] == s[..i] + [s[i]];
    DedupSnoc(s[..i], s[i]);
    DedupMember(s[..i], s[i]);
  }

  /** Deduplication keeps first-occurrence order: kept elements appear in the
      order of their first occurrences in the input. */
  lemma {:induction false} DedupFirstOccurrenceOrder<T>(s: seq<T>)
    ensures forall k, l :: 0 <= k < l < |Dedup(s)| ==>
              FirstIndex(s, Dedup(s)[k]) < FirstIndex(s, Dedup(s)[l])
  {
    if s != [] {
      var p, x := s[..|s| - 1], s[|s| - 1];
      InitLast(s);
      DedupFirstOccurrenceOrder(p);
      DedupSnoc(p, x);
      var d := Dedup(p);
      forall k, l | 0 <= k < l < |Dedup(s)|
        ensures FirstIndex(s, Dedup(s)[k]) < FirstIndex(s, Dedup(s)[l])
      {
        assert Dedup(s)[k] == d[k] && d[k] in p;
        FirstIndexInPrefix(s, |p|, d[k]);
        if l < |d| {
          assert Dedup(s)[l] == d[l] && d[l] in p;
          FirstIndexInPrefix(s, |p|, d[l]);
        } else {
          FirstIndexOfNew(p, x);
        }
      }
    }
  }

  /** An element not in `p` occurs first at the end of `p + [x]`. */
  lemma FirstIndexOfNew<T>(p: seq<T>, x: T)
    requires x !in p
    ensures FirstIndex(p + [x], x) == |p|
  {
    assert (p + [x])[|p|] == x;
    assert (p + [x])[..|p|] == p;
  }

  /** A sequence without duplicates is its own deduplication. */
  lemma {:induction false} DedupOfNoDup<T>(s: seq<T>)
    requires NoDup(s)
    ensures Dedup(s) == s
  {
    if s != [] {
      var p, x := s[..|s| - 1], s[|s| - 1];
      assert s == p + [x];
      assert NoDup(p);
      DedupOfNoDup(p);
      DedupSnoc(p, x);
    }
  }

  /** Filtering for uniqueness twice gives the same result as once. */
  lemma DedupIdempotent<T>(s: seq<T>)
    ensures Dedup(Dedup(s)) == Dedup(s)
  {
    DedupOfNoDup(Dedup(s));
  }

  /** The deduplication of a prefix is a prefix of the deduplication. */
  lemma {:induction false} DedupPrefix<T>(a: seq<T>, b: seq<T>)
    ensures Dedup(a) <= Dedup(a + b)
  {
    if b == [] {
      assert a + b == a;
    } else {
      var b', y := b[..|b| - 1], b[|b| - 1];
      assert a + b == (a + b') + [y];
      DedupPrefix(a, b');
      DedupSnoc(a + b', y);
    }
  }

  /** No element repeats exactly when none occurs twice in the multiset. */
  lemma {:induction false} NoDupMultiset<T>(s: seq<T>)
    ensures NoDup(s) <==> forall x :: multiset(s)[x] <= 1
  {
    if s != [] {
      var p, l := s[..|s| - 1], s[|s| - 1];
      InitLast(s);
      NoDupMultiset(p);
      assert multiset(s) == multiset(p) + multiset{l};
      if NoDup(s) {
        assert NoDup(p) by {
          forall i, j | 0 <= i < j < |p| ensures p[i] != p[j] {
            assert p[i] == s[i] && p[j] == s[j];
          }
        }
        assert forall i :: 0 <= i < |p| ==> p[i] == s[i];
      }
      if forall x :: multiset(s)[x] <= 1 {
        assert forall x :: multiset(p)[x] <= 1 by {
          forall x ensures multiset(p)[x] <= 1 {
            assert multiset(s)[x] <= 1;
          }
        }
        assert multiset(p)[l] == 0 by {
          assert multiset(s)[l] <= 1;
        }
        forall i, j | 0 <= i < j < |s| ensures s[i] != s[j] {
          if j < |p| {
            assert s[i] == p[i] && s[j] == p[j];
          } else {
            assert s[i] == p[i] && p[i] in multiset(p);
          }
        }
      }
    }
  }

  /** Reordering keeps a sequence free of repeats. */
  lemma NoDupPermutation<T>(a: seq<T>, b: seq<T>)
    requires multiset(a) == multiset(b) && NoDup(a)
    ensures NoDup(b)
  {
    NoDupMultiset(a);
    NoDupMultiset(b);
  }

  /** A prefix of a sequence without repeats has none. */
  lemma NoDupPrefix<T>(a: seq<T>, b: seq<T>)
    requires a <= b && NoDup(b)
    ensures NoDup(a)
  {
    forall i, j | 0 <= i < j < |a| ensures a[i] != a[j] {
      assert a[i] == b[i] && a[j] == b[j];
    }
  }

  /** `idx` picks the elements of `a` out of `b` at strictly increasing positions. */
  predicate SubseqBy<T(==)>(a: seq<T>, b: seq<T>, idx: seq<int>) {
    |idx| == |a| &&
    (forall k :: 0 <= k < |idx| ==> 0 <= idx[k] < |b| && a[k] == b[idx[k]]) &&
    (forall k, l :: 0 <= k < l < |idx| ==> idx[k] < idx[l])
  }

  ghost predicate IsSubseq<T>(a: seq<T>, b: seq<T>) {
    exists idx :: SubseqBy(a, b, idx)
  }

  /** Deduplication is an order-preserving subsequence of its input, picked at
      the first occurrences. */
  lemma DedupIsSubseq<T>(s: seq<T>)
    ensures IsSubseq(Dedup(s), s)
  {
    var r := Dedup(s);
    DedupFirstOccurrenceOrder(s);
    var idx := seq(|r|, k requires 0 <= k < |r| => FirstIndex(s, r[k]) as int);
    assert SubseqBy(r, s, idx);
  }

  lemma SubseqRefl<T>(s: seq<T>)
    ensures IsSubseq(s, s)
  {
    var idx := seq(|s|, k requires 0 <= k < |s| => k);
    assert SubseqBy(s, s, idx);
  }

  lemma SubseqPrefix<T>(a: seq<T>, b: seq<T>, k: nat)
    requires IsSubseq(a, b) && k <= |a|
    ensures IsSubseq(a[..k], b)
  {
    var idx :| SubseqBy(a, b, idx);
    assert SubseqBy(a[..k], b, idx[..k]);
  }

  lemma SubseqOfPrefix<T>(a: seq<T>, b: seq<T>, k: nat)
    requires k <= |b| && IsSubseq(a, b[..k])
    ensures IsSubseq(a, b)
  {
    var idx :| SubseqBy(a, b[..k], idx);
    assert SubseqBy(a, b, idx);
  }

  /** A slice of the second half of a concatenation. */
  lemma SliceOfAppend<T>(a: seq<T>, b: seq<T>, i: int, j: int)
    requires 0 <= i <= j <= |b|
    ensures (a + b)[|a| + i..|a| + j] == b[i..j]
  {
  }

  lemma PrefixOfAppend<T>(a: seq<T>, b: seq<T>)
    ensures (a + b)[0..|a|] == a
  {
  }

  lemma SetUnionSize<T>(a: set<T>, b: set<T>)
    ensures |a + b| <= |a| + |b|
  {
    assert |a + b| + |a * b| == |a| + |b|;
  }

  /** A set display of four elements has at most four members. */
  lemma FourSize<T>(a: T, b: T, c: T, d: T)
    ensures |{a, b, c, d}| <= 4
  {
    SetUnionSize({a}, {b});
    SetUnionSize({a, b}, {c});
    SetUnionSize({a, b, c}, {d});
  }

  function Min(a: int, b: int): int { if a <= b then a else b }
  function Max(a: int, b: int): int { if a >= b then a else b }

  /** Python's `s[:n]`: a negative `n` counts from the end. */
  function PyPrefix<T>(s: seq<T>, n: int): (r: seq<T>)
    ensures r <= s
    ensures n >= 0 ==> |r| == Min(n, |s|)
    ensures n < 0 ==> |r| == Max(0, |s| + n)
  {
    if n >= 0 then s[..Min(n, |s|)] else s[..Max(0, |s| + n)]
  }
}
