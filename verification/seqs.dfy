/**
 * Python's list slicing and joining on sequences: `s[start::step]`, `s[::-1]`, `''.join` of
 * pieces, and the cutting of a list into equal consecutive slices.
 */
module Seqs {
  import opened Geometry

  /** Two sequences with the same length and the same elements are equal. */
  lemma SameElements<T>(x: seq<T>, y: seq<T>)
    requires |x| == |y| && forall k :: 0 <= k < |y| ==> x[k] == y[k]
    ensures x == y
  {
  }

  /** Python's `s[start::step]`. */
  function Every<T>(s: seq<T>, start: nat, step: nat): seq<T>
    requires 1 <= step
    decreases |s| - start
  {
    if start >= |s| then [] else [s[start]] + Every(s, start + step, step)
  }

  lemma {:induction false} EveryAt<T>(s: seq<T>, start: nat, step: nat, k: nat)
    requires 1 <= step && start + k * step < |s|
    ensures k < |Every(s, start, step)| && Every(s, start, step)[k] == s[start + k * step]
    decreases k
  {
    if k > 0 {
      MulPred(k, step);
      EveryAt(s, start + step, step, k - 1);
    }
  }

  lemma {:induction false} EveryLength<T>(s: seq<T>, start: nat, step: nat, m: nat)
    requires 1 <= step && 1 <= m && start + (m - 1) * step < |s| <= start + m * step
    ensures |Every(s, start, step)| == m
    decreases m
  {
    if m > 1 {
      MulPred(m - 1, step);
      MulPred(m, step);
      EveryLength(s, start + step, step, m - 1);
    }
  }

  /** Python's `s[::-1]`. */
  function Rev<T>(s: seq<T>): (r: seq<T>)
    ensures |r| == |s| && forall i :: 0 <= i < |s| ==> r[i] == s[|s| - 1 - i]
  {
    seq(|s|, i requires 0 <= i < |s| => s[|s| - 1 - i])
  }

  /** Reversal turns a concatenation around. */
  lemma RevAppend<T>(a: seq<T>, b: seq<T>)
    ensures Rev(a + b) == Rev(b) + Rev(a)
  {
    SameElements(Rev(a + b), Rev(b) + Rev(a));
  }

  /** The pieces joined one after the other (`''.join`, or repeated `+=`). */
  function Concat<T>(segs: seq<seq<T>>): seq<T>
  {
    if segs == [] then [] else segs[0] + Concat(segs[1..])
  }

  lemma {:induction false} ConcatLength<T>(segs: seq<seq<T>>, n: nat)
    requires forall i :: 0 <= i < |segs| ==> |segs[i]| == n
    ensures |Concat(segs)| == |segs| * n
  {
    if segs != [] {
      ConcatLength(segs[1..], n);
    }
  }

  /** Joining one more piece at the end appends it. */
  lemma {:induction false} ConcatAppend<T>(segs: seq<seq<T>>, last: seq<T>)
    ensures Concat(segs + [last]) == Concat(segs) + last
  {
    if segs == [] {
      assert segs + [last] == [last];
    } else {
      assert (segs + [last])[1..] == segs[1..] + [last];
      ConcatAppend(segs[1..], last);
    }
  }

  /** Every piece reversed, in reverse order. */
  function RevAll<T>(segs: seq<seq<T>>): (r: seq<seq<T>>)
    ensures |r| == |segs| && forall i :: 0 <= i < |segs| ==> r[i] == Rev(segs[|segs| - 1 - i])
  {
    seq(|segs|, i requires 0 <= i < |segs| => Rev(segs[|segs| - 1 - i]))
  }

  /** Reversing a joined string is joining the reversed pieces in reverse order. */
  lemma {:induction false} RevConcat<T>(segs: seq<seq<T>>)
    ensures Rev(Concat(segs)) == Concat(RevAll(segs))
  {
    if segs != [] {
      var rest := segs[1..];
      RevConcat(rest);
      RevAppend(segs[0], Concat(rest));
      SameElements(RevAll(segs), RevAll(rest) + [Rev(segs[0])]);
      ConcatAppend(RevAll(rest), Rev(segs[0]));
    }
  }

  /** The consecutive slices of length `n` (a shorter rest is dropped). */
  function Chunks<T>(s: seq<T>, n: nat): seq<seq<T>>
    requires 1 <= n
    decreases |s|
  {
    if |s| < n then [] else [s[..n]] + Chunks(s[n..], n)
  }

  lemma MulPred(m: nat, n: nat)
    requires 1 <= m
    ensures (m - 1) * n + n == m * n
  {
  }

  /** Joining the slices of a sequence of `m` whole slices gives it back. */
  lemma {:induction false} ConcatChunks<T>(s: seq<T>, n: nat, m: nat)
    requires 1 <= n && |s| == m * n
    ensures |Chunks(s, n)| == m && Concat(Chunks(s, n)) == s
    decreases m
  {
    if m > 0 {
      MulPred(m, n);
      ConcatChunks(s[n..], n, m - 1);
      assert s[..n] + s[n..] == s;
    }
  }

  lemma SliceOfSuffix<T>(s: seq<T>, k: nat, a: nat, b: nat)
    requires k <= |s| && a <= b <= |s| - k
    ensures s[k..][a..b] == s[k + a..k + b]
  {
    SameElements(s[k..][a..b], s[k + a..k + b]);
  }

  lemma ChunkArith(n: nat, m: nat, i: nat)
    requires i < m
    ensures 0 <= i * n && i * n + n <= m * n && (m - 1) * n == m * n - n
    ensures i > 0 ==> (i - 1) * n + n == i * n
  {
    MulLe(i + 1, m, n);
    MulPred(i + 1, n);
    MulPred(m, n);
    if i > 0 {
      MulPred(i, n);
    }
  }

  /** Slice `i` is `s[i*n:(i+1)*n]`. */
  lemma {:induction false} ChunksAt<T>(s: seq<T>, n: nat, m: nat, i: nat)
    requires 1 <= n && |s| == m * n && i < m
    ensures i * n + n <= |s| && i < |Chunks(s, n)| && Chunks(s, n)[i] == s[i * n..i * n + n]
    decreases i
  {
    ChunkArith(n, m, i);
    if i > 0 {
      ChunksAt(s[n..], n, m - 1, i - 1);
      SliceOfSuffix(s, n, (i - 1) * n, (i - 1) * n + n);
    }
  }
}
