/** Subsequences by index: which deliveries of a list were kept, each at most once and in order. */
module Subsequences {

  /** `f` picks the elements of `a` out of `b`, from left to right, using no position twice. */
  ghost predicate Embeds<T>(f: seq<nat>, a: seq<T>, b: seq<T>) {
    && |f| == |a|
    && (forall i | 0 <= i < |f| :: f[i] < |b| && b[f[i]] == a[i])
    && (forall i, j | 0 <= i < j < |f| :: f[i] < f[j])
  }

  ghost predicate Subseq<T>(a: seq<T>, b: seq<T>) {
    exists f: seq<nat> :: Embeds(f, a, b)
  }

  lemma SubseqSelf<T>(a: seq<T>)
    ensures Subseq(a, a)
  {
    assert Embeds(seq(|a|, i => i), a, a);
  }

  lemma SubseqSnoc<T>(a: seq<T>, b: seq<T>, x: T)
    requires Subseq(a, b)
    ensures Subseq(a + [x], b + [x])
    ensures Subseq(a, b + [x])
  {
    var f: seq<nat> :| Embeds(f, a, b);
    assert Embeds(f, a, b + [x]);
    assert Embeds(f + [|b|], a + [x], b + [x]);
  }

  lemma SubseqTrans<T>(a: seq<T>, b: seq<T>, c: seq<T>)
    requires Subseq(a, b) && Subseq(b, c)
    ensures Subseq(a, c)
  {
    var f: seq<nat> :| Embeds(f, a, b);
    var g: seq<nat> :| Embeds(g, b, c);
    assert Embeds(seq(|f|, i requires 0 <= i < |f| => g[f[i]]), a, c);
  }

  /** Dropping elements from the tail part keeps a subsequence. */
  lemma SubseqTail<T>(head: seq<T>, a: seq<T>, b: seq<T>)
    requires Subseq(a, b)
    ensures Subseq(head + a, head + b)
  {
    var f: seq<nat> :| Embeds(f, a, b);
    var shifted := seq(|f|, i requires 0 <= i < |f| => |head| + f[i]);
    assert Embeds(seq(|head|, i => i) + shifted, head + a, head + b);
  }

  lemma SubseqSlice<T>(a: seq<T>, i: nat, j: nat)
    requires i <= j <= |a|
    ensures Subseq(a[i..j], a)
  {
    assert Embeds(seq(j - i, k => i + k), a[i..j], a);
  }

  /** Three ways of writing a part that reaches to the end or starts at the beginning. */
  lemma WholeSlices<T>(s: seq<T>, i: nat)
    requires i <= |s|
    ensures s[i..|s|] == s[i..] && s[..|s|] == s && s[0..i] == s[..i]
  {
  }

  lemma SplitLast<T>(s: seq<T>)
    requires s != []
    ensures s == s[..|s| - 1] + [s[|s| - 1]]
    ensures |s| > 1 ==> s[..|s| - 1][0] == s[0]
  {
  }

  /** A list that only ever grows at its end keeps what it had. */
  lemma {:induction false} ChainGrows<T>(lists: seq<seq<T>>, k: nat, n: nat)
    requires k <= n < |lists|
    requires forall i | 0 <= i < |lists| - 1 :: lists[i] <= lists[i + 1]
    ensures lists[k] <= lists[n]
    decreases n - k
  {
    if k < n {
      ChainGrows(lists, k, n - 1);
      assert lists[n - 1] <= lists[n - 1 + 1];
    }
  }

  ghost predicate EndsWith<T>(a: seq<T>, tail: seq<T>) {
    |tail| <= |a| && a[|a| - |tail|..] == tail
  }

  lemma EndsWithSnoc<T>(a: seq<T>, tail: seq<T>, x: T)
    requires EndsWith(a, tail)
    ensures EndsWith(a + [x], tail + [x])
  {
  }

  /** The end of a subsequence is one, too. */
  lemma SubseqEnd<T>(a: seq<T>, tail: seq<T>, b: seq<T>)
    requires EndsWith(a, tail) && Subseq(a, b)
    ensures Subseq(tail, b)
  {
    var f: seq<nat> :| Embeds(f, a, b);
    assert Embeds(f[|a| - |tail|..], tail, b);
  }
}
