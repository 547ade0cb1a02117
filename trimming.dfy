/**
 * Stripping a run of matching elements from both ends of a sequence: the shape of Rust's
 * `str::trim_matches` (used on NUL characters when fragments are appended) and of `str::trim`
 * (used on whitespace when a command line is read). The kept part is the slice between the first
 * and the last element that `strip` does not match.
 */
module Trimming {

  /** The index of the first element at or after `i` that is kept, or `|s|` if there is none. */
  function KeptFrom<T>(s: seq<T>, strip: T -> bool, i: nat): (k: nat)
    requires i <= |s|
    ensures i <= k <= |s|
    decreases |s| - i
  {
    if i == |s| || !strip(s[i]) then i else KeptFrom(s, strip, i + 1)
  }

  /** The end of the kept part: one past the last element before `j`, and not before `lo`, that is kept. */
  function KeptTo<T>(s: seq<T>, strip: T -> bool, lo: nat, j: nat): (k: nat)
    requires lo <= j <= |s|
    ensures lo <= k <= j
  {
    if j == lo || !strip(s[j - 1]) then j else KeptTo(s, strip, lo, j - 1)
  }

  /** Drops matching elements from the front, then from the back of what remains. */
  function Trim<T>(s: seq<T>, strip: T -> bool): (t: seq<T>)
    ensures |t| <= |s|
  {
    var lo := KeptFrom(s, strip, 0);
    s[lo..KeptTo(s, strip, lo, |s|)]
  }

  /** True when every element of `s` is one that trimming removes. */
  predicate AllStripped<T>(s: seq<T>, strip: T -> bool)
  {
    forall i {:trigger s[i]} | 0 <= i < |s| :: strip(s[i])
  }

  /** True when `s` neither starts nor ends with an element that trimming removes. */
  predicate Untrimmable<T>(s: seq<T>, strip: T -> bool)
  {
    s != [] ==> !strip(s[0]) && !strip(s[|s| - 1])
  }

  /** `KeptFrom` skips exactly the matching elements and stops at the first kept one. */
  lemma {:induction false} KeptFromSkips<T>(s: seq<T>, strip: T -> bool, i: nat)
    requires i <= |s|
    ensures forall m | i <= m < KeptFrom(s, strip, i) :: strip(s[m])
    ensures KeptFrom(s, strip, i) < |s| ==> !strip(s[KeptFrom(s, strip, i)])
    decreases |s| - i
  {
    if i < |s| && strip(s[i]) {
      KeptFromSkips(s, strip, i + 1);
    }
  }

  /** `KeptTo` skips exactly the matching elements and stops after the last kept one. */
  lemma {:induction false} KeptToSkips<T>(s: seq<T>, strip: T -> bool, lo: nat, j: nat)
    requires lo <= j <= |s|
    ensures forall m | KeptTo(s, strip, lo, j) <= m < j :: strip(s[m])
    ensures KeptTo(s, strip, lo, j) > lo ==> !strip(s[KeptTo(s, strip, lo, j) - 1])
  {
    if j > lo && strip(s[j - 1]) {
      KeptToSkips(s, strip, lo, j - 1);
    }
  }

  /** Any index reached over matching elements only and resting on a kept one is `KeptFrom`. */
  lemma {:induction false} KeptFromIs<T>(s: seq<T>, strip: T -> bool, i: nat, k: nat)
    requires i <= k <= |s|
    requires forall m | i <= m < k :: strip(s[m])
    requires k < |s| ==> !strip(s[k])
    ensures KeptFrom(s, strip, i) == k
    decreases k - i
  {
    if i < k {
      KeptFromIs(s, strip, i + 1, k);
    }
  }

  /** Any end reached backwards over matching elements only and resting after a kept one is `KeptTo`. */
  lemma {:induction false} KeptToIs<T>(s: seq<T>, strip: T -> bool, lo: nat, j: nat, k: nat)
    requires lo <= k <= j <= |s|
    requires forall m | k <= m < j :: strip(s[m])
    requires lo < k ==> !strip(s[k - 1])
    ensures KeptTo(s, strip, lo, j) == k
    decreases j - k
  {
    if k < j {
      KeptToIs(s, strip, lo, j - 1, k);
    }
  }

  /**
   * `Trim` cuts `s` into a stripped prefix, the result and a stripped suffix, and the result has
   * nothing left to strip at either end.
   */
  lemma TrimSplits<T>(s: seq<T>, strip: T -> bool)
    ensures var lo := KeptFrom(s, strip, 0);
      var hi := KeptTo(s, strip, lo, |s|);
      s == s[..lo] + Trim(s, strip) + s[hi..] &&
      AllStripped(s[..lo], strip) && AllStripped(s[hi..], strip)
    ensures Untrimmable(Trim(s, strip), strip)
  {
    var lo := KeptFrom(s, strip, 0);
    var hi := KeptTo(s, strip, lo, |s|);
    SplitThree(s, lo, hi);
    StrippedFront(s, strip);
    StrippedBack(s, strip, lo);
    KeptEnds(s, strip);
  }

  lemma SplitThree<T>(s: seq<T>, lo: nat, hi: nat)
    requires lo <= hi <= |s|
    ensures s == s[..lo] + s[lo..hi] + s[hi..]
  {
    assert s[..hi] == s[..lo] + s[lo..hi];
  }

  lemma StrippedFront<T>(s: seq<T>, strip: T -> bool)
    ensures AllStripped(s[..KeptFrom(s, strip, 0)], strip)
  {
    var pre := s[..KeptFrom(s, strip, 0)];
    KeptFromSkips(s, strip, 0);
    forall m | 0 <= m < |pre| ensures strip(pre[m]) {
      assert pre[m] == s[m];
    }
  }

  lemma StrippedBack<T>(s: seq<T>, strip: T -> bool, lo: nat)
    requires lo <= |s|
    ensures AllStripped(s[KeptTo(s, strip, lo, |s|)..], strip)
  {
    var hi := KeptTo(s, strip, lo, |s|);
    var post := s[hi..];
    KeptToSkips(s, strip, lo, |s|);
    forall m | 0 <= m < |post| ensures strip(post[m]) {
      assert post[m] == s[hi + m];
    }
  }

  lemma KeptEnds<T>(s: seq<T>, strip: T -> bool)
    ensures Untrimmable(Trim(s, strip), strip)
  {
    var lo := KeptFrom(s, strip, 0);
    var hi := KeptTo(s, strip, lo, |s|);
    var t := s[lo..hi];
    if lo < hi {
      KeptFromSkips(s, strip, 0);
      KeptToSkips(s, strip, lo, |s|);
      assert t[0] == s[lo] && t[|t| - 1] == s[hi - 1];
    }
  }

  /**
   * Trimming is determined by its result: whatever stripped elements surround a sequence with
   * nothing to strip at its ends, trimming removes exactly them.
   */
  lemma TrimUnique<T>(pre: seq<T>, t: seq<T>, post: seq<T>, strip: T -> bool)
    requires AllStripped(pre, strip) && AllStripped(post, strip) && Untrimmable(t, strip)
    ensures Trim(pre + t + post, strip) == t
  {
    var s := pre + t + post;
    if t == [] {
      forall m | 0 <= m < |s| ensures strip(s[m]) {
        if m < |pre| { assert s[m] == pre[m]; } else { assert s[m] == post[m - |pre|]; }
      }
      KeptFromIs(s, strip, 0, |s|);
      KeptToIs(s, strip, |s|, |s|, |s|);
    } else {
      var lo, hi := |pre|, |pre| + |t|;
      forall m | 0 <= m < lo ensures strip(s[m]) {
        assert s[m] == pre[m];
      }
      assert s[lo] == t[0];
      KeptFromIs(s, strip, 0, lo);
      forall m | hi <= m < |s| ensures strip(s[m]) {
        assert s[m] == post[m - hi];
      }
      assert s[hi - 1] == t[|t| - 1];
      KeptToIs(s, strip, lo, |s|, hi);
      assert s[lo..hi] == t;
    }
  }

  /** Trimming keeps a sequence that has nothing to strip at either end. */
  lemma TrimKeepsUntrimmable<T>(s: seq<T>, strip: T -> bool)
    requires Untrimmable(s, strip)
    ensures Trim(s, strip) == s
  {
    TrimUnique([], s, [], strip);
    assert [] + s + [] == s;
  }

  /** The result of trimming has nothing left to strip, so trimming twice is trimming once. */
  lemma TrimIdempotent<T>(s: seq<T>, strip: T -> bool)
    ensures Untrimmable(Trim(s, strip), strip)
    ensures Trim(Trim(s, strip), strip) == Trim(s, strip)
  {
    TrimSplits(s, strip);
    TrimKeepsUntrimmable(Trim(s, strip), strip);
  }

  /** Stripped elements added at either end do not change the trimmed result. */
  lemma TrimIgnoresPadding<T>(pre: seq<T>, s: seq<T>, post: seq<T>, strip: T -> bool)
    requires AllStripped(pre, strip) && AllStripped(post, strip)
    ensures Trim(pre + s + post, strip) == Trim(s, strip)
  {
    TrimSplits(s, strip);
    var lo := KeptFrom(s, strip, 0);
    var hi := KeptTo(s, strip, lo, |s|);
    var a, t, b := s[..lo], Trim(s, strip), s[hi..];
    Regroup(pre, a, t, b, post);
    AppendStripped(pre, a, strip);
    AppendStripped(b, post, strip);
    TrimUnique(pre + a, t, b + post, strip);
  }

  lemma Regroup<T>(pre: seq<T>, a: seq<T>, t: seq<T>, b: seq<T>, post: seq<T>)
    ensures pre + (a + t + b) + post == (pre + a) + t + (b + post)
  {
  }

  /** Two stripped runs side by side are one stripped run. */
  lemma AppendStripped<T>(a: seq<T>, b: seq<T>, strip: T -> bool)
    requires AllStripped(a, strip) && AllStripped(b, strip)
    ensures AllStripped(a + b, strip)
  {
    var ab := a + b;
    forall m | 0 <= m < |ab| ensures strip(ab[m]) {
      if m < |a| { assert ab[m] == a[m]; } else { assert ab[m] == b[m - |a|]; }
    }
  }
}
