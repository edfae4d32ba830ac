/** Knuth-Morris-Pratt search with the strong failure table. */
module Kmp {
  import opened Words

  // ---------------------------------------------------------------- borders

  /** The prefix of length `k` is also a suffix of the prefix of length `i`. */
  predicate Border(w: seq<byte>, i: nat, k: nat)
  {
    k <= i <= |w| && w[..k] == w[i - k..i]
  }

  /** A border of the length-`i` prefix after which the keyword goes on differently than after
      the prefix itself. */
  predicate StrongBorder(w: seq<byte>, i: nat, k: nat)
    requires i < |w|
  {
    k < i && Border(w, i, k) && w[k] != w[i]
  }

  /** `n` is the longest strong border of the length-`i` prefix, or -1 if it has none. */
  ghost predicate IsStrongNext(w: seq<byte>, i: nat, n: int)
    requires i < |w|
  {
    && -1 <= n < i
    && (n >= 0 ==> StrongBorder(w, i, n))
    && forall k: nat | n < k < i :: !StrongBorder(w, i, k)
  }

  /** Below a border, the borders are the same. */
  lemma BorderOfBorder(w: seq<byte>, i: nat, j: nat, k: nat)
    requires Border(w, i, j) && k <= j
    ensures Border(w, i, k) <==> Border(w, j, k)
  {
    assert w[j - k..j] == w[..j][j - k..];
    assert w[i - k..i] == w[i - j..i][j - k..];
  }

  /** A border grows by the same byte on both ends, and shrinks likewise. */
  lemma BorderGrows(w: seq<byte>, i: nat, k: nat)
    requires k <= i < |w|
    ensures Border(w, i + 1, k + 1) <==> Border(w, i, k) && w[k] == w[i]
  {
    assert w[..k + 1] == w[..k] + [w[k]];
    assert w[i - k..i + 1] == w[i - k..i] + [w[i]];
    if Border(w, i + 1, k + 1) {
      assert w[..k] == w[..k + 1][..k] && w[i - k..i] == w[i - k..i + 1][..k];
      assert w[k] == w[..k + 1][k] && w[i] == w[i - k..i + 1][k];
    }
  }

  /** The entry depends on the bytes up to its own index only. */
  lemma NextOfPrefix(w: seq<byte>, m: nat, i: nat, n: int)
    requires i < m <= |w|
    ensures IsStrongNext(w, i, n) <==> IsStrongNext(w[..m], i, n)
  {
    forall k: nat | k < i ensures StrongBorder(w, i, k) <==> StrongBorder(w[..m], i, k) {
      assert w[..m][..k] == w[..k] && w[..m][i - k..i] == w[i - k..i];
    }
  }

  // ---------------------------------------------------------------- the table

  /** No border of the length-`i` prefix longer than `j` goes on like the prefix does. */
  ghost predicate NoneLonger(w: seq<byte>, i: nat, j: int)
    requires i < |w|
  {
    forall k: nat | j < k < i && Border(w, i, k) :: w[k] != w[i]
  }

  /** A step that extends the border `j`: the new border is the longest there is, and the entry
      written for it is right. */
  lemma ExtendStep(w: seq<byte>, i: nat, j: int, next: seq<int>)
    requires i + 1 < |w| && -1 <= j < i && |next| > i
    requires j >= 0 ==> Border(w, i, j) && w[i] == w[j]
    requires NoneLonger(w, i, j)
    requires forall t: nat | t <= i :: IsStrongNext(w, t, next[t])
    ensures Border(w, i + 1, j + 1) && NoneLonger(w, i + 1, j + 1)
    ensures IsStrongNext(w, i + 1, if w[i + 1] != w[j + 1] then j + 1 else next[j + 1])
  {
    hide Border;
    if j >= 0 {
      BorderGrows(w, i, j);
    } else {
      EmptyBorder(w, i + 1);
    }
    var i' := i + 1;
    forall k: nat | j + 1 < k < i' ensures !Border(w, i', k) {
      BorderGrows(w, i, k - 1);
    }
    if w[i + 1] == w[j + 1] {
      var n := next[j + 1];
      assert IsStrongNext(w, j + 1, n);
      if n >= 0 {
        BorderOfBorder(w, i + 1, j + 1, n);
      }
      forall k: nat | n < k < i' ensures !StrongBorder(w, i', k) {
        if k < j + 1 {
          BorderOfBorder(w, i', j + 1, k);
          assert !StrongBorder(w, j + 1, k);
        }
      }
    }
  }

  lemma EmptyBorder(w: seq<byte>, i: nat)
    requires i <= |w|
    ensures Border(w, i, 0)
  {
  }

  /** A step that gives up the border `j` for the entry of its length loses nothing. */
  lemma FallBackStep(w: seq<byte>, i: nat, j: nat, n: int)
    requires i < |w| && j < i && Border(w, i, j) && w[i] != w[j]
    requires NoneLonger(w, i, j) && IsStrongNext(w, j, n)
    ensures n >= 0 ==> Border(w, i, n)
    ensures NoneLonger(w, i, n)
  {
    hide Border;
    if n >= 0 {
      BorderOfBorder(w, i, j, n);
    }
    forall k: nat | n < k < i && Border(w, i, k) ensures w[k] != w[i] {
      if k < j {
        BorderOfBorder(w, i, j, k);
        assert !StrongBorder(w, j, k);
      }
    }
  }

  /** InitNext. The buffer holds one byte more than the keyword, whatever it is: the last entry
      depends on it, the entries of the keyword's own positions do not. */
  method InitNext(buffer: seq<byte>, keyWordLen: nat, piNext: array<int>) returns (r: nat)
    requires |buffer| > keyWordLen && piNext.Length > keyWordLen
    modifies piNext
    ensures r == keyWordLen
    ensures forall i: nat | i < keyWordLen :: IsStrongNext(buffer[..keyWordLen], i, piNext[i])
    ensures forall i: nat | i <= keyWordLen :: IsStrongNext(buffer, i, piNext[i])
  {
    hide Border, StrongBorder, NoneLonger, IsStrongNext;
    piNext[0] := -1;
    var i: nat, j := 0, -1;
    StartOfTable(buffer);
    while i < keyWordLen
      invariant i <= keyWordLen && -1 <= j < i
      invariant forall t: nat | t <= i :: IsStrongNext(buffer, t, piNext[t])
      invariant j >= 0 ==> Border(buffer, i, j)
      invariant NoneLonger(buffer, i, j)
      decreases keyWordLen - i, j + 1
    {
      if j == -1 || buffer[i] == buffer[j] {
        ExtendStep(buffer, i, j, piNext[..]);
        i := i + 1;
        j := j + 1;
        if buffer[i] != buffer[j] {
          piNext[i] := j;
        } else {
          piNext[i] := piNext[j];
        }
      } else {
        assert IsStrongNext(buffer, j, piNext[j]);
        FallBackStep(buffer, i, j, piNext[j]);
        NextIsSmaller(buffer, j, piNext[j]);
        j := piNext[j];
      }
    }
    forall t: nat | t < keyWordLen ensures IsStrongNext(buffer[..keyWordLen], t, piNext[t]) {
      NextOfPrefix(buffer, keyWordLen, t, piNext[t]);
    }
    return keyWordLen;
  }

  lemma StartOfTable(w: seq<byte>)
    requires w != []
    ensures IsStrongNext(w, 0, -1) && NoneLonger(w, 0, -1)
  {
  }

  lemma NextIsSmaller(w: seq<byte>, i: nat, n: int)
    requires i < |w| && IsStrongNext(w, i, n)
    ensures -1 <= n < i
  {
  }

  // ---------------------------------------------------------------- the search

  predicate Occurs(src: seq<byte>, w: seq<byte>, at: nat)
  {
    at + |w| <= |src| && src[at..at + |w|] == w
  }

  /** `j` bytes of the keyword match before position `i`, and no occurrence starts further left. */
  ghost predicate Searching(src: seq<byte>, w: seq<byte>, i: nat, j: int)
  {
    && i <= |src| && -1 <= j <= |w| && j <= i
    && (j >= 0 ==> w[..j] == src[i - j..i])
    && forall t: nat | t < i - j :: !Occurs(src, w, t)
  }

  lemma MatchStep(src: seq<byte>, w: seq<byte>, i: nat, j: int)
    requires Searching(src, w, i, j) && i < |src| && j < |w|
    requires j >= 0 ==> src[i] == w[j]
    ensures Searching(src, w, i + 1, j + 1)
  {
    if j >= 0 {
      assert w[..j + 1] == w[..j] + [w[j]];
      assert src[i - j..i + 1] == src[i - j..i] + [src[i]];
    }
  }

  lemma MismatchStep(src: seq<byte>, w: seq<byte>, i: nat, j: nat, n: int)
    requires Searching(src, w, i, j) && i < |src| && j < |w| && src[i] != w[j] && IsStrongNext(w, j, n)
    ensures Searching(src, w, i, n)
  {
    if n >= 0 {
      assert src[i - n..i] == src[i - j..i][j - n..];
      assert w[j - n..j] == w[..j][j - n..];
    }
    forall t: nat | t < i - n ensures !Occurs(src, w, t) {
      if i - j < t && Occurs(src, w, t) {
        MissedOccurrence(src, w, i, j, t);
      }
    }
  }

  /** An occurrence starting inside the matched part lines up a strong border of it. */
  lemma MissedOccurrence(src: seq<byte>, w: seq<byte>, i: nat, j: nat, t: nat)
    requires j <= i < |src| && j < |w| && w[..j] == src[i - j..i] && src[i] != w[j]
    requires i - j < t <= i && Occurs(src, w, t)
    ensures StrongBorder(w, j, i - t)
  {
    var k := i - t;
    assert src[i] == src[t..t + |w|][k] == w[k];
    assert w[..k] == src[t..t + |w|][..k] == src[t..i];
    assert src[t..i] == src[i - j..i][j - k..] == w[..j][j - k..] == w[j - k..j];
  }

  /** KMP. Returns the offset of the leftmost occurrence of the keyword, or none exactly when
      there is none; an empty source has none, even of the empty keyword. The bytes behind the
      keyword play no part. `steps` counts the rounds of the searching loop. */
  method Search(src: seq<byte>, buffer: seq<byte>, keyWordLen: nat) returns (r: Option<nat>, ghost steps: nat)
    requires |buffer| > keyWordLen
    ensures var w := buffer[..keyWordLen];
            if src == [] then r == None
            else match r
              case Some(at) => Occurs(src, w, at) && forall t: nat | t < at :: !Occurs(src, w, t)
              case None => forall t: nat :: !Occurs(src, w, t)
    ensures steps <= 2 * |src|
  {
    hide Border, StrongBorder, Searching, IsStrongNext;
    steps := 0;
    if |src| == 0 {
      return None, steps;
    }
    var next := new int[keyWordLen + 1];
    var _ := InitNext(buffer, keyWordLen, next);
    ghost var w := buffer[..keyWordLen];
    ghost var table := next[..];
    var i: nat, j := 0, 0;
    StartOfSearch(src, w);
    while i != |src| && j != keyWordLen
      invariant i <= |src| && -1 <= j <= keyWordLen
      invariant next[..] == table
      invariant Searching(src, w, i, j)
      invariant steps + j <= 2 * i && (i == |src| ==> j >= 0)
      decreases |src| - i, j + 1
    {
      steps := steps + 1;
      if j == -1 || src[i] == buffer[j] {
        MatchStep(src, w, i, j);
        i := i + 1;
        j := j + 1;
      } else {
        assert IsStrongNext(w, j, table[j]);
        MismatchStep(src, w, i, j, next[j]);
        NextIsSmaller(w, j, next[j]);
        j := next[j];
      }
    }
    EndOfSearch(src, w, i, j);
    if i == |src| && j != keyWordLen {
      return None, steps;
    }
    return Some(i - keyWordLen), steps;
  }

  lemma StartOfSearch(src: seq<byte>, w: seq<byte>)
    ensures Searching(src, w, 0, 0)
  {
  }

  lemma EndOfSearch(src: seq<byte>, w: seq<byte>, i: nat, j: int)
    requires Searching(src, w, i, j)
    ensures j == |w| ==> i >= j && Occurs(src, w, i - j) && forall t: nat | t < i - j :: !Occurs(src, w, t)
    ensures i == |src| && 0 <= j < |w| ==> forall t: nat :: !Occurs(src, w, t)
  {
  }
}
