/** Bytes, 32-bit words and the little-endian layout the 32-bit build works with. */
module Words {

  datatype Option<+T> = None | Some(value: T)

  type byte = b: int | 0 <= b < 0x100

  const WORD_LIMIT := 0x1_0000_0000

  type word = w: int | 0 <= w < WORD_LIMIT

  /** Reduction of an integer to a machine word (unsigned wrap-around). */
  function Wrap(n: int): (w: word)
  {
    n % WORD_LIMIT
  }

  /** An address moved by a number of bytes, forward or back. */
  function Plus(w: word, d: int): word
  {
    Wrap(w + d)
  }

  /** The signed reading of a byte. */
  function SignedByte(b: byte): (n: int)
    ensures -0x80 <= n < 0x80 && (n - b) % 0x100 == 0
  {
    if b < 0x80 then b else b - 0x100
  }

  /** The signed reading of a word. */
  function SignedWord(w: word): (n: int)
    ensures -0x8000_0000 <= n < 0x8000_0000 && Wrap(n) == w
  {
    if w < 0x8000_0000 then w else w - WORD_LIMIT
  }

  /** The four bytes of a word, lowest first. */
  function Bytes4(w: word): (s: seq<byte>)
    ensures |s| == 4 && Word4(s) == w
  {
    var b0, b1, b2, b3 := w % 0x100, (w / 0x100) % 0x100, (w / 0x1_0000) % 0x100, w / 0x100_0000;
    assert w / 0x1_0000 == w / 0x100 / 0x100 && b3 == w / 0x1_0000 / 0x100;
    [b0, b1, b2, b3]
  }

  /** The word stored in the first four bytes of a sequence. */
  function Word4(s: seq<byte>): (w: word)
    requires |s| >= 4
  {
    var b0: int, b1: int, b2: int, b3: int := s[0], s[1], s[2], s[3];
    b0 + 0x100 * b1 + 0x1_0000 * b2 + 0x100_0000 * b3
  }

  /** `s` with `piece` written over the bytes from `at` on. */
  function Splice<T>(s: seq<T>, at: nat, piece: seq<T>): (r: seq<T>)
    requires at + |piece| <= |s|
    ensures |r| == |s|
    ensures forall i | 0 <= i < |s| :: r[i] == if at <= i < at + |piece| then piece[i - at] else s[i]
  {
    s[..at] + piece + s[at + |piece|..]
  }

  /** Wrap-around addition may be done in any grouping. */
  lemma WrapSum(a: int, b: int)
    ensures Wrap(Wrap(a) + b) == Wrap(a + b)
    ensures Wrap(a - Wrap(b)) == Wrap(a - b)
  {
    WrapShift(a + b, a / WORD_LIMIT);
    WrapShift(a - b, -(b / WORD_LIMIT));
  }

  lemma WrapWord(w: word)
    ensures Wrap(w) == w
  {
  }

  lemma WrapShift(a: int, k: int)
    ensures Wrap(a - k * WORD_LIMIT) == Wrap(a)
  {
    var q := a / WORD_LIMIT;
    assert a - k * WORD_LIMIT == (q - k) * WORD_LIMIT + Wrap(a);
  }

  /** CopyMemory, and stores wider than a byte. */
  method Store(target: array<byte>, at: nat, piece: seq<byte>)
    requires at + |piece| <= target.Length
    modifies target
    ensures target[..] == Splice(old(target[..]), at, piece)
  {
    forall i | 0 <= i < |piece| {
      target[at + i] := piece[i];
    }
  }

  lemma SpliceNothing<T>(s: seq<T>, at: nat)
    requires at <= |s|
    ensures Splice(s, at, []) == s
  {
  }

  /** Two neighbouring stores make one. */
  lemma SpliceTwice<T>(s: seq<T>, at: nat, a: seq<T>, b: seq<T>)
    requires at + |a| + |b| <= |s|
    ensures Splice(Splice(s, at, a), at + |a|, b) == Splice(s, at, a + b)
  {
  }

  /** So do two stores of which the second runs over the end of the first. */
  lemma SpliceOverlap<T>(s: seq<T>, at: nat, a: seq<T>, k: nat, b: seq<T>)
    requires k <= |a| <= k + |b| && at + k + |b| <= |s|
    ensures Splice(Splice(s, at, a), at + k, b) == Splice(s, at, a[..k] + b)
  {
  }
}
