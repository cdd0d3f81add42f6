/** Helpers for the ghost logs of destructor runs kept by the stack and queue models. */
module Logs {

  /** Every value of `s` twice in a row: the drop log of a value that is both dropped inside
      the container and dropped again by the caller that received it. */
  function Doubled<T>(s: seq<T>): (r: seq<T>)
    ensures |r| == 2 * |s|
  {
    if s == [] then [] else Doubled(s[..|s| - 1]) + [s[|s| - 1], s[|s| - 1]]
  }

  /** Doubling one more value appends it twice. */
  lemma DoubledSnoc<T>(s: seq<T>, x: T)
    ensures Doubled(s + [x]) == Doubled(s) + [x, x]
  {
    assert (s + [x])[..|s|] == s;
  }

  /** Doubling a prefix one longer appends the next value twice. */
  lemma DoubledPrefix<T>(s: seq<T>, k: nat)
    requires k < |s|
    ensures Doubled(s[..k + 1]) == Doubled(s[..k]) + [s[k], s[k]]
  {
    assert s[..k + 1] == s[..k] + [s[k]];
    DoubledSnoc(s[..k], s[k]);
  }

  /** Position `2i` and `2i + 1` of the doubled log both hold the `i`-th value. */
  lemma {:induction false} DoubledAt<T>(s: seq<T>, i: nat)
    requires i < |s|
    ensures Doubled(s)[2 * i] == s[i] && Doubled(s)[2 * i + 1] == s[i]
    decreases |s|
  {
    if i < |s| - 1 {
      DoubledAt(s[..|s| - 1], i);
    }
  }
}
