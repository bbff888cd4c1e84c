/**
 * NUL-terminated C strings and the two library routines the ports use on
 * them: `strncmp` (equality test only) and `strncpy`.
 */
module CStrings {
  import opened Bytes

  /** The characters of a C string before its terminating NUL. */
  type CString = s: string | '\0' !in s

  /** A byte or character sequence with no NUL element. */
  predicate NoNul<T(==)>(s: seq<T>, nul: T) {
    forall i :: 0 <= i < |s| ==> s[i] != nul
  }

  /**
   * `strncmp(a, b, n) == 0`: the two buffers agree on their first `n`
   * elements, or up to and including a NUL that both hold at the same place.
   * Running off the end of both buffers at once counts as agreement; off the
   * end of only one of them as a difference.
   */
  predicate StrnEq<T(==)>(a: seq<T>, b: seq<T>, n: nat, nul: T)
    decreases n
  {
    if n == 0 || (a == [] && b == []) then true
    else if a == [] || b == [] then false
    else if a[0] != b[0] then false
    else if a[0] == nul then true
    else StrnEq(a[1..], b[1..], n - 1, nul)
  }

  /**
   * For a NUL-free `key`, comparing the terminated `key` with a terminated
   * `entry` over `strlen(key)` characters succeeds exactly when `key` is a
   * prefix of `entry`.
   */
  lemma {:induction false} StrnEqIsPrefix<T>(key: seq<T>, entry: seq<T>, nul: T)
    requires NoNul(key, nul)
    ensures StrnEq(key + [nul], entry + [nul], |key|, nul) <==> key <= entry
  {
    if |key| > 0 {
      if entry == [] {
        assert (entry + [nul])[0] == nul != key[0];
      } else {
        assert (key + [nul])[1..] == key[1..] + [nul];
        assert (entry + [nul])[1..] == entry[1..] + [nul];
        StrnEqIsPrefix(key[1..], entry[1..], nul);
        assert key <= entry <==> key[0] == entry[0] && key[1..] <= entry[1..];
      }
    }
  }

  /**
   * Comparing two buffers of exactly `n` elements, one of them NUL-free, over
   * `n` elements succeeds exactly when they are equal.
   */
  lemma {:induction false} StrnEqIsEquality<T>(a: seq<T>, b: seq<T>, nul: T)
    requires |a| == |b| && (NoNul(a, nul) || NoNul(b, nul))
    ensures StrnEq(a, b, |b|, nul) <==> a == b
  {
    if |b| > 0 {
      StrnEqIsEquality(a[1..], b[1..], nul);
      assert a == b <==> a[0] == b[0] && a[1..] == b[1..];
    }
  }

  /**
   * The buffer `strncpy(dst, src, n)` leaves: the first `n` elements become
   * `src` followed by NULs, the rest of `dst` is untouched.
   */
  function StrNCpy(dst: string, src: CString, n: nat): (r: string)
    requires n <= |dst|
    ensures |r| == |dst| && r[n..] == dst[n..]
    ensures forall i :: 0 <= i < n ==> r[i] == (if i < |src| then src[i] else '\0')
  {
    seq(n, i requires 0 <= i < n => if i < |src| then src[i] else '\0') + dst[n..]
  }

  /** Copying `strlen(src) + 1` characters copies the string and its terminator. */
  lemma StrNCpyWhole(dst: string, src: CString)
    requires |src| + 1 <= |dst|
    ensures StrNCpy(dst, src, |src| + 1) == src + ['\0'] + dst[|src| + 1..]
  {
    var r := StrNCpy(dst, src, |src| + 1);
    assert forall i :: 0 <= i < |dst| ==> r[i] == (src + ['\0'] + dst[|src| + 1..])[i];
  }

  /**
   * `strlen(s) + 1` computed in a 64-bit `size_t`: the buffer size a string
   * needs. It wraps to 0 only for the longest string `size_t` can measure.
   */
  function StrlenPlusOne(s: CString): (r: nat)
    requires |s| < TwoTo64
    ensures r < TwoTo64
    ensures r == 0 <==> |s| == TwoTo64 - 1
    ensures r != 0 ==> r == |s| + 1
  {
    (|s| + 1) % TwoTo64
  }

  /** `strncpy(dst, src, n)` into a caller's buffer of at least `n` characters. */
  method StrNCpyInto(dst: array<char>, src: CString, n: nat)
    requires n <= dst.Length
    modifies dst
    ensures dst[..] == StrNCpy(old(dst[..]), src, n)
  {
    forall i | 0 <= i < n {
      dst[i] := if i < |src| then src[i] else '\0';
    }
  }
}
