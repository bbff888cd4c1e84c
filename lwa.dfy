/**
 * The Login-with-Amazon port (ports/LWA/src/aia_lwa_config.c): two getters
 * of the same shape as the registration getters, over the globals
 * `g_aiaLwaRefreshToken` and `g_aiaLwaClientId`. Unlike those, they do not
 * check `strlen + 1` for wrap-around: for the one string length where it
 * wraps they copy nothing and report a size of 0.
 */
module Lwa {
  import opened Wrappers
  import opened CStrings
  import opened Bytes

  /**
   * The common body of the two getters. `len` is the `size_t*` argument
   * (None for a null pointer); `lenOut` is `*len` afterwards.
   */
  method CopyOut(value: CString, buf: array?<char>, len: Option<nat>) returns (ok: bool, lenOut: nat)
    requires |value| < TwoTo64
    requires buf != null && len.Some? ==> len.value <= buf.Length
    modifies buf
    ensures ok <==> len.Some? && (buf == null || StrlenPlusOne(value) <= len.value)
    ensures ok ==> lenOut == StrlenPlusOne(value)
    ensures !ok && len.Some? ==> lenOut == len.value
    ensures ok && buf != null ==> buf[..] == StrNCpy(old(buf[..]), value, StrlenPlusOne(value))
    ensures !ok && buf != null ==> buf[..] == old(buf[..])
  {
    if len.None? {
      return false, 0;
    }
    var valueLen := StrlenPlusOne(value);
    if buf != null {
      if len.value < valueLen {
        return false, len.value;
      }
      StrNCpyInto(buf, value, valueLen);
    }
    return true, valueLen;
  }

  /**
   * What a successful copy leaves in the caller's buffer: the string and its
   * NUL for every length but one; for that one, the buffer as it was.
   */
  lemma CopyResult(dst: string, value: CString)
    requires |value| < TwoTo64
    requires StrlenPlusOne(value) <= |dst|
    ensures |value| < TwoTo64 - 1 ==>
              StrNCpy(dst, value, StrlenPlusOne(value)) == value + ['\0'] + dst[|value| + 1..]
    ensures |value| == TwoTo64 - 1 ==> StrNCpy(dst, value, StrlenPlusOne(value)) == dst
  {
    if |value| < TwoTo64 - 1 {
      StrNCpyWhole(dst, value);
    }
  }

  /** The globals `g_aiaLwaRefreshToken` and `g_aiaLwaClientId`. */
  class LwaConfig {
    var refreshToken: CString
    var lwaClientId: CString

    constructor (refreshToken: CString, lwaClientId: CString)
      ensures this.refreshToken == refreshToken && this.lwaClientId == lwaClientId
    {
      this.refreshToken := refreshToken;
      this.lwaClientId := lwaClientId;
    }

    /** AiaGetRefreshToken */
    method GetRefreshToken(buf: array?<char>, len: Option<nat>) returns (ok: bool, lenOut: nat)
      requires |refreshToken| < TwoTo64
      requires buf != null && len.Some? ==> len.value <= buf.Length
      modifies buf
      ensures ok <==> len.Some? && (buf == null || StrlenPlusOne(refreshToken) <= len.value)
      ensures ok ==> lenOut == StrlenPlusOne(refreshToken)
      ensures !ok && len.Some? ==> lenOut == len.value
      ensures ok && buf != null ==>
                buf[..] == StrNCpy(old(buf[..]), refreshToken, StrlenPlusOne(refreshToken))
      ensures !ok && buf != null ==> buf[..] == old(buf[..])
    {
      ok, lenOut := CopyOut(refreshToken, buf, len);
    }

    /** AiaGetLwaClientId */
    method GetLwaClientId(buf: array?<char>, len: Option<nat>) returns (ok: bool, lenOut: nat)
      requires |lwaClientId| < TwoTo64
      requires buf != null && len.Some? ==> len.value <= buf.Length
      modifies buf
      ensures ok <==> len.Some? && (buf == null || StrlenPlusOne(lwaClientId) <= len.value)
      ensures ok ==> lenOut == StrlenPlusOne(lwaClientId)
      ensures !ok && len.Some? ==> lenOut == len.value
      ensures ok && buf != null ==>
                buf[..] == StrNCpy(old(buf[..]), lwaClientId, StrlenPlusOne(lwaClientId))
      ensures !ok && buf != null ==> buf[..] == old(buf[..])
    {
      ok, lenOut := CopyOut(lwaClientId, buf, len);
    }
  }
}
