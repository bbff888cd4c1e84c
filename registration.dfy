/**
 * The registration port (ports/Registration/src/aia_registration_config.c):
 * three getters that report or copy out a global C string. A null output
 * buffer asks only for the size; a buffer too small for the string and its
 * NUL is refused; otherwise the string and its NUL are copied.
 */
module Registration {
  import opened Wrappers
  import opened CStrings
  import opened Bytes

  /**
   * The common body of the three getters over the global `value`. `len` is
   * the `size_t*` argument (None for a null pointer); `lenOut` is `*len`
   * afterwards.
   */
  method CopyOut(value: CString, buf: array?<char>, len: Option<nat>) returns (ok: bool, lenOut: nat)
    requires |value| < TwoTo64
    requires buf != null && len.Some? ==> len.value <= buf.Length
    modifies buf
    ensures ok <==> len.Some? && StrlenPlusOne(value) != 0
                    && (buf == null || StrlenPlusOne(value) <= len.value)
    ensures ok ==> lenOut == |value| + 1
    ensures !ok && len.Some? ==> lenOut == len.value
    ensures ok && buf != null ==> buf[..] == value + ['\0'] + old(buf[..])[|value| + 1..]
    ensures !ok && buf != null ==> buf[..] == old(buf[..])
  {
    if len.None? {
      return false, 0;
    }
    var valueLen := StrlenPlusOne(value);
    if valueLen == 0 {
      return false, len.value;
    }
    if buf != null {
      if len.value < valueLen {
        return false, len.value;
      }
      StrNCpyWhole(buf[..], value);
      StrNCpyInto(buf, value, valueLen);
    }
    return true, valueLen;
  }

  /** The globals `g_aiaIotEndpoint`, `g_aiaClientId` and `g_aiaAwsAccountId`. */
  class RegistrationConfig {
    var iotEndpoint: CString
    var clientId: CString
    var awsAccountId: CString

    constructor (iotEndpoint: CString, clientId: CString, awsAccountId: CString)
      ensures this.iotEndpoint == iotEndpoint && this.clientId == clientId
      ensures this.awsAccountId == awsAccountId
    {
      this.iotEndpoint := iotEndpoint;
      this.clientId := clientId;
      this.awsAccountId := awsAccountId;
    }

    /** AiaGetIotClientId */
    method GetIotClientId(iotClientId: array?<char>, len: Option<nat>) returns (ok: bool, lenOut: nat)
      requires |clientId| < TwoTo64
      requires iotClientId != null && len.Some? ==> len.value <= iotClientId.Length
      modifies iotClientId
      ensures ok <==> len.Some? && StrlenPlusOne(clientId) != 0
                      && (iotClientId == null || StrlenPlusOne(clientId) <= len.value)
      ensures ok ==> lenOut == |clientId| + 1
      ensures !ok && len.Some? ==> lenOut == len.value
      ensures ok && iotClientId != null ==>
                iotClientId[..] == clientId + ['\0'] + old(iotClientId[..])[|clientId| + 1..]
      ensures !ok && iotClientId != null ==> iotClientId[..] == old(iotClientId[..])
    {
      ok, lenOut := CopyOut(clientId, iotClientId, len);
    }

    /** AiaGetAwsAccountId */
    method GetAwsAccountId(accountId: array?<char>, len: Option<nat>) returns (ok: bool, lenOut: nat)
      requires |awsAccountId| < TwoTo64
      requires accountId != null && len.Some? ==> len.value <= accountId.Length
      modifies accountId
      ensures ok <==> len.Some? && StrlenPlusOne(awsAccountId) != 0
                      && (accountId == null || StrlenPlusOne(awsAccountId) <= len.value)
      ensures ok ==> lenOut == |awsAccountId| + 1
      ensures !ok && len.Some? ==> lenOut == len.value
      ensures ok && accountId != null ==>
                accountId[..] == awsAccountId + ['\0'] + old(accountId[..])[|awsAccountId| + 1..]
      ensures !ok && accountId != null ==> accountId[..] == old(accountId[..])
    {
      ok, lenOut := CopyOut(awsAccountId, accountId, len);
    }

    /** AiaGetIotEndpoint */
    method GetIotEndpoint(endpoint: array?<char>, len: Option<nat>) returns (ok: bool, lenOut: nat)
      requires |iotEndpoint| < TwoTo64
      requires endpoint != null && len.Some? ==> len.value <= endpoint.Length
      modifies endpoint
      ensures ok <==> len.Some? && StrlenPlusOne(iotEndpoint) != 0
                      && (endpoint == null || StrlenPlusOne(iotEndpoint) <= len.value)
      ensures ok ==> lenOut == |iotEndpoint| + 1
      ensures !ok && len.Some? ==> lenOut == len.value
      ensures ok && endpoint != null ==>
                endpoint[..] == iotEndpoint + ['\0'] + old(endpoint[..])[|iotEndpoint| + 1..]
      ensures !ok && endpoint != null ==> endpoint[..] == old(endpoint[..])
    {
      ok, lenOut := CopyOut(iotEndpoint, endpoint, len);
    }
  }
}
