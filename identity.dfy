/**
 * The identity-provider client library the guard calls. Its functions are
 * not part of this repository, so they are parameters: whatever they answer,
 * the guard's properties hold.
 */
module Identity {
  import opened Wrappers

  /**
   * A decoded JWT payload (`OriginalSSOUser`). The guard reads only its
   * `client_roles`; the other claims are opaque here.
   */
  datatype DecodedToken = DecodedToken(clientRoles: Option<seq<string>>, claims: string)

  /** A normalized user (`SSOUser`), opaque here. */
  datatype SsoUser = SsoUser(claims: string)

  /**
   * The five library calls the guard makes: `isJWTValid` (its awaited
   * result, with the configured client id and secret fixed inside), `decodeJWT`,
   * `normalizeUser`, `hasAllRoles` and `hasAtLeastOneRole`. A token or a user
   * that is `undefined`/`null` is None.
   */
  datatype IdentityClient = IdentityClient(
    isJWTValid: Option<string> -> bool,
    decodeJWT: Option<string> -> Option<DecodedToken>,
    normalizeUser: Option<DecodedToken> -> Option<SsoUser>,
    hasAllRoles: (seq<string>, seq<string>) -> bool,
    hasAtLeastOneRole: (seq<string>, seq<string>) -> bool)
}
