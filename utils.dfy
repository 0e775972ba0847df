/**
 * The values shared by every catalog entry and the checks the entries call
 * but whose code is not part of this model: `Utils.checkField`,
 * `Utils.checkGithubURI`, `Utils.checkGithubURL` and `VersionRange.checkValidity`.
 */
module Utils {
  import opened Wrappers

  /**
   * A `java.net.URI` (or `java.net.URL`) as the validation sees it: its
   * written form, which identifies it in error reports, and the result of
   * `getHost()`, which is `null` for URIs without an authority.
   */
  datatype Uri = Uri(spelling: string, host: Option<string>)

  /** A `VersionRange`; its fields and its own checks are not part of this model. */
  type VersionRange(==)

  /** Why validation of a catalog entry failed: the first check that threw. */
  datatype Error =
    | MissingField(objectName: string, fieldName: string)  // Utils.checkField: a required field is null
    | InvalidVersions                                      // VersionRange.checkValidity threw
    | NotGithub(uri: Uri)                                  // Utils.checkGithubURI / checkGithubURL threw
    | UntrustedHost(uri: Uri)                              // a host outside the allow-list (IllegalStateException)
    | NullHost(uri: Uri)                                   // getHost() is null: List.of(..).contains(null) throws NullPointerException
    | NullUri                                              // a null element of a URI list: uri.getHost() throws NullPointerException
    | NullRelease                                          // a null element of an extension's releases: version.checkValidity() throws NullPointerException

  /**
   * The checks whose code is not part of this model, as uninterpreted
   * parameters: every result below holds for every choice of them.
   */
  datatype Oracles = Oracles(
    isGithubUri: Uri -> bool,                   // Utils.checkGithubURI returns normally
    isGithubUrl: Uri -> bool,                   // Utils.checkGithubURL returns normally
    versionRangeValid: VersionRange -> bool     // VersionRange.checkValidity returns normally
  )

  /** A required field is present when it is not null. */
  predicate IsPresent<T>(field: Option<T>) {
    field.Some?
  }

  /** `Utils.checkField(field, fieldName, objectName)`: throws exactly when the field is absent. */
  function CheckField<T>(field: Option<T>, fieldName: string, objectName: string): (o: Outcome<Error>)
    ensures o.Pass? <==> IsPresent(field)
    ensures o.Fail? ==> o.error == MissingField(objectName, fieldName)
  {
    if field.None? then Fail(MissingField(objectName, fieldName)) else Pass
  }
}
