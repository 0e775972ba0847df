/**
 * `qupath.ext.extensionmanager.core.index.model.Release`: one downloadable
 * release of an extension, validated when it is built.
 */
module IndexRelease {
  import opened Wrappers
  import opened Utils

  /** `VALID_HOSTS`: the hosts every dependency and javadoc URL must be on. */
  const ValidHosts: seq<string> := ["github.com", "maven.scijava.org", "repo1.maven.org"]

  /** The record's six components, each possibly null. */
  datatype Release = Release(
    name: Option<string>,
    mainUrl: Option<Uri>,
    requiredDependencyUrls: Option<seq<Option<Uri>>>,
    optionalDependencyUrls: Option<seq<Option<Uri>>>,
    javadocsUrls: Option<seq<Option<Uri>>>,
    versions: Option<VersionRange>
  )

  /** A null list reads as the empty list. */
  function OrEmpty<T>(list: Option<seq<T>>): (r: seq<T>)
    ensures list.None? ==> r == []
    ensures list.Some? ==> r == list.value
  {
    if list.None? then [] else list.value
  }

  /** The accessor `requiredDependencyUrls()`. */
  function RequiredDependencyUrls(r: Release): (urls: seq<Option<Uri>>)
    ensures r.requiredDependencyUrls.None? ==> urls == []
    ensures r.requiredDependencyUrls.Some? ==> urls == r.requiredDependencyUrls.value
  {
    OrEmpty(r.requiredDependencyUrls)
  }

  /** The accessor `optionalDependencyUrls()`. */
  function OptionalDependencyUrls(r: Release): (urls: seq<Option<Uri>>)
    ensures r.optionalDependencyUrls.None? ==> urls == []
    ensures r.optionalDependencyUrls.Some? ==> urls == r.optionalDependencyUrls.value
  {
    OrEmpty(r.optionalDependencyUrls)
  }

  /** The accessor `javadocsUrls()`. */
  function JavadocsUrls(r: Release): (urls: seq<Option<Uri>>)
    ensures r.javadocsUrls.None? ==> urls == []
    ensures r.javadocsUrls.Some? ==> urls == r.javadocsUrls.value
  {
    OrEmpty(r.javadocsUrls)
  }

  // ---------------------------------------------------------------------------
  // The host allow-list

  /** The one-URI reference: a non-null URI whose host is exactly one of `ValidHosts`. */
  predicate HostOk(u: Option<Uri>) {
    u.Some? && u.value.host.Some? && u.value.host.value in ValidHosts
  }

  /** Every URI of a list passes the host check. */
  predicate AllTrusted(uris: seq<Option<Uri>>) {
    forall i :: 0 <= i < |uris| ==> HostOk(uris[i])
  }

  /** What the body of the `for` loop does with one URI. */
  function CheckHost(u: Option<Uri>): (o: Outcome<Error>)
    ensures o.Pass? <==> HostOk(u)
  {
    if u.None? then Fail(NullUri)
    else if u.value.host.None? then Fail(NullHost(u.value))
    else if u.value.host.value !in ValidHosts then Fail(UntrustedHost(u.value))
    else Pass
  }

  /** The scan of a non-null list: the first URI that fails stops it. */
  function HostScan(uris: seq<Option<Uri>>): (o: Outcome<Error>)
    ensures o.Fail? ==> o.error.UntrustedHost? || o.error.NullHost? || o.error.NullUri?
  {
    if uris == [] then Pass else Then(CheckHost(uris[0]), HostScan(uris[1..]))
  }

  /** `checkURIHostValidity(uris)`: a null list passes. */
  function HostValidation(uris: Option<seq<Option<Uri>>>): (o: Outcome<Error>)
    ensures uris.None? ==> o == Pass
    ensures o.Fail? ==> uris.Some? && (o.error.UntrustedHost? || o.error.NullHost? || o.error.NullUri?)
  {
    if uris.None? then Pass else HostScan(uris.value)
  }

  /** The scan passes exactly when every URI of the list is on an allowed host. */
  lemma {:induction false} HostScanPassIff(uris: seq<Option<Uri>>)
    ensures HostScan(uris).Pass? <==> AllTrusted(uris)
  {
    if uris != [] {
      HostScanPassIff(uris[1..]);
      if AllTrusted(uris[1..]) && HostOk(uris[0]) {
        forall i | 0 <= i < |uris| ensures HostOk(uris[i]) {
          if i > 0 { assert uris[i] == uris[1..][i - 1]; }
        }
      }
      if AllTrusted(uris) {
        forall i | 0 <= i < |uris[1..]| ensures HostOk(uris[1..][i]) {
          assert uris[1..][i] == uris[i + 1];
        }
      }
    }
  }

  /** The scan reports the first URI in list order that fails, and how it fails. */
  lemma {:induction false} HostScanReportsFirstBad(uris: seq<Option<Uri>>, i: nat)
    requires i < |uris| && !HostOk(uris[i])
    requires forall j :: 0 <= j < i ==> HostOk(uris[j])
    ensures HostScan(uris).Fail? && HostScan(uris) == CheckHost(uris[i])
  {
    if i > 0 {
      forall j | 0 <= j < i - 1 ensures HostOk(uris[1..][j]) {
        assert uris[1..][j] == uris[j + 1];
      }
      HostScanReportsFirstBad(uris[1..], i - 1);
    }
  }

  /** A list fails only through one of its own URIs (which kinds of failure, `HostScan` itself states). */
  lemma {:induction false} HostScanFailureKinds(uris: seq<Option<Uri>>)
    ensures HostScan(uris).Fail? ==>
              exists i :: 0 <= i < |uris| && HostScan(uris) == CheckHost(uris[i])
  {
    if uris != [] && CheckHost(uris[0]).Pass? {
      HostScanFailureKinds(uris[1..]);
      if HostScan(uris).Fail? {
        var i :| 0 <= i < |uris[1..]| && HostScan(uris[1..]) == CheckHost(uris[1..][i]);
        assert uris[1..][i] == uris[i + 1];
      }
    }
  }

  /** No partial acceptance: one bad URI anywhere fails the whole list. */
  lemma NoPartialAcceptance(uris: seq<Option<Uri>>, i: nat)
    requires i < |uris| && !HostOk(uris[i])
    ensures HostScan(uris).Fail?
  {
    HostScanPassIff(uris);
  }

  /** A null list and an empty list are alike, and a stored list is checked as it is. */
  lemma HostValidationNullAsEmpty(uris: Option<seq<Option<Uri>>>)
    ensures HostValidation(uris) == HostScan(OrEmpty(uris))
    ensures HostValidation(uris).Pass? <==> AllTrusted(OrEmpty(uris))
  {
    HostScanPassIff(OrEmpty(uris));
  }

  /**
   * Matching is exact membership: a URI with a host passes the check iff its
   * host equals one of the three, and look-alike, subdomain, parent-domain
   * and differently-cased hosts fail as untrusted.
   */
  lemma ExactHostMatch(spelling: string, h: string)
    ensures CheckHost(Some(Uri(spelling, Some(h)))).Pass? <==>
              h == "github.com" || h == "maven.scijava.org" || h == "repo1.maven.org"
    ensures var u := Uri(spelling, Some("github.com.evil.example")); CheckHost(Some(u)) == Fail(UntrustedHost(u))
    ensures var u := Uri(spelling, Some("api.github.com")); CheckHost(Some(u)) == Fail(UntrustedHost(u))
    ensures var u := Uri(spelling, Some("GitHub.com")); CheckHost(Some(u)) == Fail(UntrustedHost(u))
    ensures var u := Uri(spelling, Some("scijava.org")); CheckHost(Some(u)) == Fail(UntrustedHost(u))
  {
  }

  /** A list with one allowed and one untrusted URI fails, naming the untrusted one. */
  lemma MixedListFails()
    ensures var good := Uri("https://github.com/a/b.jar", Some("github.com"));
            var bad := Uri("https://github.com.evil.example/b.jar", Some("github.com.evil.example"));
            HostScan([Some(good), Some(bad)]) == Fail(UntrustedHost(bad))
  {
    var good := Uri("https://github.com/a/b.jar", Some("github.com"));
    var bad := Uri("https://github.com.evil.example/b.jar", Some("github.com.evil.example"));
    ExactHostMatch(bad.spelling, "github.com.evil.example");
    HostScanReportsFirstBad([Some(good), Some(bad)], 1);
  }

  /** `checkURIHostValidity`: the `for` scan over the list with an early exit. */
  method CheckUriHostValidity(uris: Option<seq<Option<Uri>>>) returns (o: Outcome<Error>)
    ensures o == HostValidation(uris)
  {
    if uris.None? {
      return Pass;
    }
    var list := uris.value;
    var i := 0;
    while i < |list|
      invariant 0 <= i <= |list|
      invariant HostScan(list) == HostScan(list[i..])
    {
      assert list[i..][1..] == list[i + 1..];
      var u := list[i];
      if u.None? {
        return Fail(NullUri);
      }
      if u.value.host.None? {
        return Fail(NullHost(u.value));
      }
      if u.value.host.value !in ValidHosts {
        return Fail(UntrustedHost(u.value));
      }
      i := i + 1;
    }
    assert list[i..] == [];
    return Pass;
  }

  // ---------------------------------------------------------------------------
  // checkValidity

  /** What `checkValidity()` does: the checks in source order, the first failure wins. */
  function Validation(env: Oracles, r: Release): (o: Outcome<Error>)
    ensures o.Pass? ==> IsPresent(r.name) && IsPresent(r.mainUrl) && IsPresent(r.versions)
    ensures o.Pass? ==> env.versionRangeValid(r.versions.value) && env.isGithubUri(r.mainUrl.value)
    ensures o.Fail? ==> !o.error.NullRelease?
  {
    var presence := Then(CheckField(r.name, "name", "Release"),
                    Then(CheckField(r.mainUrl, "mainUrl", "Release"),
                         CheckField(r.versions, "versions", "Release")));
    if presence.Fail? then presence
    else if !env.versionRangeValid(r.versions.value) then Fail(InvalidVersions)
    else if !env.isGithubUri(r.mainUrl.value) then Fail(NotGithub(r.mainUrl.value))
    else Then(HostValidation(r.requiredDependencyUrls),
         Then(HostValidation(r.optionalDependencyUrls),
              HostValidation(r.javadocsUrls)))
  }

  /** The reference definition of a valid release, stated on the accessors. */
  predicate Valid(env: Oracles, r: Release) {
    && IsPresent(r.name) && IsPresent(r.mainUrl) && IsPresent(r.versions)
    && env.versionRangeValid(r.versions.value)
    && env.isGithubUri(r.mainUrl.value)
    && AllTrusted(RequiredDependencyUrls(r))
    && AllTrusted(OptionalDependencyUrls(r))
    && AllTrusted(JavadocsUrls(r))
  }

  /** Validation passes exactly on valid releases: it is the conjunction of all its checks. */
  lemma ValidationPassIffValid(env: Oracles, r: Release)
    ensures Validation(env, r).Pass? <==> Valid(env, r)
  {
    HostValidationNullAsEmpty(r.requiredDependencyUrls);
    HostValidationNullAsEmpty(r.optionalDependencyUrls);
    HostValidationNullAsEmpty(r.javadocsUrls);
  }

  /**
   * The presence checks come first, in the order name, mainUrl, versions; so a
   * null `versions` is reported as missing and never reaches its own check.
   */
  lemma PresenceCheckedFirst(env: Oracles, r: Release)
    ensures r.name.None? ==> Validation(env, r) == Fail(MissingField("Release", "name"))
    ensures r.name.Some? && r.mainUrl.None? ==> Validation(env, r) == Fail(MissingField("Release", "mainUrl"))
    ensures r.name.Some? && r.mainUrl.Some? && r.versions.None? ==>
              Validation(env, r) == Fail(MissingField("Release", "versions"))
    ensures Validation(env, r).Fail? && Validation(env, r).error.MissingField? ==>
              !(IsPresent(r.name) && IsPresent(r.mainUrl) && IsPresent(r.versions))
  {
    HostScanFailureKinds(OrEmpty(r.requiredDependencyUrls));
    HostScanFailureKinds(OrEmpty(r.optionalDependencyUrls));
    HostScanFailureKinds(OrEmpty(r.javadocsUrls));
  }

  /** An invalid version range is reported before anything about the URLs. */
  lemma VersionsCheckedBeforeUrls(env: Oracles, r: Release)
    requires IsPresent(r.name) && IsPresent(r.mainUrl) && IsPresent(r.versions)
    requires !env.versionRangeValid(r.versions.value)
    ensures Validation(env, r) == Fail(InvalidVersions)
  {
  }

  /**
   * The main URL must pass the GitHub check, whatever its host: being on
   * one of `ValidHosts` does not help it.
   */
  lemma MainUrlMustBeGithub(env: Oracles, r: Release)
    requires IsPresent(r.name) && IsPresent(r.mainUrl) && IsPresent(r.versions)
    requires env.versionRangeValid(r.versions.value)
    requires !env.isGithubUri(r.mainUrl.value)
    ensures Validation(env, r) == Fail(NotGithub(r.mainUrl.value))
    ensures !Valid(env, r)
  {
  }

  /** Once the main checks pass, the lists are checked in the order required, optional, javadocs. */
  lemma UrlListsCheckedInOrder(env: Oracles, r: Release)
    requires IsPresent(r.name) && IsPresent(r.mainUrl) && IsPresent(r.versions)
    requires env.versionRangeValid(r.versions.value) && env.isGithubUri(r.mainUrl.value)
    ensures HostValidation(r.requiredDependencyUrls).Fail? ==>
              Validation(env, r) == HostValidation(r.requiredDependencyUrls)
    ensures HostValidation(r.requiredDependencyUrls).Pass? && HostValidation(r.optionalDependencyUrls).Fail? ==>
              Validation(env, r) == HostValidation(r.optionalDependencyUrls)
    ensures HostValidation(r.requiredDependencyUrls).Pass? && HostValidation(r.optionalDependencyUrls).Pass? ==>
              Validation(env, r) == HostValidation(r.javadocsUrls)
  {
  }

  /** `checkValidity()`: the straight-line checks, each list scanned by `CheckUriHostValidity`. */
  method CheckValidity(env: Oracles, r: Release) returns (o: Outcome<Error>)
    ensures o == Validation(env, r)
    ensures o.Pass? <==> Valid(env, r)
  {
    ValidationPassIffValid(env, r);
    if r.name.None? {
      return Fail(MissingField("Release", "name"));
    }
    if r.mainUrl.None? {
      return Fail(MissingField("Release", "mainUrl"));
    }
    if r.versions.None? {
      return Fail(MissingField("Release", "versions"));
    }
    if !env.versionRangeValid(r.versions.value) {
      return Fail(InvalidVersions);
    }
    if !env.isGithubUri(r.mainUrl.value) {
      return Fail(NotGithub(r.mainUrl.value));
    }
    o := CheckUriHostValidity(r.requiredDependencyUrls);
    if o.Fail? {
      return;
    }
    o := CheckUriHostValidity(r.optionalDependencyUrls);
    if o.Fail? {
      return;
    }
    o := CheckUriHostValidity(r.javadocsUrls);
  }

  // ---------------------------------------------------------------------------
  // The constructor

  /** The canonical constructor: store the six components, then run `checkValidity()`. */
  function NewRelease(
    env: Oracles,
    name: Option<string>,
    mainUrl: Option<Uri>,
    requiredDependencyUrls: Option<seq<Option<Uri>>>,
    optionalDependencyUrls: Option<seq<Option<Uri>>>,
    javadocsUrls: Option<seq<Option<Uri>>>,
    versions: Option<VersionRange>
  ): (res: Result<Release, Error>)
    ensures var r := Release(name, mainUrl, requiredDependencyUrls, optionalDependencyUrls, javadocsUrls, versions);
            && (res.Success? <==> Valid(env, r))
            && (res.Success? ==> res.value == r)
            && (res.Failure? ==> Validation(env, r) == Fail(res.error))
  {
    var r := Release(name, mainUrl, requiredDependencyUrls, optionalDependencyUrls, javadocsUrls, versions);
    ValidationPassIffValid(env, r);
    var o := Validation(env, r);
    if o.Fail? then Failure(o.error) else Success(r)
  }

  /** A release that was built is valid, and checking it again never fails. */
  lemma ConstructedReleaseRevalidates(
    env: Oracles,
    name: Option<string>,
    mainUrl: Option<Uri>,
    requiredDependencyUrls: Option<seq<Option<Uri>>>,
    optionalDependencyUrls: Option<seq<Option<Uri>>>,
    javadocsUrls: Option<seq<Option<Uri>>>,
    versions: Option<VersionRange>,
    r: Release
  )
    requires NewRelease(env, name, mainUrl, requiredDependencyUrls, optionalDependencyUrls, javadocsUrls, versions) == Success(r)
    ensures Valid(env, r) && Validation(env, r) == Pass
    ensures NewRelease(env, r.name, r.mainUrl, r.requiredDependencyUrls, r.optionalDependencyUrls, r.javadocsUrls, r.versions) == Success(r)
  {
    ValidationPassIffValid(env, r);
  }
}
