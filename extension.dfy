/**
 * `qupath.ext.extensionmanager.core.indexmodel.Extension`: an extension of the
 * catalog with its releases, validated when it is built; validation
 * cascades into every release.
 */
module IndexExtension {
  import opened Wrappers
  import opened Utils
  import IndexRelease

  /** The record's four components, each possibly null; so may be each release of `versions`. */
  datatype Extension = Extension(
    name: Option<string>,
    description: Option<string>,
    homepage: Option<Uri>,
    versions: Option<seq<Option<IndexRelease.Release>>>
  )

  /** What the body of the `for` loop does with one release: a null one throws. */
  function CheckRelease(env: Oracles, r: Option<IndexRelease.Release>): (o: Outcome<Error>)
    ensures o.Pass? <==> ReleaseOk(env, r)
  {
    if r.None? then Fail(NullRelease)
    else
      IndexRelease.ValidationPassIffValid(env, r.value);
      IndexRelease.Validation(env, r.value)
  }

  /** The one-release reference: non-null and valid as a release. */
  predicate ReleaseOk(env: Oracles, r: Option<IndexRelease.Release>) {
    r.Some? && IndexRelease.Valid(env, r.value)
  }

  /** Every release of a list is valid. */
  predicate AllReleasesOk(env: Oracles, releases: seq<Option<IndexRelease.Release>>) {
    forall i :: 0 <= i < |releases| ==> ReleaseOk(env, releases[i])
  }

  /** The loop over `versions`: the first release that fails stops it. */
  function ReleasesValidation(env: Oracles, releases: seq<Option<IndexRelease.Release>>): (o: Outcome<Error>)
    ensures o.Fail? ==> exists i :: 0 <= i < |releases| && o == CheckRelease(env, releases[i])
  {
    if releases == [] then Pass else Then(CheckRelease(env, releases[0]), ReleasesValidation(env, releases[1..]))
  }

  /** The loop passes exactly when every release is valid; an empty list passes. */
  lemma {:induction false} ReleasesValidationPassIff(env: Oracles, releases: seq<Option<IndexRelease.Release>>)
    ensures ReleasesValidation(env, releases).Pass? <==> AllReleasesOk(env, releases)
  {
    if releases != [] {
      ReleasesValidationPassIff(env, releases[1..]);
      if AllReleasesOk(env, releases[1..]) && ReleaseOk(env, releases[0]) {
        forall i | 0 <= i < |releases| ensures ReleaseOk(env, releases[i]) {
          if i > 0 { assert releases[i] == releases[1..][i - 1]; }
        }
      }
      if AllReleasesOk(env, releases) {
        forall i | 0 <= i < |releases[1..]| ensures ReleaseOk(env, releases[1..][i]) {
          assert releases[1..][i] == releases[i + 1];
        }
      }
    }
  }

  /** The loop reports the failure of the first invalid release in list order. */
  lemma {:induction false} FirstInvalidReleaseReported(env: Oracles, releases: seq<Option<IndexRelease.Release>>, i: nat)
    requires i < |releases| && !ReleaseOk(env, releases[i])
    requires forall j :: 0 <= j < i ==> ReleaseOk(env, releases[j])
    ensures ReleasesValidation(env, releases).Fail?
    ensures ReleasesValidation(env, releases) == CheckRelease(env, releases[i])
  {
    if i > 0 {
      forall j | 0 <= j < i - 1 ensures ReleaseOk(env, releases[1..][j]) {
        assert releases[1..][j] == releases[j + 1];
      }
      FirstInvalidReleaseReported(env, releases[1..], i - 1);
    }
  }

  /** What `checkValidity()` does: presence checks, then every release, then the homepage. */
  function Validation(env: Oracles, e: Extension): (o: Outcome<Error>)
    ensures o.Pass? ==> IsPresent(e.name) && IsPresent(e.description) && IsPresent(e.homepage) && IsPresent(e.versions)
    ensures o.Pass? ==> env.isGithubUrl(e.homepage.value)
  {
    var presence := Then(CheckField(e.name, "name", "Extension"),
                    Then(CheckField(e.description, "description", "Extension"),
                    Then(CheckField(e.homepage, "homepage", "Extension"),
                         CheckField(e.versions, "versions", "Extension"))));
    if presence.Fail? then presence
    else
      var releases := ReleasesValidation(env, e.versions.value);
      if releases.Fail? then releases
      else if !env.isGithubUrl(e.homepage.value) then Fail(NotGithub(e.homepage.value))
      else Pass
  }

  /** The reference definition of a valid extension. */
  predicate Valid(env: Oracles, e: Extension) {
    && IsPresent(e.name) && IsPresent(e.description) && IsPresent(e.homepage) && IsPresent(e.versions)
    && AllReleasesOk(env, e.versions.value)
    && env.isGithubUrl(e.homepage.value)
  }

  /** Validation passes exactly on valid extensions. */
  lemma ValidationPassIffValid(env: Oracles, e: Extension)
    ensures Validation(env, e).Pass? <==> Valid(env, e)
  {
    if e.versions.Some? {
      ReleasesValidationPassIff(env, e.versions.value);
    }
  }

  /** The presence checks come first, in the order name, description, homepage, versions. */
  lemma PresenceCheckedFirst(env: Oracles, e: Extension)
    ensures e.name.None? ==> Validation(env, e) == Fail(MissingField("Extension", "name"))
    ensures e.name.Some? && e.description.None? ==>
              Validation(env, e) == Fail(MissingField("Extension", "description"))
    ensures e.name.Some? && e.description.Some? && e.homepage.None? ==>
              Validation(env, e) == Fail(MissingField("Extension", "homepage"))
    ensures e.name.Some? && e.description.Some? && e.homepage.Some? && e.versions.None? ==>
              Validation(env, e) == Fail(MissingField("Extension", "versions"))
  {
  }

  /** With the four fields present and no releases, only the homepage check is left. */
  lemma EmptyVersionsPass(env: Oracles, e: Extension)
    requires IsPresent(e.name) && IsPresent(e.description) && IsPresent(e.homepage)
    requires e.versions == Some([])
    ensures Valid(env, e) <==> env.isGithubUrl(e.homepage.value)
    ensures Validation(env, e) == if env.isGithubUrl(e.homepage.value) then Pass else Fail(NotGithub(e.homepage.value))
  {
  }

  /**
   * An invalid release fails the extension with that release's failure, and
   * is reported in preference to a homepage that is not on GitHub.
   */
  lemma InvalidReleaseReportedBeforeHomepage(env: Oracles, e: Extension, i: nat)
    requires IsPresent(e.name) && IsPresent(e.description) && IsPresent(e.homepage) && IsPresent(e.versions)
    requires i < |e.versions.value| && !ReleaseOk(env, e.versions.value[i])
    requires forall j :: 0 <= j < i ==> ReleaseOk(env, e.versions.value[j])
    ensures Validation(env, e) == CheckRelease(env, e.versions.value[i])
    ensures Validation(env, e).Fail? && !Valid(env, e)
  {
    FirstInvalidReleaseReported(env, e.versions.value, i);
  }

  /** With every release valid, a homepage that is not on GitHub is what fails. */
  lemma HomepageMustBeGithub(env: Oracles, e: Extension)
    requires IsPresent(e.name) && IsPresent(e.description) && IsPresent(e.homepage) && IsPresent(e.versions)
    requires AllReleasesOk(env, e.versions.value)
    requires !env.isGithubUrl(e.homepage.value)
    ensures Validation(env, e) == Fail(NotGithub(e.homepage.value))
  {
    ReleasesValidationPassIff(env, e.versions.value);
  }

  /** `checkValidity()`: the presence checks, the `for` loop over the releases, the homepage check. */
  method CheckValidity(env: Oracles, e: Extension) returns (o: Outcome<Error>)
    ensures o == Validation(env, e)
    ensures o.Pass? <==> Valid(env, e)
  {
    ValidationPassIffValid(env, e);
    if e.name.None? {
      return Fail(MissingField("Extension", "name"));
    }
    if e.description.None? {
      return Fail(MissingField("Extension", "description"));
    }
    if e.homepage.None? {
      return Fail(MissingField("Extension", "homepage"));
    }
    if e.versions.None? {
      return Fail(MissingField("Extension", "versions"));
    }
    var releases := e.versions.value;
    var i := 0;
    while i < |releases|
      invariant 0 <= i <= |releases|
      invariant ReleasesValidation(env, releases) == ReleasesValidation(env, releases[i..])
    {
      assert releases[i..][1..] == releases[i + 1..];
      var version := releases[i];
      if version.None? {
        return Fail(NullRelease);
      }
      o := IndexRelease.CheckValidity(env, version.value);
      if o.Fail? {
        return;
      }
      i := i + 1;
    }
    assert releases[i..] == [];
    if !env.isGithubUrl(e.homepage.value) {
      return Fail(NotGithub(e.homepage.value));
    }
    return Pass;
  }

  /** The canonical constructor: store the four components, then run `checkValidity()`. */
  function NewExtension(
    env: Oracles,
    name: Option<string>,
    description: Option<string>,
    homepage: Option<Uri>,
    versions: Option<seq<Option<IndexRelease.Release>>>
  ): (res: Result<Extension, Error>)
    ensures var e := Extension(name, description, homepage, versions);
            && (res.Success? <==> Valid(env, e))
            && (res.Success? ==> res.value == e)
            && (res.Failure? ==> Validation(env, e) == Fail(res.error))
  {
    var e := Extension(name, description, homepage, versions);
    ValidationPassIffValid(env, e);
    var o := Validation(env, e);
    if o.Fail? then Failure(o.error) else Success(e)
  }

  /**
   * An extension that was built is valid, every one of its releases is a
   * release that builds, and checking the extension again never fails.
   */
  lemma ConstructedExtensionRevalidates(
    env: Oracles,
    name: Option<string>,
    description: Option<string>,
    homepage: Option<Uri>,
    versions: Option<seq<Option<IndexRelease.Release>>>,
    e: Extension
  )
    requires NewExtension(env, name, description, homepage, versions) == Success(e)
    ensures Valid(env, e) && Validation(env, e) == Pass
    ensures forall i :: 0 <= i < |e.versions.value| ==>
              e.versions.value[i].Some? && IndexRelease.Validation(env, e.versions.value[i].value) == Pass
  {
    ValidationPassIffValid(env, e);
    forall i | 0 <= i < |e.versions.value|
      ensures e.versions.value[i].Some? && IndexRelease.Validation(env, e.versions.value[i].value) == Pass
    {
      IndexRelease.ValidationPassIffValid(env, e.versions.value[i].value);
    }
  }
}
