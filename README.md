# Extension index entry validation — a Dafny model

QuPath's extension manager reads a remote catalog (the "index") of extensions.
Each extension has a name, a description, a GitHub homepage and a list of
releases. Each release has a name, a main jar URL, three lists of dependency
and javadoc URLs, and a version range. In the Java code, `Extension` and `Release`
are records whose constructors store their fields and then call `checkValidity()`.
That method throws on the first check that fails, so an object that gets built
has passed every check. Those checks are the trust boundary of the extension manager:
the main jar and the homepage must be on GitHub, and every other download URL must be
on a host that is *exactly* one of `github.com`, `maven.scijava.org` or `repo1.maven.org`.

The model, in four modules:

- `Wrappers` (`wrappers.dfy`): `Option` stands for a Java reference that may be `null`.
  `Outcome` is a check that returns or throws. `Result` is a constructor that builds
  a value or throws.
- `Utils` (`utils.dfy`): `Uri` is a URI modelled by its written form and its `getHost()`,
  which may be null. `Error` records which check threw. The checks whose code is not
  part of this model are bundled as `Oracles`.
- `IndexRelease` (`release.dfy`): the `Release` record, its accessors, `VALID_HOSTS`,
  `checkURIHostValidity`, `checkValidity` and the constructor.
- `IndexExtension` (`extension.dfy`): the `Extension` record, `checkValidity`
  (which cascades into every release) and the constructor.

Each `checkValidity` is modelled twice. `Validation` is a function that returns the
first failure in source order. `Valid` is a separate reference predicate: the
conjunction of all the checks. The lemma `ValidationPassIffValid` proves the two agree.
The two Java `for` loops become `while` loops in two methods.
`IndexRelease.CheckUriHostValidity` is proved to return exactly what the list check
`HostValidation` returns. `IndexExtension.CheckValidity` is proved to return exactly what
the extension's `Validation` returns. Each constructor becomes a smart constructor
(`NewRelease`, `NewExtension`). It returns the record with its fields unchanged when the
record is valid, and otherwise the error that `checkValidity()` would throw.

Modelling decisions:

- **Abstract checks.** The code of `Utils.checkGithubURI`, `Utils.checkGithubURL` and
  `VersionRange.checkValidity` is not part of this model. They are the three function
  fields of `Oracles`, and every result holds for every choice of them. `VersionRange`
  is an abstract type.
- **`Utils.checkField`.** Its code is not part of this model either. It is taken to fail
  exactly when the field is null, which matches the "must be defined" wording of
  `Release.checkValidity`'s documentation (`IsPresent`, `CheckField`).
- **Null values.** Every null the code can meet is modelled: a null field, a null list,
  a null list element and a null host. `VALID_HOSTS` is a `List.of(..)`, and its
  `contains(null)` throws `NullPointerException`. So a URI without a host fails with
  `NullHost`, not with the documented `IllegalStateException`. In the same way, a null
  URI fails with `NullUri` and a null release with `NullRelease`. Every one of these
  still rejects the entry.
- **Check order in `Extension.checkValidity`.** The code checks every release first and
  the homepage afterwards (`Extension.java` lines 47-51). The model follows the code:
  an invalid release is reported in preference to a homepage that is not on GitHub.
- **Release type.** `Extension.java` uses a `Release` type of its own package, which
  is not part of this model. The model uses `IndexRelease.Release` and its validity
  for it.
- **State.** The Java records are only shallowly immutable. Their components cannot
  be reassigned, but the constructors store the caller's `List` objects without
  copying them (Release.java lines 51-53, Extension.java line 31). The model holds
  every list as an immutable sequence, so it describes a record whose lists nobody
  changes after construction. For such a record, `checkValidity()` changes nothing.
  A second call passes on any record that was built, provided the three checks whose code
  is not part of this model give the same answer again
  (`ConstructedReleaseRevalidates`, `ConstructedExtensionRevalidates`).

## Data

| declaration | source | what it is |
|---|---|---|
| `IndexRelease.ValidHosts` | extensionmanager/src/main/java/qupath/ext/extensionmanager/core/index/model/Release.java:27 | `VALID_HOSTS`: the three allowed hosts, in source order |
| `IndexRelease.Release` | extensionmanager/src/main/java/qupath/ext/extensionmanager/core/index/model/Release.java:19-26 | the record's six components, each possibly null; the URI lists may hold null elements |
| `IndexExtension.Extension` | src/main/java/qupath/ext/extensionmanager/core/indexmodel/Extension.java:16 | the record's four components, each possibly null; the release list may hold null elements |

## Model

| member | source | states |
|---|---|---|
| `IndexRelease.RequiredDependencyUrls` | extensionmanager/src/main/java/qupath/ext/extensionmanager/core/index/model/Release.java:59-62 | the empty list when the stored list is null, otherwise the stored list itself |
| `IndexRelease.OptionalDependencyUrls` | extensionmanager/src/main/java/qupath/ext/extensionmanager/core/index/model/Release.java:64-67 | the empty list when the stored list is null, otherwise the stored list itself |
| `IndexRelease.JavadocsUrls` | extensionmanager/src/main/java/qupath/ext/extensionmanager/core/index/model/Release.java:69-72 | the empty list when the stored list is null, otherwise the stored list itself |
| `IndexRelease.ExactHostMatch` | extensionmanager/src/main/java/qupath/ext/extensionmanager/core/index/model/Release.java:101 | a URI with a host passes the host check iff the host equals one of the three hosts; look-alike, subdomain, parent-domain and differently-cased hosts fail as untrusted |
| `IndexRelease.CheckHost` | extensionmanager/src/main/java/qupath/ext/extensionmanager/core/index/model/Release.java:100-105 | one URI passes iff it is non-null and its host is non-null and in `VALID_HOSTS` |
| `IndexRelease.HostScanPassIff` | extensionmanager/src/main/java/qupath/ext/extensionmanager/core/index/model/Release.java:98-108 | scanning a list passes iff every URI in it is on an allowed host |
| `IndexRelease.HostScanReportsFirstBad` | extensionmanager/src/main/java/qupath/ext/extensionmanager/core/index/model/Release.java:100-105 | the failure reported is that of the first bad URI in list order |
| `IndexRelease.HostScanFailureKinds` | extensionmanager/src/main/java/qupath/ext/extensionmanager/core/index/model/Release.java:100-105 | a failing list's failure is the host check's failure on one of its own URIs |
| `IndexRelease.NoPartialAcceptance` | extensionmanager/src/main/java/qupath/ext/extensionmanager/core/index/model/Release.java:100-105 | one bad URI anywhere in a list fails the whole list |
| `IndexRelease.MixedListFails` | extensionmanager/src/main/java/qupath/ext/extensionmanager/core/index/model/Release.java:100-105 | a list holding a `github.com` URI and a `github.com.evil.example` URI fails, naming the second |
| `IndexRelease.HostValidationNullAsEmpty` | extensionmanager/src/main/java/qupath/ext/extensionmanager/core/index/model/Release.java:98-99 | a null list is checked as the empty list and passes; a stored list is checked as it is |
| `IndexRelease.HostScan` | extensionmanager/src/main/java/qupath/ext/extensionmanager/core/index/model/Release.java:100-106 | definition: checks each URI in list order, the first failure wins; a failure is always an untrusted host, a null host or a null URI |
| `IndexRelease.HostValidation` | extensionmanager/src/main/java/qupath/ext/extensionmanager/core/index/model/Release.java:98-108 | definition of `checkURIHostValidity`: a null list passes, any other list is scanned; a failure happens only on a non-null list and is host-related |
| `IndexRelease.CheckUriHostValidity` | extensionmanager/src/main/java/qupath/ext/extensionmanager/core/index/model/Release.java:98-108 | the loop with early exit returns exactly the first-failure result of the list scan |
| `IndexRelease.Validation` | extensionmanager/src/main/java/qupath/ext/extensionmanager/core/index/model/Release.java:84-96 | definition of `checkValidity()`: the checks in source order, the first failure wins; passing implies the three fields present, a valid range and a GitHub main URL; a release never reports a null release |
| `IndexRelease.ValidationPassIffValid` | extensionmanager/src/main/java/qupath/ext/extensionmanager/core/index/model/Release.java:74-96 | validation passes iff all three fields are present, the range is valid, the main URL is GitHub and all three lists are on allowed hosts |
| `IndexRelease.PresenceCheckedFirst` | extensionmanager/src/main/java/qupath/ext/extensionmanager/core/index/model/Release.java:85-89 | a null name, main URL or versions fails with that field's missing-field error, in that order, before every other check; a missing-field error means some field is null |
| `IndexRelease.VersionsCheckedBeforeUrls` | extensionmanager/src/main/java/qupath/ext/extensionmanager/core/index/model/Release.java:89-95 | with all fields present, an invalid version range fails with the range error, whatever the URLs are |
| `IndexRelease.MainUrlMustBeGithub` | extensionmanager/src/main/java/qupath/ext/extensionmanager/core/index/model/Release.java:91 | a main URL that fails the GitHub check fails the release, whatever its host, even one in `VALID_HOSTS` |
| `IndexRelease.UrlListsCheckedInOrder` | extensionmanager/src/main/java/qupath/ext/extensionmanager/core/index/model/Release.java:93-95 | after the main checks, the result is the first failure among the required, optional and javadoc lists, in that order |
| `IndexRelease.CheckValidity` | extensionmanager/src/main/java/qupath/ext/extensionmanager/core/index/model/Release.java:84-96 | the method returns the first-failure result of all checks, and passes iff the release is valid |
| `IndexRelease.NewRelease` | extensionmanager/src/main/java/qupath/ext/extensionmanager/core/index/model/Release.java:41-57 | construction succeeds iff the record is valid; on success the fields are stored unchanged; on failure the error is the one validation throws |
| `IndexRelease.ConstructedReleaseRevalidates` | extensionmanager/src/main/java/qupath/ext/extensionmanager/core/index/model/Release.java:41-57 | a built release is valid, checking it again passes, and rebuilding it from its own fields gives the same release |
| `Utils.CheckField` | extensionmanager/src/main/java/qupath/ext/extensionmanager/core/index/model/Release.java:85-87 | passes iff the field is non-null; otherwise fails with a missing-field error naming the object type and the field |
| `IndexExtension.CheckRelease` | src/main/java/qupath/ext/extensionmanager/core/indexmodel/Extension.java:47-49 | one release entry passes iff it is non-null and a valid release |
| `IndexExtension.ReleasesValidation` | src/main/java/qupath/ext/extensionmanager/core/indexmodel/Extension.java:47-49 | definition of the release loop: each release in list order, the first failure wins; a failure is the failure of one of the releases |
| `IndexExtension.ReleasesValidationPassIff` | src/main/java/qupath/ext/extensionmanager/core/indexmodel/Extension.java:47-49 | the loop over releases passes iff every release is valid; the empty list passes |
| `IndexExtension.FirstInvalidReleaseReported` | src/main/java/qupath/ext/extensionmanager/core/indexmodel/Extension.java:47-49 | the failure reported is that of the first invalid release in list order |
| `IndexExtension.Validation` | src/main/java/qupath/ext/extensionmanager/core/indexmodel/Extension.java:41-52 | definition of `checkValidity()`: presence checks, then the releases, then the homepage, the first failure wins; passing implies the four fields present and a GitHub homepage |
| `IndexExtension.ValidationPassIffValid` | src/main/java/qupath/ext/extensionmanager/core/indexmodel/Extension.java:41-52 | validation passes iff all four fields are present, every release is valid and the homepage is GitHub |
| `IndexExtension.PresenceCheckedFirst` | src/main/java/qupath/ext/extensionmanager/core/indexmodel/Extension.java:42-45 | a null name, description, homepage or versions fails with that field's missing-field error, in that order, before every other check |
| `IndexExtension.EmptyVersionsPass` | src/main/java/qupath/ext/extensionmanager/core/indexmodel/Extension.java:45-51 | with the fields present and no releases, the extension is valid iff its homepage is GitHub |
| `IndexExtension.InvalidReleaseReportedBeforeHomepage` | src/main/java/qupath/ext/extensionmanager/core/indexmodel/Extension.java:47-51 | the first invalid release's failure is the extension's failure, even when the homepage would fail too |
| `IndexExtension.HomepageMustBeGithub` | src/main/java/qupath/ext/extensionmanager/core/indexmodel/Extension.java:51 | with all releases valid, a homepage that fails the GitHub check fails the extension with that error |
| `IndexExtension.CheckValidity` | src/main/java/qupath/ext/extensionmanager/core/indexmodel/Extension.java:41-52 | the method with its loop over releases returns the first-failure result of all checks, and passes iff the extension is valid |
| `IndexExtension.NewExtension` | src/main/java/qupath/ext/extensionmanager/core/indexmodel/Extension.java:27-34 | construction succeeds iff the record is valid; on success the fields are stored unchanged; on failure the error is the one validation throws |
| `IndexExtension.ConstructedExtensionRevalidates` | src/main/java/qupath/ext/extensionmanager/core/indexmodel/Extension.java:27-52 | a built extension is valid, checking it again passes, and each of its releases is non-null and passes its own validation |

## Left out

- `Utils.checkGithubURI`, `Utils.checkGithubURL`, `VersionRange.checkValidity`: their code is not part of this model. They are uninterpreted parameters. So nothing is proved about which hosts count as GitHub, and a main URL on an untrusted host is only known to fail through that parameter.
- `Utils.CheckField`: the check for a missing field is taken to be a null check. Its code is not part of this model.
- `VersionRange` fields, version ordering, range containment and release selection: none of this code is in the files modelled.
- `java.net.URI`/`URL` parsing and `getHost()`: these are library calls. A URI is a value that carries its host.
- Exception messages (`String.format`, Release.java lines 102-104): the model records which check failed and which URI it failed on, not the message text.
- `ManuallyInstalledExtensionLine.java` (JavaFX, dialogs, file deletion, logging) and `build.gradle.kts` (build configuration): UI, I/O and build files with no validation logic.
- ConstructedReleaseRevalidates, ConstructedExtensionRevalidates: re-checking is proved only for a record whose lists are left unchanged after construction. A caller that keeps a reference to a mutable list it passed in (a dependency or javadoc URI list, or an extension's `versions`) can change it later. It can add an untrusted URI, a null element or an invalid release, and then `checkValidity()` throws on the built record. Such changes are not modelled, because the model's lists are immutable sequences with no aliasing. Re-checking also assumes that `VersionRange.checkValidity`, `Utils.checkGithubURI` and `Utils.checkGithubURL` give the same answer on a second call with the same object. Their code is not part of this model, and the model makes each of them a fixed function of `Oracles`.
- Concurrency: a `ConcurrentModificationException` from a list changed during one of the `for` scans is not modelled, for the same reason. Apart from those shared lists, and whatever a `VersionRange` holds (its code is not part of this model), the records hold no mutable state.
