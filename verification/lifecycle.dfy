/**
 * The version bookkeeping of Groups Require All: on every admin page load
 * `install` reads the stored `Groups_Require_All_version` option and, when
 * it ranks below the plugin's `VERSION`, `upgrade` writes `VERSION` back.
 *
 * Versions are their numeric dot-separated components ('1.0.0' is
 * [1, 0, 0]) and `version_compare` is the component-wise order on them in
 * which a proper prefix ranks lower ('1.0' < '1.0.0'). A missing option
 * reads as `false`, which `version_compare` treats as the empty version:
 * the empty sequence, below every other version.
 */
module Lifecycle {

  type Version = seq<nat>

  /** `Groups_Require_All::VERSION`, '1.0.0'. */
  const PluginVersion: Version := [1, 0, 0]

  /** The name of the option that records the installed version. */
  const VersionOption: string := "Groups_Require_All_version"

  /** The option store; only version-valued options matter here. */
  type Options = map<string, Version>

  /** `version_compare(a, b)` on numeric versions: -1, 0 or 1. */
  function VersionCompare(a: Version, b: Version): (c: int)
    ensures -1 <= c <= 1
    ensures c == 0 <==> a == b
    decreases |a|
  {
    if |a| == 0 && |b| == 0 then 0
    else if |a| == 0 then -1
    else if |b| == 0 then 1
    else if a[0] < b[0] then -1
    else if a[0] > b[0] then 1
    else
      var c := VersionCompare(a[1..], b[1..]);
      assert c == 0 ==> a == [a[0]] + a[1..] == [b[0]] + b[1..] == b;
      c
  }

  /** `version_compare(a, b) === -1` */
  predicate VersionBelow(a: Version, b: Version) {
    VersionCompare(a, b) == -1
  }

  lemma {:induction false} VersionCompareAntisymmetric(a: Version, b: Version)
    ensures VersionCompare(b, a) == -VersionCompare(a, b)
    decreases |a|
  {
    if |a| != 0 && |b| != 0 && a[0] == b[0] {
      VersionCompareAntisymmetric(a[1..], b[1..]);
    }
  }

  lemma {:induction false} VersionBelowTransitive(a: Version, b: Version, c: Version)
    requires VersionBelow(a, b) && VersionBelow(b, c)
    ensures VersionBelow(a, c)
    decreases |a|
  {
    if |a| != 0 && a[0] == b[0] && b[0] == c[0] {
      VersionBelowTransitive(a[1..], b[1..], c[1..]);
    }
  }

  /** Any two versions are ordered one way or the other, or equal. */
  lemma VersionOrderTotal(a: Version, b: Version)
    ensures VersionBelow(a, b) || a == b || VersionBelow(b, a)
  {
    VersionCompareAntisymmetric(a, b);
  }

  /** The empty (missing) version ranks below every other version. */
  lemma EmptyVersionIsBottom(v: Version)
    ensures v != [] <==> VersionBelow([], v)
  {
  }

  /** `get_option('Groups_Require_All_version')`, a missing option being the empty version. */
  function InstalledVersion(opts: Options): (v: Version)
    ensures VersionOption in opts ==> v == opts[VersionOption]
    ensures VersionOption !in opts ==> forall w: Version :: w != [] ==> VersionBelow(v, w)
  {
    if VersionOption in opts then opts[VersionOption] else []
  }

  /** `upgrade()`: records `VERSION` as installed; no other option changes. */
  function Upgrade(opts: Options): (r: Options)
    ensures InstalledVersion(r) == PluginVersion
    ensures r.Keys == opts.Keys + {VersionOption}
    ensures forall k :: k in opts && k != VersionOption ==> r[k] == opts[k]
  {
    opts[VersionOption := PluginVersion]
  }

  datatype InstallOutcome = InstallOutcome(options: Options, upgraded: bool)

  /** `install()`: upgrade exactly when the installed version ranks below `VERSION`. */
  function Install(opts: Options): (r: InstallOutcome)
    ensures r.upgraded <==> VersionBelow(InstalledVersion(opts), PluginVersion)
    ensures r.upgraded ==> r.options == Upgrade(opts)
    ensures !r.upgraded ==> r.options == opts
    ensures VersionOption !in opts ==> r.upgraded
  {
    if VersionBelow(InstalledVersion(opts), PluginVersion)
    then InstallOutcome(Upgrade(opts), true)
    else InstallOutcome(opts, false)
  }

  /**
   * After `install` the recorded version is never below `VERSION`, and it is
   * never below what was recorded before: a newer recorded version is kept.
   */
  lemma InstallReachesPluginVersion(opts: Options)
    ensures !VersionBelow(InstalledVersion(Install(opts).options), PluginVersion)
    ensures !VersionBelow(InstalledVersion(Install(opts).options), InstalledVersion(opts))
  {
    if Install(opts).upgraded {
      VersionCompareAntisymmetric(InstalledVersion(opts), PluginVersion);
    }
  }

  /** A second `install` neither upgrades nor changes any option. */
  lemma InstallIdempotent(opts: Options)
    ensures Install(Install(opts).options) == InstallOutcome(Install(opts).options, false)
  {
  }

  /**
   * The constructor runs `install` only on admin requests that are not AJAX
   * requests; any other request leaves the options untouched. Either way no
   * option other than the version changes and the version never goes down.
   */
  function OnConstruct(isAdmin: bool, doingAjax: bool, opts: Options): (r: Options)
    ensures !isAdmin || doingAjax ==> r == opts
    ensures isAdmin && !doingAjax ==> r == Install(opts).options
    ensures isAdmin && !doingAjax ==> !VersionBelow(InstalledVersion(r), PluginVersion)
    ensures isAdmin && !doingAjax ==> !VersionBelow(InstalledVersion(r), InstalledVersion(opts))
    ensures forall k :: k in opts && k != VersionOption ==> k in r && r[k] == opts[k]
  {
    InstallReachesPluginVersion(opts);
    if isAdmin && !doingAjax then Install(opts).options else opts
  }
}
