# Groups Require All — a Dafny model

Groups Require All is a WordPress plugin that changes how the Groups
plugin decides read access to a post. Groups grants access when the user
holds ANY of the post's read capabilities; this plugin hooks
`groups_post_access_user_can_read_post` and grants access only when the
user holds ALL of them. Around that one predicate sit two pieces of
lifecycle bookkeeping: a dependency gate (`is_groups_active`) that keeps
the plugin from loading unless Groups is active, and a version-gated
`install`/`upgrade` that records the installed version in an option.

The model has four modules:

- `AllOfAccess` (access.dfy): the filter `groups_require_all` as a method
  over the post's read capabilities (`seq<string>`) and the user's
  capability check (a function `string -> bool`), with a ghost trace of
  every capability the check is asked about. Its reference meanings are
  `AllHeld` (every capability is held), `FirstLacking` (index of the first
  capability not held) and `Trace` (the checks a short-circuiting
  left-to-right walk makes).
- `PhpArrays` (php_arrays.dfy): PHP ordered arrays as sequences of
  key/value entries, and `array_merge` (integer keys renumbered from 0,
  string keys overwriting in place).
- `DependencyGate` (dependency.dfy): `is_groups_active`, including the
  `(array)` cast of the `active_plugins` option and the loose comparison of
  `in_array`.
- `Lifecycle` (lifecycle.dfy): `version_compare` on numeric versions,
  `install`, `upgrade`, and the admin-only call of `install` in the
  constructor, over an option store `map<string, Version>`.

Inputs standing in for the host: the read-capability list the Groups
plugin computes for a post, the user's capability check, the
`active_plugins` and `active_sitewide_plugins` option values,
`is_multisite()`, `is_admin()`, the `DOING_AJAX` flag, and the option store.

The override is unconditional: for a post with no read capabilities
`groups_require_all` still returns `true`, so the host's own decision is
replaced for every post, not only for the posts with selected groups that
the plugin header's `Description:` line (groups-require-all.php, line 5)
speaks of. The model follows the code.

## Model

| member | source | states |
|---|---|---|
| AllOfAccess.GroupsRequireAll | groups-require-all/groups-require-all.php:79-95 | Access is granted iff the user check holds for every read capability; an empty list grants access with no check made; the incoming `$result` has no influence; the checks made are the list up to and including the first failing capability, in order, or the whole list (duplicates included) when none fails |
| AllOfAccess.FirstLacking | groups-require-all/groups-require-all.php:85-89 | The index where the walk stops: every capability before it is held and the one at it (if any) is not |
| AllOfAccess.AllHeldIffNoneLacking | groups-require-all/groups-require-all.php:83-94 | All capabilities are held exactly when the walk reaches the end of the list without a failure |
| AllOfAccess.TraceIsPrefixToFirstLacking | groups-require-all/groups-require-all.php:85-91 | The short-circuit walk checks exactly `caps[..k+1]` when `k` is the first lacking index, and the whole list otherwise |
| AllOfAccess.AllHeldPermutationInvariant | groups-require-all/groups-require-all.php:83-94 | Permuting the read capabilities never changes the decision |
| AllOfAccess.PermutationReordersChecks | groups-require-all/groups-require-all.php:85-91 | When every capability is held, a permuted list is checked as the same multiset of capabilities |
| AllOfAccess.PermutationCanChangeChecks | groups-require-all/groups-require-all.php:85-89 | When a capability is lacking, the order decides which capabilities are checked before the return |
| PhpArrays.ArrayMerge | groups-require-all/groups-require-all.php:26 | `array_merge` renumbers the integer-keyed entries of both arguments to exactly the keys 0 .. n-1, n being their number, and every string-keyed entry of a proper second argument appears in the result with the second argument's value |
| PhpArrays.ArrayMergeKeysAndValues | groups-require-all/groups-require-all.php:26 | `array_merge` yields an array without repeated keys whose string keys are exactly those of its arguments and whose values all come from its arguments |
| PhpArrays.ArrayMergeKeepsValues | groups-require-all/groups-require-all.php:26 | When no string key occurs twice across both arguments, the merged values are the first argument's values followed by the second's |
| DependencyGate.CastMentions | groups-require-all/groups-require-all.php:24 | After the `(array)` cast of `get_option('active_plugins', array())`, a missing option mentions nothing, a stored scalar mentions Groups exactly when it loosely equals `groups/groups.php`, and a stored array is searched as it is |
| DependencyGate.LooselyEqualsGroupsFile | groups-require-all/groups-require-all.php:28 | Under `in_array`'s loose comparison exactly two values equal `groups/groups.php`: that string and `true` |
| DependencyGate.InArray | groups-require-all/groups-require-all.php:28 | `in_array('groups/groups.php', a)` holds exactly when one of the array's values loosely equals the plugin file |
| DependencyGate.IsGroupsActive | groups-require-all/groups-require-all.php:23-29 | The gate always passes when `groups/groups.php` is a key of the active plugins, or on multisite a key of the sitewide plugins, with no condition on the rest of the arrays |
| DependencyGate.GroupsActiveSound | groups-require-all/groups-require-all.php:23-28 | The gate passes only if `groups/groups.php` is a value or key of the active plugins, or (on multisite) of the sitewide plugins |
| DependencyGate.GroupsActiveComplete | groups-require-all/groups-require-all.php:23-28 | A mention of `groups/groups.php` as a value or key in either option makes the gate pass, provided no string key is shared between the merged arrays (`OverwriteHidesMention` shows why a value mention needs this; key mentions need no condition, see `IsGroupsActive`) |
| DependencyGate.SingleSiteIgnoresSitewide | groups-require-all/groups-require-all.php:24-28 | Off multisite the sitewide option is never consulted and the gate searches the active plugins alone |
| DependencyGate.StoredTruePassesGate | groups-require-all/groups-require-all.php:24-28 | Because `in_array` compares loosely, an `active_plugins` option holding `true` passes the gate |
| DependencyGate.OverwriteHidesMention | groups-require-all/groups-require-all.php:26-28 | A mention stored under a string key that the sitewide map reuses is lost in `array_merge` and the gate fails |
| Lifecycle.VersionCompare | groups-require-all/groups-require-all.php:145 | `version_compare` returns -1, 0 or 1, and 0 exactly for equal versions |
| Lifecycle.VersionCompareAntisymmetric | groups-require-all/groups-require-all.php:145 | Swapping the arguments of `version_compare` negates the result |
| Lifecycle.VersionBelowTransitive | groups-require-all/groups-require-all.php:145 | "compares below" is transitive |
| Lifecycle.VersionOrderTotal | groups-require-all/groups-require-all.php:145 | Any two versions are equal or one compares below the other |
| Lifecycle.EmptyVersionIsBottom | groups-require-all/groups-require-all.php:136-145 | The missing (empty) version compares below every non-empty version and only those |
| Lifecycle.InstalledVersion | groups-require-all/groups-require-all.php:136 | The stored version is read back as stored; a missing option reads as a version below every non-empty version |
| Lifecycle.Upgrade | groups-require-all/groups-require-all.php:155-159 | After `upgrade` the recorded version is `VERSION`; every other option is unchanged |
| Lifecycle.Install | groups-require-all/groups-require-all.php:133-147 | `install` upgrades iff the recorded version compares below `VERSION`, so always when no version is recorded, and otherwise changes nothing |
| Lifecycle.InstallReachesPluginVersion | groups-require-all/groups-require-all.php:144-146 | After `install` the recorded version is at least `VERSION` and never below what was recorded before (a newer recorded version is kept) |
| Lifecycle.InstallIdempotent | groups-require-all/groups-require-all.php:133-159 | A second `install` neither upgrades nor changes any option |
| Lifecycle.OnConstruct | groups-require-all/groups-require-all.php:69-72 | On an admin, non-AJAX request the constructor's effect is exactly `install`: the recorded version ends at least `VERSION` and never below the one recorded before; any other request leaves the options untouched; in both cases no other option changes |

## Left out

- Hook registration (`add_action`, `add_filter`), the global plugin object and the early `return` when the gate fails: host dispatch with no behaviour of its own to state.
- `Groups_User::can` and `Groups_Post_Access::get_read_post_capabilities`: code of the Groups plugin, which is not part of this model; they are the function parameter `can` and the input list `readCaps`. The check is taken to be a pure function, so a check that raises an error is not modelled.
- `get_plugin_path` and `get_plugin_url`: memoising wrappers over WordPress path and URL helpers.
- `get_option`, `get_site_option`, `update_option`, `is_admin`, `is_multisite` and `DOING_AJAX`: inputs, or the `Options` map.
- The `active_sitewide_plugins` option is taken to be an array; `array_merge` of a non-array is not modelled.
- Array values are strings, integers, booleans and `null`; floats and nested arrays are not modelled.
- DependencyGate.LooselyEqualsGroupsFile: follows PHP 8's loose comparison; under PHP 7 an integer value 0 would also match `groups/groups.php`.
- Lifecycle.VersionCompare: covers numeric dot-separated versions only; `version_compare`'s parsing of strings, its special forms (`dev`, `alpha`, `RC`, `pl`, …) and leading zeros are not modelled.
- The empty "initial install" branch of `install`: it does nothing.
