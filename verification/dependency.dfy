/**
 * `is_groups_active`: the dependency gate that decides whether the plugin
 * loads at all. It reads the `active_plugins` option (a list of plugin
 * files) and, on a multisite network, merges in `active_sitewide_plugins`
 * (a map from plugin file to activation time); Groups is active when its
 * plugin file is found among the values or among the keys.
 *
 * The option store and `is_multisite` are inputs.
 */
module DependencyGate {
  import opened PhpArrays

  /** The plugin file the gate looks for. */
  const GroupsPluginFile: string := "groups/groups.php"

  /** What `get_option` returns: the stored value, or the default when the option is missing. */
  datatype OptionValue = Missing | Scalar(v: Value) | ArrayOption(a: PhpArray)

  /**
   * `(array) get_option('active_plugins', array())`: a missing option gives
   * the default empty array, an array stays as it is, `null` becomes the
   * empty array and any other scalar becomes a one-element list.
   */
  function ActivePluginsOption(o: OptionValue): (a: PhpArray)
    ensures o.ArrayOption? ==> a == o.a
    ensures o.Scalar? && o.v != Null ==> Values(a) == [o.v] && !HasKey(a, StrKey(GroupsPluginFile))
    ensures o.Missing? || o == Scalar(Null) ==> a == []
  {
    match o
    case Missing => []
    case Scalar(v) => if v == Null then [] else [Entry(IntKey(0), v)]
    case ArrayOption(a) => a
  }

  /**
   * PHP's loose `==` between a value and the non-numeric, non-empty string
   * `GroupsPluginFile`, as PHP 8 evaluates it: strings compare as strings;
   * a boolean compares with the string's truth value, which is true; an
   * integer is compared as its decimal text, which never equals a
   * non-numeric string; `null` compares equal only to the empty string.
   */
  predicate LooselyEqualsGroupsFile(v: Value)
    ensures LooselyEqualsGroupsFile(v) <==> v == Str(GroupsPluginFile) || v == Bool(true)
  {
    match v
    case Str(s) => s == GroupsPluginFile
    case Bool(b) => b
    case Int(_) => false
    case Null => false
  }

  /** `in_array('groups/groups.php', a)` with its default loose comparison. */
  predicate InArray(a: PhpArray)
    ensures InArray(a) <==> exists x :: x in Values(a) && LooselyEqualsGroupsFile(x)
  {
    exists i :: 0 <= i < |a| && LooselyEqualsGroupsFile(a[i].value)
  }

  /** The Groups plugin file appears in `a` as a value or as a key. */
  predicate Mentions(a: PhpArray) {
    InArray(a) || HasKey(a, StrKey(GroupsPluginFile))
  }

  /** The array the gate searches: the active plugins, merged with the sitewide ones on multisite. */
  function SearchedPlugins(activePlugins: OptionValue, multisite: bool, sitewide: PhpArray): PhpArray {
    var active := ActivePluginsOption(activePlugins);
    if multisite then ArrayMerge(active, sitewide) else active
  }

  /**
   * `is_groups_active()`. A mention of the Groups plugin file as a key is
   * always found: `array_merge` keeps every string key of both arrays.
   */
  function IsGroupsActive(activePlugins: OptionValue, multisite: bool, sitewide: PhpArray): (r: bool)
    ensures HasKey(ActivePluginsOption(activePlugins), StrKey(GroupsPluginFile)) ==> r
    ensures multisite && HasKey(sitewide, StrKey(GroupsPluginFile)) ==> r
  {
    ArrayMergeKeysAndValues(ActivePluginsOption(activePlugins), sitewide);
    Mentions(SearchedPlugins(activePlugins, multisite, sitewide))
  }

  /**
   * How the `(array)` cast decides the search over the active plugins: a
   * missing option mentions nothing, a scalar mentions Groups exactly when
   * it loosely equals the plugin file, and an array is searched as it is.
   */
  lemma CastMentions(o: OptionValue)
    ensures Mentions(ActivePluginsOption(o)) <==>
              match o
              case Missing => false
              case Scalar(v) => LooselyEqualsGroupsFile(v)
              case ArrayOption(a) => Mentions(a)
  {
  }

  /** The gate only reports Groups active when one of the two options mentions it. */
  lemma GroupsActiveSound(activePlugins: OptionValue, multisite: bool, sitewide: PhpArray)
    ensures IsGroupsActive(activePlugins, multisite, sitewide) ==>
              Mentions(ActivePluginsOption(activePlugins)) || (multisite && Mentions(sitewide))
  {
    var active := ActivePluginsOption(activePlugins);
    if multisite {
      ArrayMergeKeysAndValues(active, sitewide);
    }
  }

  /**
   * Conversely, a mention in either option is found, unless on multisite a
   * sitewide string key overwrites the active-plugin entry that carried the
   * mention as a value (see `OverwriteHidesMention`); distinct string keys
   * rule that out. Mentions as keys need no such condition (`IsGroupsActive`).
   */
  lemma GroupsActiveComplete(activePlugins: OptionValue, multisite: bool, sitewide: PhpArray)
    requires multisite ==> DistinctStrKeys(ActivePluginsOption(activePlugins) + sitewide)
    ensures Mentions(ActivePluginsOption(activePlugins)) || (multisite && Mentions(sitewide)) ==>
              IsGroupsActive(activePlugins, multisite, sitewide)
  {
    var active := ActivePluginsOption(activePlugins);
    if multisite {
      ArrayMergeKeysAndValues(active, sitewide);
      ArrayMergeKeepsValues(active, sitewide);
    }
  }

  /** Off multisite the sitewide option is never consulted. */
  lemma SingleSiteIgnoresSitewide(activePlugins: OptionValue, sitewide: PhpArray, sitewide': PhpArray)
    ensures IsGroupsActive(activePlugins, false, sitewide) == IsGroupsActive(activePlugins, false, sitewide')
    ensures IsGroupsActive(activePlugins, false, sitewide) <==> Mentions(ActivePluginsOption(activePlugins))
  {
  }

  /**
   * The loose comparison of `in_array` lets a stored boolean `true` pass the
   * gate: `(array) true` is `[true]`, and `true == 'groups/groups.php'`.
   */
  lemma StoredTruePassesGate()
    ensures IsGroupsActive(Scalar(Bool(true)), false, [])
  {
  }

  /**
   * An array that mentions Groups only under a string key that the sitewide
   * map reuses loses that mention in `array_merge`.
   */
  lemma OverwriteHidesMention()
    ensures var active := [Entry(StrKey("x"), Str(GroupsPluginFile))];
            var sitewide := [Entry(StrKey("x"), Int(1))];
      && Mentions(ActivePluginsOption(ArrayOption(active)))
      && !IsGroupsActive(ArrayOption(active), true, sitewide)
  {
    var active := [Entry(StrKey("x"), Str(GroupsPluginFile))];
    var sitewide := [Entry(StrKey("x"), Int(1))];
    assert LooselyEqualsGroupsFile(active[0].value);
    var both := active + sitewide;
    assert both[1..] == sitewide;
    var first := Put([], "x", Str(GroupsPluginFile));
    assert first == active;
    assert MergeFrom([], 0, both) == MergeFrom(first, 0, sitewide);
    assert Put(first, "x", Int(1)) == sitewide;
    assert MergeFrom(first, 0, sitewide) == MergeFrom(sitewide, 0, sitewide[1..]);
    var merged := ArrayMerge(active, sitewide);
    assert merged == sitewide;
    assert "x" != GroupsPluginFile;
  }
}
