/**
 * dfwp_disable_settings_link, on the 'plugin_action_links' filter: on this
 * plugin's own row of the plugin list, a 'settings' link goes first.
 */
module SettingsLink {
  import opened PhpArrays

  const SettingsKey: Key := StrKey("settings")

  /** The anchor of the link; adminUrl is admin_url('options-reading.php'), linkText is __('Settings', 'dfwp'). */
  function SettingsAnchor(adminUrl: string, linkText: string): string {
    "<a href=\"" + adminUrl + "\">" + linkText + "</a>"
  }

  /** dfwp_disable_settings_link; basename is plugin_basename(__FILE__). */
  function AddSettingsLink(actions: PhpArray, pluginFile: string, basename: string,
                           adminUrl: string, linkText: string): (r: PhpArray)
    ensures pluginFile != basename ==> r == actions
    ensures pluginFile == basename ==> |r| > 0 && r[0].0 == SettingsKey
  {
    if basename == pluginFile then
      var settings := [(SettingsKey, SettingsAnchor(adminUrl, linkText))];
      MergeFromSingleEntry(settings[0], actions);
      AppendKeepsFirstEntry(settings, actions);
      ArrayMerge(settings, actions)
    else actions
  }

  /** On this plugin's row, with no 'settings' entry yet, the link comes first and the original entries follow. */
  lemma SettingsLinkPrepended(actions: PhpArray, basename: string, adminUrl: string, linkText: string)
    requires DistinctKeys(actions) && forall i :: 0 <= i < |actions| ==> actions[i].0 != SettingsKey
    ensures AddSettingsLink(actions, basename, basename, adminUrl, linkText)
            == [(SettingsKey, SettingsAnchor(adminUrl, linkText))] + Renumber(actions, 0)
    ensures NoIntKeys(actions) ==>
              AddSettingsLink(actions, basename, basename, adminUrl, linkText)
              == [(SettingsKey, SettingsAnchor(adminUrl, linkText))] + actions
  {
    var settings := (SettingsKey, SettingsAnchor(adminUrl, linkText));
    DistinctKeysAreFresh({"settings"}, actions);
    MergeFreshBehindEntry(settings, actions);
    if NoIntKeys(actions) {
      RenumberStringKeys(actions, 0);
    }
  }

  /** An existing 'settings' entry keeps its value but moves to the front, as array_merge does with string keys. */
  lemma ExistingSettingsEntryMovesFirst(actions: PhpArray, basename: string, adminUrl: string,
                                        linkText: string, i: nat)
    requires DistinctKeys(actions) && i < |actions| && actions[i].0 == SettingsKey
    ensures var r := AddSettingsLink(actions, basename, basename, adminUrl, linkText);
      |r| > 0 && r[0] == actions[i]
  {
    var settings := [(SettingsKey, SettingsAnchor(adminUrl, linkText))];
    MergeFromSingleEntry(settings[0], actions);
    AppendKeepsFirstEntry(settings, actions);
    LastValueOfDistinct(actions, SettingsKey, SettingsAnchor(adminUrl, linkText), i);
  }
}
