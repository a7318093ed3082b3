/**
 * The plugin's one setting, 'dfwp_redirect', in the host's option table.
 * Reading it (dfwp_redirect_status) defaults a missing value to "on" and turns a
 * legacy boolean into "on"/"off", writing the string back; deactivation deletes it.
 */
module Options {

  /** A stored option value: the plugin meets strings and, from older versions, booleans. */
  datatype OptionValue = Text(text: string) | Flag(flag: bool)

  type Store = map<string, OptionValue>

  const RedirectKey: string := "dfwp_redirect"
  const DefaultStatus: string := "on"

  /** The value dfwp_redirect_status returns for a store. */
  function Status(m: Store): string {
    var v := if RedirectKey in m then m[RedirectKey] else Text(DefaultStatus);
    match v
    case Text(s) => s
    case Flag(b) => if b then "on" else "off"
  }

  /** The store after dfwp_redirect_status: a boolean is replaced by its string form. */
  function AfterStatusRead(m: Store): Store {
    if RedirectKey in m && m[RedirectKey].Flag? then m[RedirectKey := Text(Status(m))] else m
  }

  /** What each kind of stored value reads as, and when the read writes back. */
  lemma StatusReadCases(m: Store)
    ensures RedirectKey !in m ==> Status(m) == "on" && AfterStatusRead(m) == m
    ensures RedirectKey in m && m[RedirectKey].Text? ==>
              Status(m) == m[RedirectKey].text && AfterStatusRead(m) == m
    ensures RedirectKey in m && m[RedirectKey] == Flag(true) ==>
              Status(m) == "on" && AfterStatusRead(m) == m[RedirectKey := Text("on")]
    ensures RedirectKey in m && m[RedirectKey] == Flag(false) ==>
              Status(m) == "off" && AfterStatusRead(m) == m[RedirectKey := Text("off")]
  {
  }

  /** Reading leaves no boolean behind and touches no other option; a second read returns the same and writes nothing. */
  lemma StatusReadIsStable(m: Store)
    ensures RedirectKey in AfterStatusRead(m) ==> AfterStatusRead(m)[RedirectKey].Text?
    ensures forall k :: k != RedirectKey ==>
              (k in AfterStatusRead(m) <==> k in m) && (k in m ==> AfterStatusRead(m)[k] == m[k])
    ensures Status(AfterStatusRead(m)) == Status(m)
    ensures AfterStatusRead(AfterStatusRead(m)) == AfterStatusRead(m)
  {
  }

  /** A store holding no value, a boolean, "on" or "off" always reads as "on" or "off". */
  lemma StatusIsOnOrOff(m: Store)
    requires RedirectKey in m ==> m[RedirectKey].Flag? || m[RedirectKey] in {Text("on"), Text("off")}
    ensures Status(m) in {"on", "off"}
  {
  }

  /** After deactivation the key is gone, so the next read yields the default "on" and writes nothing. */
  lemma DeactivationRestoresDefault(m: Store)
    ensures RedirectKey !in m - {RedirectKey}
    ensures Status(m - {RedirectKey}) == DefaultStatus
    ensures AfterStatusRead(m - {RedirectKey}) == m - {RedirectKey}
  {
  }

  /** The host's option table (get_option, update_option, delete_option). */
  class OptionStore {
    var entries: Store

    constructor (initial: Store)
      ensures entries == initial
    {
      entries := initial;
    }

    /** get_option(key, default) */
    method Get(key: string, default: OptionValue) returns (v: OptionValue)
      ensures v == if key in entries then entries[key] else default
    {
      v := if key in entries then entries[key] else default;
    }

    /** update_option(key, value) */
    method Update(key: string, value: OptionValue)
      modifies this
      ensures entries == old(entries)[key := value]
    {
      entries := entries[key := value];
    }

    /** delete_option(key) */
    method Delete(key: string)
      modifies this
      ensures entries == old(entries) - {key}
    {
      entries := entries - {key};
    }
  }

  /** dfwp_redirect_status */
  method RedirectStatus(store: OptionStore) returns (r: string)
    modifies store
    ensures r == Status(old(store.entries))
    ensures store.entries == AfterStatusRead(old(store.entries))
  {
    var v := store.Get(RedirectKey, Text(DefaultStatus));
    if v.Flag? {
      r := if v.flag then "on" else "off";
      store.Update(RedirectKey, Text(r));
    } else {
      r := v.text;
    }
  }

  /** dfwp_remove_options_on_deactivation */
  method RemoveOptionsOnDeactivation(store: OptionStore)
    modifies store
    ensures store.entries == old(store.entries) - {RedirectKey}
    ensures Status(store.entries) == DefaultStatus
  {
    store.Delete(RedirectKey);
  }
}
