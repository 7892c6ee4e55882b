/** The settings dialog (components/SettingsModal.tsx): the cloud config
    being edited and the save gate that tries the connection first. */
module SettingsModal {
  import opened Types
  import opened Supabase
  import Storage

  /** The dialog's `status`; `Failed` is `'error'`. */
  datatype Status = Idle | Succeeded | Failed

  /** The config the dialog starts from. */
  const BlankConfig := SupabaseConfig("", "", false)

  /** What `initSupabase` accepts before trying to build a client. */
  predicate Usable(c: SupabaseConfig) {
    c.enabled && c.url != "" && c.key != ""
  }

  class Dialog {
    const store: Storage.Store
    var isOpen: bool
    var config: SupabaseConfig
    var status: Status

    constructor (store: Storage.Store)
      ensures this.store == store && !isOpen && config == BlankConfig && status == Idle
    {
      this.store := store;
      isOpen := false;
      config := BlankConfig;
      status := Idle;
    }

    /** Opening loads the stored config when there is one, and keeps the form otherwise. */
    method Open()
      modifies this`isOpen, this`config
      ensures isOpen && status == old(status)
      ensures config == if store.GetSettings().supabaseConfig.Some?
        then store.GetSettings().supabaseConfig.value else old(config)
    {
      isOpen := true;
      var settings := store.GetSettings();
      if settings.supabaseConfig.Some? {
        config := settings.supabaseConfig.value;
      }
    }

    /** Typing into the form. */
    method Edit(c: SupabaseConfig)
      modifies this`config
      ensures config == c && isOpen == old(isOpen) && status == old(status)
    {
      config := c;
    }

    /** `handleSave`: try `initSupabase(config)`; the settings are saved, with
        only `supabaseConfig` replaced, iff that succeeded or the config is
        switched off, and the status says which. `constructs` is whether
        `createClient` returns rather than throws. The delayed close and page
        reload are not modelled. */
    method HandleSave(constructs: bool) returns (saved: bool)
      requires store.cloud.Valid()
      modifies this`status, store`settingsItem, store.cloud`handle
      ensures saved <==> (Usable(config) && constructs) || !config.enabled
      ensures config == old(config) && isOpen == old(isOpen)
      ensures saved ==> status == Succeeded && store.GetSettings() == old(store.GetSettings()).(supabaseConfig := Some(config))
      ensures !saved ==> status == Failed && store.GetSettings() == old(store.GetSettings())
      ensures config.enabled && (config.url == "" || config.key == "") ==> status == Failed
      ensures store.cloud.handle == if Usable(config) && constructs then Some(Endpoint(config.url, config.key))
        else if Usable(config) then old(store.cloud.handle) else None
      ensures store.cloud.table == old(store.cloud.table) && store.legacyItem == old(store.legacyItem)
    {
      var success := store.cloud.InitSupabase(config, constructs);
      if success || !config.enabled {
        var current := store.GetSettings();
        store.SaveSettings(current.(supabaseConfig := Some(config)), constructs);
        status := Succeeded;
        saved := true;
      } else {
        status := Failed;
        saved := false;
      }
    }
  }
}
