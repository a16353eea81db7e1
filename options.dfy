/**
 * The three WordPress options the plugin writes (`update_option`): the last export's preset key
 * and table list, and the file fingerprints the change check stores between polls.
 */
module Options {

  class OptionStore {
    /** `db_sync_preset`. */
    var preset: string
    /** `db_sync_tables`. */
    var tables: seq<string>
    /** `db_sync_stored_files`; `get_option` falls back to an empty array when it was never written. */
    var storedFiles: seq<string>

    constructor()
      ensures preset == "" && tables == [] && storedFiles == []
    {
      preset := "";
      tables := [];
      storedFiles := [];
    }
  }
}
