/**
 * The plugin class's static helpers (db-sync.php): the two table presets, the map from display
 * names to physical table names, and the row count of every table.
 */
module Plugin {
  import opened Wrappers
  import opened Text
  import opened Database

  /** A preset: its label, its description, and the display names of its tables. */
  datatype Preset = Preset(name: string, description: string, tables: seq<string>)

  /** The tables of the `development` preset. */
  const DevelopmentTables: seq<string> := ["posts", "postmeta", "terms", "term_relationships", "term_taxonomy",
    "termmeta", "options", "widgets", "widget_areas", "users", "usermeta"]

  /** The tables of the `content` preset. */
  const ContentTables: seq<string> := ["posts", "postmeta", "terms", "term_relationships", "termmeta"]

  /** `get_presets`: the fixed preset table. */
  function GetPresets(): map<string, Preset> {
    map[
      "development" := Preset("Development", "Full development environment sync", DevelopmentTables),
      "content" := Preset("Content Only", "Content and structure only", ContentTables)
    ]
  }

  /** There are exactly two presets, `development` and `content`, labelled `Development` and `Content Only`. */
  lemma PresetKeys()
    ensures GetPresets().Keys == {"development", "content"}
    ensures GetPresets()["development"].name == "Development"
    ensures GetPresets()["content"].name == "Content Only"
  {
  }

  /** The `content` preset is five tables, every one of them also in the eleven distinct tables of `development`. */
  lemma PresetTables()
    ensures GetPresets()["content"].tables == ["posts", "postmeta", "terms", "term_relationships", "termmeta"]
    ensures |GetPresets()["development"].tables| == 11
    ensures forall i, j :: 0 <= i < j < |DevelopmentTables| ==> DevelopmentTables[i] != DevelopmentTables[j]
    ensures forall t :: t in GetPresets()["content"].tables ==> t in GetPresets()["development"].tables
  {
  }

  /** The display name of a table: the physical name with every occurrence of the prefix removed. */
  function DisplayName(prefix: string, table: string): string {
    ReplaceAll(table, prefix, "")
  }

  /** The map the `foreach` of `get_available_tables` builds from `names`, one entry per display name. */
  function AvailableTables(prefix: string, names: seq<string>): (r: map<string, string>)
    ensures r.Keys == set i | 0 <= i < |names| :: DisplayName(prefix, names[i])
    decreases |names|
  {
    if names == [] then map[]
    else
      var init := names[..|names| - 1];
      var last := names[|names| - 1];
      var r := AvailableTables(prefix, init)[DisplayName(prefix, last) := last];
      assert r.Keys == set i | 0 <= i < |names| :: DisplayName(prefix, names[i]) by {
        forall k | k in r.Keys ensures k in set i | 0 <= i < |names| :: DisplayName(prefix, names[i]) {
          if k != DisplayName(prefix, last) {
            var i :| 0 <= i < |init| && DisplayName(prefix, init[i]) == k;
            assert names[i] == init[i];
          }
        }
        forall i | 0 <= i < |names| ensures DisplayName(prefix, names[i]) in r.Keys {
          if i < |init| { assert names[i] == init[i]; }
        }
      }
      r
  }

  /**
   * Each display name maps to the LAST table in `SHOW TABLES` order that has it: a later table
   * overwrites an earlier one with the same display name.
   */
  lemma {:induction false} AvailableTablesLast(prefix: string, names: seq<string>, k: string)
    requires k in AvailableTables(prefix, names)
    ensures exists j :: (0 <= j < |names| && AvailableTables(prefix, names)[k] == names[j]
      && DisplayName(prefix, names[j]) == k
      && forall j' :: j < j' < |names| ==> DisplayName(prefix, names[j']) != k)
    ensures DisplayName(prefix, AvailableTables(prefix, names)[k]) == k
    decreases |names|
  {
    var init := names[..|names| - 1];
    var last := names[|names| - 1];
    if DisplayName(prefix, last) == k {
      assert AvailableTables(prefix, names)[k] == names[|names| - 1];
    } else {
      AvailableTablesLast(prefix, init, k);
      var j :| 0 <= j < |init| && AvailableTables(prefix, init)[k] == init[j]
        && DisplayName(prefix, init[j]) == k
        && forall j' :: j < j' < |init| ==> DisplayName(prefix, init[j']) != k;
      assert names[j] == init[j];
      forall j' | j < j' < |names| ensures DisplayName(prefix, names[j']) != k {
        if j' < |init| { assert names[j'] == init[j']; }
      }
    }
  }

  /** `get_available_tables`: one `SHOW TABLES`, then the display name of each table is mapped to it. */
  method GetAvailableTables(db: Db, prefix: string) returns (available: map<string, string>)
    ensures available == AvailableTables(prefix, ShowTables(db))
  {
    var tables := ShowTables(db);
    available := map[];
    var i := 0;
    while i < |tables|
      invariant 0 <= i <= |tables|
      invariant available == AvailableTables(prefix, tables[..i])
    {
      var tableName := tables[i];
      var displayName := ReplaceAll(tableName, prefix, "");
      assert tables[..i + 1][..i] == tables[..i];
      available := available[displayName := tableName];
      i := i + 1;
    }
    assert tables[..|tables|] == tables;
  }

  /**
   * `get_table_counts`: for every entry of `get_available_tables`, the row count of its table,
   * under the same display name.
   */
  method GetTableCounts(db: Db, prefix: string) returns (counts: map<string, nat>)
    ensures counts.Keys == AvailableTables(prefix, ShowTables(db)).Keys
    ensures forall k :: k in counts ==> counts[k] == CountRows(db, AvailableTables(prefix, ShowTables(db))[k])
  {
    var tables := GetAvailableTables(db, prefix);
    counts := map[];
    var todo := tables.Keys;
    while todo != {}
      invariant todo <= tables.Keys
      invariant counts.Keys == tables.Keys - todo
      invariant forall k :: k in counts ==> counts[k] == CountRows(db, tables[k])
      decreases todo
    {
      var displayName :| displayName in todo;
      var count := CountRows(db, tables[displayName]);
      counts := counts[displayName := count];
      todo := todo - {displayName};
    }
  }
}
