/** TOML values, as the `toml` crate represents a parsed configuration file. */
module Toml {
  import opened Wrappers

  /** A TOML value. Leaves are opaque to the model except for the conversions
      the configuration code uses (`as_str`, `as_bool`, `as_array`, `as_table`). */
  datatype Value =
    | String(str: string)
    | Integer(i: int)
    | Boolean(b: bool)
    | Datetime(stamp: string)
    | Array(items: seq<Value>)
    | Table(entries: map<string, Value>)

  /** `toml::value::Table`: a map from keys to values. */
  type Table = map<string, Value>

  /** `Table::get`. */
  function Get(t: Table, key: string): (r: Option<Value>)
    ensures r.Some? <==> key in t
    ensures r.Some? ==> r.value == t[key]
  {
    if key in t then Some(t[key]) else None
  }

  function AsStr(v: Value): Option<string> {
    if v.String? then Some(v.str) else None
  }

  function AsBool(v: Value): Option<bool> {
    if v.Boolean? then Some(v.b) else None
  }

  function AsArray(v: Value): Option<seq<Value>> {
    if v.Array? then Some(v.items) else None
  }

  function AsTable(v: Value): Option<Table> {
    if v.Table? then Some(v.entries) else None
  }
}
