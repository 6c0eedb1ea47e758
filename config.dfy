/**
 * The configuration object that the loader extends: the caller's object,
 * whose top-level keys name categories and whose category objects map
 * keys to scalar values.
 */
module ConfigTree {
  import opened Wrappers

  /** A scalar of the configuration: a text, a number, a boolean or null. */
  datatype Value = Str(text: string) | Num(number: int) | Bool(flag: bool) | Null

  /** Category name to (key to value). */
  type Tree = map<string, map<string, Value>>

  /** `config[cat][key]` when both levels are present. */
  function Get(config: Tree, cat: string, key: string): Option<Value> {
    if cat in config && key in config[cat] then Some(config[cat][key]) else None
  }

  /** JavaScript truthiness of a scalar. */
  predicate Truthy(v: Value) {
    match v
    case Str(t) => t != ""
    case Num(n) => n != 0
    case Bool(b) => b
    case Null => false
  }

  /** The caller's configuration object, which the loader changes in place. */
  class ConfigObject {
    var entries: Tree

    constructor (init: Tree)
      ensures entries == init
    {
      entries := init;
    }
  }
}
