/**
 * Environment extraction in the exported function of index.js: every
 * environment variable whose name is `<CATEGORY>_<KEY>`, with an allowed
 * category and a non-empty key, is written into `config[CATEGORY][KEY]`
 * unless that entry already exists; a value that passes `isBase64` is
 * stored decoded.
 *
 * `Extract` is the specification (one `Step` per variable, in order);
 * `ExtractEnvironment` is the loop that changes the caller's object, and
 * the lemmas describe the result without reference to the loop.
 */
module Environment {
  import opened Wrappers
  import opened Base64
  import opened Names
  import opened ConfigTree

  /** An environment variable: its name and its value. */
  type Variable = (string, string)

  /**
   * The (category, key) pair a variable name writes, if any: the name must
   * split at '_', head and rest must be non-empty and the head allowed.
   */
  function Target(categories: seq<string>, name: string): (t: Option<(string, string)>)
    ensures t.Some? ==> t.value.0 in categories && t.value.0 != "" && t.value.1 != ""
    ensures t.Some? ==> SEPARATOR !in t.value.0 && t.value.0 + [SEPARATOR] + t.value.1 == name
  {
    match SplitOnce(name)
    case None => None
    case Some((head, rest)) =>
      SplitOnceRoundTrip(name);
      if head != "" && rest != "" && head in categories then Some((head, rest)) else None
  }

  /** The other direction: every such name does write its head and rest. */
  lemma TargetOfName(categories: seq<string>, cat: string, key: string)
    requires cat in categories && cat != "" && key != "" && SEPARATOR !in cat
    ensures Target(categories, cat + [SEPARATOR] + key) == Some((cat, key))
  {
    SplitOnceOfJoined(cat, key);
  }

  /** The stored value: decoded when the raw value is base64 text, otherwise the raw value. */
  function Stored(data: string, decode: string -> string): Value {
    if IsBase64(Some(data)) then Str(decode(data)) else Str(data)
  }

  /**
   * Any value of four alphabet characters passes the base64 test, so a
   * plain word such as "prod" is stored decoded rather than as written.
   */
  lemma PlainWordStoredDecoded(decode: string -> string)
    ensures Stored("prod", decode) == Str(decode("prod"))
  {
    IsBase64Iff("prod");
    assert WellFormed("prod");
  }

  /** Write `config[cat][key] := v` unless present, creating the category object if missing. */
  function Insert(config: Tree, cat: string, key: string, v: Value): Tree {
    var category := if cat in config then config[cat] else map[];
    if key in category then config else config[cat := category[key := v]]
  }

  /** One iteration of the extraction loop. */
  function Step(categories: seq<string>, config: Tree, variable: Variable, decode: string -> string): Tree {
    match Target(categories, variable.0)
    case None => config
    case Some((cat, key)) => Insert(config, cat, key, Stored(variable.1, decode))
  }

  /** The configuration after the loop has visited every variable of `env`, in order. */
  function Extract(categories: seq<string>, env: seq<Variable>, init: Tree, decode: string -> string): Tree
    decreases |env|
  {
    if |env| == 0 then init
    else Step(categories, Extract(categories, env[..|env| - 1], init, decode), env[|env| - 1], decode)
  }

  /** The value of the first variable of `env` that writes (cat, key), if there is one. */
  function FirstValue(categories: seq<string>, env: seq<Variable>, cat: string, key: string,
                      decode: string -> string): Option<Value>
    decreases |env|
  {
    if |env| == 0 then None
    else if Target(categories, env[0].0) == Some((cat, key)) then Some(Stored(env[0].1, decode))
    else FirstValue(categories, env[1..], cat, key, decode)
  }

  /**
   * First write wins, stated without the loop: an entry present before keeps
   * its value, otherwise the first variable that names the entry supplies it.
   */
  function Expected(categories: seq<string>, env: seq<Variable>, init: Tree, decode: string -> string,
                    cat: string, key: string): Option<Value>
  {
    if Get(init, cat, key).Some? then Get(init, cat, key) else FirstValue(categories, env, cat, key, decode)
  }

  predicate Writes(categories: seq<string>, name: string, cat: string) {
    Target(categories, name).Some? && Target(categories, name).value.0 == cat
  }

  lemma {:induction false} FirstValueAppend(categories: seq<string>, env: seq<Variable>, last: Variable,
                                            cat: string, key: string, decode: string -> string)
    ensures FirstValue(categories, env + [last], cat, key, decode)
         == if FirstValue(categories, env, cat, key, decode).Some? then FirstValue(categories, env, cat, key, decode)
            else if Target(categories, last.0) == Some((cat, key)) then Some(Stored(last.1, decode))
            else None
    decreases |env|
  {
    if |env| == 0 {
      assert ([] + [last])[1..] == [];
    } else {
      assert (env + [last])[1..] == env[1..] + [last];
      FirstValueAppend(categories, env[1..], last, cat, key, decode);
    }
  }

  /** Some variable supplies a value exactly when some variable names the entry. */
  lemma {:induction false} FirstValueSome(categories: seq<string>, env: seq<Variable>, cat: string, key: string,
                                          decode: string -> string)
    ensures FirstValue(categories, env, cat, key, decode).Some?
        <==> exists i :: 0 <= i < |env| && Target(categories, env[i].0) == Some((cat, key))
    decreases |env|
  {
    if |env| > 0 {
      FirstValueSome(categories, env[1..], cat, key, decode);
      if exists i :: 0 <= i < |env| && Target(categories, env[i].0) == Some((cat, key)) {
        var i :| 0 <= i < |env| && Target(categories, env[i].0) == Some((cat, key));
        if i > 0 { assert env[1..][i - 1] == env[i]; }
      }
      if exists i :: 0 <= i < |env[1..]| && Target(categories, env[1..][i].0) == Some((cat, key)) {
        var i :| 0 <= i < |env[1..]| && Target(categories, env[1..][i].0) == Some((cat, key));
        assert env[i + 1] == env[1..][i];
      }
    }
  }

  /** Every entry of the result is the one `Expected` describes, and no other entries appear. */
  lemma {:induction false} ExtractGet(categories: seq<string>, env: seq<Variable>, init: Tree,
                                      decode: string -> string, cat: string, key: string)
    ensures Get(Extract(categories, env, init, decode), cat, key) == Expected(categories, env, init, decode, cat, key)
    decreases |env|
  {
    if |env| > 0 {
      var prefix, last := env[..|env| - 1], env[|env| - 1];
      ExtractGet(categories, prefix, init, decode, cat, key);
      assert env == prefix + [last];
      FirstValueAppend(categories, prefix, last, cat, key, decode);
    }
  }

  /** The categories of the result: those present before and those some variable writes. */
  lemma {:induction false} ExtractCategories(categories: seq<string>, env: seq<Variable>, init: Tree,
                                             decode: string -> string, cat: string)
    ensures cat in Extract(categories, env, init, decode)
        <==> cat in init || exists i :: 0 <= i < |env| && Writes(categories, env[i].0, cat)
    decreases |env|
  {
    if |env| > 0 {
      var prefix, last := env[..|env| - 1], env[|env| - 1];
      ExtractCategories(categories, prefix, init, decode, cat);
      if exists i :: 0 <= i < |env| && Writes(categories, env[i].0, cat) {
        var i :| 0 <= i < |env| && Writes(categories, env[i].0, cat);
        if i < |env| - 1 { assert prefix[i] == env[i]; }
      }
      if exists i :: 0 <= i < |prefix| && Writes(categories, prefix[i].0, cat) {
        var i :| 0 <= i < |prefix| && Writes(categories, prefix[i].0, cat);
        assert env[i] == prefix[i];
      }
    }
  }

  /** A category that no variable writes keeps its object exactly (or stays absent). */
  lemma {:induction false} ExtractLeavesOthers(categories: seq<string>, env: seq<Variable>, init: Tree,
                                               decode: string -> string, cat: string)
    requires forall i :: 0 <= i < |env| ==> !Writes(categories, env[i].0, cat)
    ensures cat in Extract(categories, env, init, decode) <==> cat in init
    ensures cat in init ==> Extract(categories, env, init, decode)[cat] == init[cat]
    decreases |env|
  {
    if |env| > 0 {
      var prefix := env[..|env| - 1];
      assert forall i :: 0 <= i < |prefix| ==> prefix[i] == env[i];
      ExtractLeavesOthers(categories, prefix, init, decode, cat);
      assert !Writes(categories, env[|env| - 1].0, cat);
    }
  }

  /** In particular, a top-level key that is not an allowed category is left alone. */
  lemma ExtractLeavesUnlisted(categories: seq<string>, env: seq<Variable>, init: Tree,
                              decode: string -> string, cat: string)
    requires cat !in categories
    ensures cat in Extract(categories, env, init, decode) <==> cat in init
    ensures cat in init ==> Extract(categories, env, init, decode)[cat] == init[cat]
  {
    ExtractLeavesOthers(categories, env, init, decode, cat);
  }

  /** With no allowed categories nothing changes. */
  lemma {:induction false} ExtractNoCategories(env: seq<Variable>, init: Tree, decode: string -> string)
    ensures Extract([], env, init, decode) == init
    decreases |env|
  {
    if |env| > 0 {
      ExtractNoCategories(env[..|env| - 1], init, decode);
    }
  }

  /**
   * Extraction never overwrites: an entry present after the first `j`
   * variables (in particular, for `j == 0`, one present before the loop)
   * has the same value at the end.
   */
  lemma {:induction false} ExtractKeepsWrites(categories: seq<string>, env: seq<Variable>, init: Tree,
                                              decode: string -> string, j: nat, cat: string, key: string)
    requires j <= |env|
    requires Get(Extract(categories, env[..j], init, decode), cat, key).Some?
    ensures Get(Extract(categories, env, init, decode), cat, key)
         == Get(Extract(categories, env[..j], init, decode), cat, key)
    decreases |env|
  {
    if j < |env| {
      var prefix := env[..|env| - 1];
      assert prefix[..j] == env[..j];
      ExtractKeepsWrites(categories, prefix, init, decode, j, cat, key);
    } else {
      assert env[..j] == env;
    }
  }

  /**
   * The extraction loop of the exported function, changing the caller's
   * object in place. It runs only for a non-empty category list.
   */
  method ExtractEnvironment(categories: seq<string>, env: seq<Variable>, config: ConfigObject,
                            decode: string -> string)
    modifies config
    ensures config.entries == Extract(categories, env, old(config.entries), decode)
  {
    if |categories| > 0 {
      var i := 0;
      while i < |env|
        invariant 0 <= i <= |env|
        invariant config.entries == Extract(categories, env[..i], old(config.entries), decode)
      {
        var (name, data) := env[i];
        var parts := SplitOnce(name);
        if parts.Some? && parts.value.0 != "" && parts.value.1 != "" {
          var (cat, key) := parts.value;
          if cat in categories {
            if cat !in config.entries {
              config.entries := config.entries[cat := map[]];
            }
            if key !in config.entries[cat] {
              var v := if IsBase64(Some(data)) then Str(decode(data)) else Str(data);
              config.entries := config.entries[cat := config.entries[cat][key := v]];
            }
          }
        }
        assert env[..i + 1][..i] == env[..i];
        i := i + 1;
      }
      assert env[..|env|] == env;
    } else {
      ExtractNoCategories(env, config.entries, decode);
    }
  }
}
