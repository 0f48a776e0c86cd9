/** `Config`: the YAML settings behind a load-once singleton, read by dotted
    paths. The YAML text and the file system are not modelled: a load is
    given the parsed document, or `None` when the file does not exist. */
module Configuration {
  import opened Common

  /** A parsed YAML value. Mapping keys are strings. */
  datatype Yaml = Null | Scalar(text: string) | List(items: seq<Yaml>) | Dict(entries: map<string, Yaml>)

  // ---------------------------------------------------------------------
  // `key_path.split('.')` and its inverse `'.'.join(parts)`.

  /** Python's `s.split('.')`: never empty; an empty string gives `[""]`
      and adjacent dots give empty parts. */
  function Split(s: string): (parts: seq<string>)
    ensures |parts| >= 1
  {
    if s == [] then [[]]
    else
      var rest := Split(s[1..]);
      if s[0] == '.' then [[]] + rest
      else [[s[0]] + rest[0]] + rest[1..]
  }

  /** No part of a split key path holds a dot. */
  lemma {:induction false} SplitParts(s: string)
    ensures forall i :: 0 <= i < |Split(s)| ==> '.' !in Split(s)[i]
  {
    if s != [] {
      SplitParts(s[1..]);
    }
  }

  function Join(parts: seq<string>): (s: string)
    requires |parts| >= 1
  {
    if |parts| == 1 then parts[0] else parts[0] + "." + Join(parts[1..])
  }

  /** Splitting at one more dot appends the parts on either side. */
  lemma {:induction false} SplitAppend(a: string, b: string)
    ensures Split(a + "." + b) == Split(a) + Split(b)
    decreases |a|
  {
    var s := a + "." + b;
    if a == [] {
      assert s == ['.'] + b && s[1..] == b;
    } else {
      assert s[0] == a[0] && s[1..] == a[1..] + "." + b;
      SplitAppend(a[1..], b);
      var ra, rb := Split(a[1..]), Split(b);
      assert Split(s[1..]) == ra + rb;
      if a[0] != '.' {
        assert (ra + rb)[1..] == ra[1..] + rb;
      }
    }
  }

  /** A part without dots splits to itself. */
  lemma {:induction false} SplitPlain(p: string)
    requires '.' !in p
    ensures Split(p) == [p]
  {
    if p != [] {
      assert '.' !in p[1..] by {
        forall i | 0 <= i < |p[1..]| ensures p[1..][i] != '.' {
          assert p[1..][i] == p[i + 1];
        }
      }
      SplitPlain(p[1..]);
      assert [p[0]] + p[1..] == p;
    }
  }

  /** Joining the parts gives back the key path. */
  lemma {:induction false} JoinSplit(s: string)
    ensures Join(Split(s)) == s
  {
    if s != [] {
      var rest := Split(s[1..]);
      JoinSplit(s[1..]);
      if s[0] == '.' {
        assert Split(s) == [[]] + rest;
        assert Join(Split(s)) == [] + "." + Join(rest);
      } else {
        var parts := [[s[0]] + rest[0]] + rest[1..];
        assert Split(s) == parts;
        if |rest| == 1 {
          assert Join(parts) == [s[0]] + rest[0];
        } else {
          assert parts[1..] == rest[1..];
          assert Join(parts) == [s[0]] + rest[0] + "." + Join(rest[1..]);
        }
      }
    }
  }

  /** Splitting a join of dot-free parts gives back the parts. */
  lemma {:induction false} SplitJoin(parts: seq<string>)
    requires |parts| >= 1 && forall i :: 0 <= i < |parts| ==> '.' !in parts[i]
    ensures Split(Join(parts)) == parts
  {
    SplitPlain(parts[0]);
    if |parts| > 1 {
      SplitJoin(parts[1..]);
      SplitAppend(parts[0], Join(parts[1..]));
      assert parts == [parts[0]] + parts[1..];
    }
  }

  // ---------------------------------------------------------------------
  // The dotted walk.

  /** The value at `keys` below `v`: `None` as soon as a key is missing or
      the value reached is not a mapping. */
  function Walk(v: Yaml, keys: seq<string>): (r: Option<Yaml>)
    decreases |keys|
  {
    if keys == [] then Some(v)
    else if v.Dict? && keys[0] in v.entries then Walk(v.entries[keys[0]], keys[1..])
    else None
  }

  /** What `get(key_path, default)` returns. */
  function Lookup(root: Yaml, keyPath: string, default: Yaml): Yaml
  {
    match Walk(root, Split(keyPath))
    case None => default
    case Some(x) => x
  }

  /** A walk along a concatenation is a walk along each part in turn. */
  lemma {:induction false} WalkAppend(v: Yaml, a: seq<string>, b: seq<string>)
    ensures Walk(v, a + b) == (match Walk(v, a) case None => None case Some(x) => Walk(x, b))
    decreases |a|
  {
    if a == [] {
      assert a + b == b;
    } else {
      assert (a + b)[0] == a[0] && (a + b)[1..] == a[1..] + b;
      if v.Dict? && a[0] in v.entries {
        WalkAppend(v.entries[a[0]], a[1..], b);
      }
    }
  }

  /** `get("a.b")` is the lookup of "b" in the value at "a", and the default
      when there is nothing at "a". */
  lemma LookupDotted(root: Yaml, a: string, b: string, default: Yaml)
    ensures Walk(root, Split(a)).Some? ==>
      Lookup(root, a + "." + b, default) == Lookup(Walk(root, Split(a)).value, b, default)
    ensures Walk(root, Split(a)).None? ==> Lookup(root, a + "." + b, default) == default
  {
    SplitAppend(a, b);
    WalkAppend(root, Split(a), Split(b));
  }

  /** A found value is returned as it is, even `None`: the default is only
      for a missing path. */
  lemma FoundValueWins(root: Yaml, keyPath: string, d1: Yaml, d2: Yaml)
    requires Walk(root, Split(keyPath)).Some?
    ensures Lookup(root, keyPath, d1) == Lookup(root, keyPath, d2) == Walk(root, Split(keyPath)).value
  {
  }

  /** A single key reads the top-level mapping directly. */
  lemma LookupTopLevel(entries: map<string, Yaml>, key: string, default: Yaml)
    requires '.' !in key
    ensures key in entries ==> Lookup(Dict(entries), key, default) == entries[key]
    ensures key !in entries ==> Lookup(Dict(entries), key, default) == default
  {
    SplitPlain(key);
    if key in entries {
      assert Walk(Dict(entries), [key]) == Walk(entries[key], []);
    }
  }

  /** Below a document that was never loaded every path gives the default. */
  lemma UnloadedGivesDefault(keyPath: string, default: Yaml)
    ensures Lookup(Yaml.Null, keyPath, default) == default
  {
  }

  /** One `Config` object; `config` is `_config`, `Null` until loaded. */
  class Config {
    var config: Yaml

    constructor ()
      ensures config == Yaml.Null
    {
      config := Yaml.Null;
    }

    /** `get`: walk the split path one key at a time. */
    method Get(keyPath: string, default: Yaml) returns (v: Yaml)
      ensures v == Lookup(config, keyPath, default)
    {
      var keys := Split(keyPath);
      v := config;
      var i := 0;
      while i < |keys|
        invariant 0 <= i <= |keys|
        invariant Walk(config, keys) == Walk(v, keys[i..])
      {
        if v.Dict? && keys[i] in v.entries {
          assert keys[i..][1..] == keys[i + 1..];
          v := v.entries[keys[i]];
        } else {
          return default;
        }
        i := i + 1;
      }
      assert keys[i..] == [];
    }

    /** `get_section`: the top-level entry or an empty mapping. Calling
        `.get` on anything but a mapping (an unloaded `None` included)
        raises `AttributeError`. */
    method GetSection(section: string) returns (r: Result<Yaml, string>)
      ensures config.Dict? && section in config.entries ==> r == Ok(config.entries[section])
      ensures config.Dict? && section !in config.entries ==> r == Ok(Dict(map[]))
      ensures !config.Dict? <==> r == Err("AttributeError")
    {
      if !config.Dict? {
        return Err("AttributeError");
      }
      if section in config.entries {
        r := Ok(config.entries[section]);
      } else {
        r := Ok(Dict(map[]));
      }
    }
  }

  /** The `Config` class itself and its `_instance` slot. */
  class ConfigClass {
    var instance: Config?

    constructor ()
      ensures instance == null
    {
      instance := null;
    }

    /** `Config()`. The first call creates the instance, stores it in
        `_instance`, and only then loads the file: a missing file raises
        `FileNotFoundError` but leaves the stored instance unloaded. Every
        later call returns the stored instance and loads nothing. */
    method New(file: Option<Yaml>) returns (r: Result<Config, string>)
      modifies this
      ensures instance != null
      ensures old(instance) != null ==> instance == old(instance) && r.Ok? && r.value == instance && unchanged(instance)
      ensures old(instance) == null ==> fresh(instance)
      ensures old(instance) == null && file.Some? ==> r.Ok? && r.value == instance && instance.config == file.value
      ensures old(instance) == null && file.None? ==> r == Err("FileNotFoundError") && instance.config == Yaml.Null
    {
      if instance == null {
        var c := new Config();
        instance := c;
        if file.None? {
          return Err("FileNotFoundError");
        }
        c.config := file.value;
      }
      r := Ok(instance);
    }
  }
}
