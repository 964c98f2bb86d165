/**
 * The two container helpers of the utilities module: `check_list`, which
 * wraps a single item in a list, and `safeget`, which walks a path of keys
 * through nested dictionaries.
 */
module Helpers {
  import opened Wrappers

  /**
   * The values the helpers are applied to: parsed records made of
   * scalars, lists and dictionaries with string keys. `Null` is the
   * language's `None` stored as a value.
   */
  datatype Val = Null | Scalar(text: string) | List(items: seq<Val>) | Dict(entries: map<string, Val>)

  // ---------------------------------------------------------------------
  // check_list

  /** A list is returned as it is; anything else becomes a list of one item. */
  function CheckList(v: Val): (r: Val)
    ensures r.List?
    ensures v.List? ==> r == v
    ensures !v.List? ==> r.items == [v]
  {
    if v.List? then v else List([v])
  }

  /** Anything that `check_list` returns is left alone by a second call. */
  lemma CheckListIdempotent(v: Val)
    ensures CheckList(CheckList(v)) == CheckList(v)
    ensures CheckList(v).items != [] || v == List([])
  {
  }

  // ---------------------------------------------------------------------
  // safeget

  /**
   * The outcome of indexing `d` with each key in turn: the value reached,
   * `None` as soon as a dictionary lacks the key, and a type error when a
   * key is applied to something that is not a dictionary.
   */
  function Lookup(d: Val, keys: seq<string>): Result<Option<Val>>
    decreases |keys|
  {
    if keys == [] then Ok(Some(d))
    else if !d.Dict? then Raise(TypeError)
    else if keys[0] !in d.entries then Ok(None)
    else Lookup(d.entries[keys[0]], keys[1..])
  }

  /** `safeget(dct, *keys)`: one indexing step per key, stopping at the first missing key. */
  method SafeGet(d: Val, keys: seq<string>) returns (r: Result<Option<Val>>)
    ensures r == Lookup(d, keys)
  {
    var dct := d;
    var i := 0;
    while i < |keys|
      invariant 0 <= i <= |keys|
      invariant Lookup(d, keys) == Lookup(dct, keys[i..])
    {
      assert keys[i..][1..] == keys[i + 1..];
      if !dct.Dict? {
        return Raise(TypeError);
      }
      if keys[i] !in dct.entries {
        return Ok(None);
      }
      dct := dct.entries[keys[i]];
      i := i + 1;
    }
    return Ok(Some(dct));
  }

  /** A path is followed key by key: looking up `a + b` is looking up `b` where `a` leads. */
  lemma {:induction false} LookupAppend(d: Val, a: seq<string>, b: seq<string>)
    ensures Lookup(d, a + b) == match Lookup(d, a)
                                case Ok(Some(v)) => Lookup(v, b)
                                case other => other
    decreases |a|
  {
    if a == [] {
      assert a + b == b;
    } else if d.Dict? && a[0] in d.entries {
      assert (a + b)[0] == a[0];
      assert (a + b)[1..] == a[1..] + b;
      LookupAppend(d.entries[a[0]], a[1..], b);
    } else {
      assert (a + b)[0] == a[0];
    }
  }

  /** A lookup only succeeds along a path that every dictionary on the way has. */
  lemma {:induction false} LookupFound(d: Val, keys: seq<string>, v: Val)
    requires Lookup(d, keys) == Ok(Some(v))
    ensures keys != [] ==> d.Dict? && keys[0] in d.entries
    ensures keys == [] ==> v == d
    ensures |keys| == 1 ==> v == d.entries[keys[0]]
    decreases |keys|
  {
    if |keys| == 1 {
      assert keys[1..] == [];
    }
  }

  /**
   * A key missing from the dictionary that a path `a` leads to gives `None`,
   * at any depth and whatever keys follow it.
   */
  lemma MissingKey(d: Val, a: seq<string>, v: Val, key: string, rest: seq<string>)
    requires Lookup(d, a) == Ok(Some(v)) && v.Dict? && key !in v.entries
    ensures Lookup(d, a + [key] + rest) == Ok(None)
  {
    assert a + [key] + rest == a + ([key] + rest);
    LookupAppend(d, a, [key] + rest);
    assert ([key] + rest)[0] == key;
  }

  /**
   * A key applied to something that is not a dictionary, at the end of any
   * path, is a type error rather than `None`.
   */
  lemma NotADictionary(d: Val, a: seq<string>, v: Val, key: string, rest: seq<string>)
    requires Lookup(d, a) == Ok(Some(v)) && !v.Dict?
    ensures Lookup(d, a + [key] + rest) == Raise(TypeError)
  {
    assert a + [key] + rest == a + ([key] + rest);
    LookupAppend(d, a, [key] + rest);
  }

  /** `v` wrapped in one single-entry dictionary per key, outermost key first. */
  function Nest(keys: seq<string>, v: Val): Val
    decreases |keys|
  {
    if keys == [] then v else Dict(map[keys[0] := Nest(keys[1..], v)])
  }

  /** A value stored at a path of dictionaries is found again along that path. */
  lemma {:induction false} LookupNested(keys: seq<string>, v: Val)
    ensures Lookup(Nest(keys, v), keys) == Ok(Some(v))
    decreases |keys|
  {
    if keys != [] {
      LookupNested(keys[1..], v);
    }
  }
}
