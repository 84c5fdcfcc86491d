/**
 * The `L.state` object itself: three fields that its methods update in place. Each
 * method here performs the steps of its source counterpart on the fields and is proved
 * to leave exactly the state that the matching function of `UrlState` describes.
 */
module StateStore {
  import opened Wrappers
  import Js
  import SP = SearchParams
  import opened UrlState

  class Store {
    /** `L.state.params`: the current query pairs. */
    var params: SP.Params
    /** `L.state.config`: null until `configure` first runs. */
    var config: Option<Config>
    /** `L.state.aliases`: null until `configure` first runs. */
    var aliases: Option<AliasIndex>

    /** The fields as a value. */
    function Snapshot(): State
      reads this
    {
      State(params, config, aliases)
    }

    /**
     * What every method keeps: the pairs are sorted with one value per key, the two Maps
     * are created together, and the configuration holds each key once.
     */
    ghost predicate Valid()
      reads this
    {
      && SP.SortedUnique(params)
      && (config.Some? <==> aliases.Some?)
      && (config.Some? ==> UniqueKeys(config.value))
    }

    /** The initial object: no pairs, and both Maps null. */
    constructor()
      ensures Valid()
      ensures Snapshot() == State([], None, None)
    {
      params := [];
      config := None;
      aliases := None;
    }

    /**
     * `configure(input)`: create the Maps when absent, then for each given entry merge it
     * into the stored one and register its aliases.
     */
    method Configure(input: Config)
      requires Valid()
      modifies this
      ensures Valid()
      ensures Snapshot() == UrlState.Configure(old(Snapshot()), input)
    {
      config := Some(config.GetOr([]));
      aliases := Some(aliases.GetOr(map[]));
      ghost var c0, a0 := config.value, aliases.value;
      ConfigureEntries(input);
      ConfigureKeepsUnique(c0, a0, input);
    }

    /** `configure`'s loop over the given entries, once both Maps exist. */
    method ConfigureEntries(input: Config)
      requires config.Some? && aliases.Some?
      modifies this
      ensures params == old(params) && config.Some? && aliases.Some?
      ensures (config.value, aliases.value) == ConfigureAll(old(config).value, old(aliases).value, input)
    {
      ghost var c0, a0 := config.value, aliases.value;
      var i := 0;
      while i < |input|
        invariant 0 <= i <= |input|
        invariant params == old(params)
        invariant config.Some? && aliases.Some?
        invariant (config.value, aliases.value) == ConfigureAll(c0, a0, input[..i])
      {
        var (key, e) := input[i];
        ConfigureAllStep(c0, a0, input, i);
        config := Some(Put(config.value, key, Merge(Lookup(config.value, key), e)));
        if e.aliases.Some? {
          RegisterAliases(e.aliases.value, key);
        }
        i := i + 1;
      }
      assert input[..|input|] == input;
    }

    /** `cfg.aliases.forEach(alias => aliases.set(alias, key))`: later names win. */
    method RegisterAliases(names: seq<string>, key: string)
      requires aliases.Some?
      modifies this
      ensures aliases == Some(Register(old(aliases).value, names, key))
      ensures params == old(params) && config == old(config)
    {
      var j := 0;
      while j < |names|
        invariant 0 <= j <= |names|
        invariant params == old(params) && config == old(config)
        invariant aliases == Some(Register(old(aliases).value, names[..j], key))
      {
        aliases := Some(aliases.value[names[j] := key]);
        assert names[..j + 1] == names[..j] + [names[j]];
        j := j + 1;
      }
      assert names[..|names|] == names;
    }

    /**
     * `aliased(key, {reverse: true})`: sort the key's stored aliases by length, in place,
     * and give the first one (or the key).
     */
    method AliasedReverse(key: string) returns (r: string)
      modifies this
      ensures r == ShortestAlias(old(config), key)
      ensures config == SortAliases(old(config), key)
      ensures params == old(params) && aliases == old(aliases)
      ensures old(Valid()) ==> Valid()
    {
      r := key;
      if config.Some? {
        SortAliasesKeepsKeys(config.value, key);
        var found := Lookup(config.value, key);
        assert AliasList(config, key) == if found.Some? then found.value.aliases else None;
        if found.Some? && found.value.aliases.Some? {
          var e := found.value;
          var sorted := Js.SortByLength(e.aliases.value);
          config := Some(Put(config.value, key, e.(aliases := Some(sorted))));
          if sorted != [] && sorted[0] != "" {
            r := sorted[0];
          }
        }
      }
    }

    /**
     * `set(key, val)`. On success gives what `set` returns; an error is what it throws,
     * and then nothing has changed.
     */
    method Set(key: string, val: Option<string>) returns (r: Result<Option<string>>)
      requires SP.SortedUnique(params)
      modifies this
      ensures SP.SortedUnique(params)
      ensures config == old(config) && aliases == old(aliases)
      ensures var out := UrlState.Set(old(Snapshot()), key, val);
        && (r.Ok? <==> out.Ok?)
        && (out.Ok? ==> r.value == out.value.0 && params == out.value.1)
        && (out.Err? ==> r.error == out.error && params == old(params))
    {
      ghost var st0 := Snapshot();
      SP.SortedUniqueIsUnique(params);
      match Aliased(aliases, key)
      case Err(e) =>
        r := Err(e);
      case Ok(k) =>
        match Indexed(Snapshot(), k, val)
        case Err(e) =>
          r := Err(e);
        case Ok(v) =>
          match Validate(config, k, v)
          case Err(e) =>
            r := Err(e);
          case Ok(_) =>
            if v.Some? && SP.Get(params, k) != v {
              SP.SetThenSort(params, k, v.value);
              params := SP.Set(params, k, v.value);
              params := SP.Sort(params);
              assert UrlState.Set(st0, key, val) == Ok((v, params));
            } else {
              assert UrlState.Set(st0, key, val) == Ok((v, params));
            }
            r := Ok(v);
    }

    /** `del(key)`: whether the resolved key was present; it is then removed. */
    method Del(key: string) returns (r: Result<bool>)
      requires SP.SortedUnique(params)
      modifies this
      ensures SP.SortedUnique(params)
      ensures config == old(config) && aliases == old(aliases)
      ensures var out := UrlState.Del(old(Snapshot()), key);
        && (r.Ok? <==> out.Ok?)
        && (out.Ok? ==> r.value == out.value.0 && params == out.value.1)
        && (out.Err? ==> r.error == out.error && params == old(params))
    {
      match Aliased(aliases, key)
      case Err(e) =>
        r := Err(e);
      case Ok(k) =>
        match Validate(config, k, None)
        case Err(e) =>
          r := Err(e);
        case Ok(_) =>
          if SP.Has(params, k) {
            SP.DeleteKeepsSorted(params, k);
            params := SP.Delete(params, k);
            r := Ok(true);
          } else {
            r := Ok(false);
          }
    }

    /**
     * The `load`/`popstate` handler, given the decoded query pairs: clear the pairs, set
     * each given pair, then set every default whose key reads as null. An error ends the
     * handler where it is thrown.
     */
    method Refresh(pairs: SP.Params) returns (r: Result<()>)
      requires Valid()
      modifies this
      ensures Valid()
      ensures config == old(config) && aliases == old(aliases)
      ensures (r, params) == UrlState.Refresh(old(Snapshot()), pairs)
      ensures r.Ok? && config.Some? && aliases.Some? && Coherent(config.value, aliases.value) ==> Settled(Snapshot())
    {
      ghost var st0 := Snapshot();
      params := [];
      r := SetPairs(pairs);
      if r.Err? {
        return;
      }
      if config.None? {
        return Err(TypeError);
      }
      r := SetDefaults(config.value);
      if r.Ok? && Coherent(config.value, aliases.value) {
        RefreshSettles(st0, pairs);
      }
    }

    /** `pairs.forEach((val, key) => set(key, val))`, ended by the first error. */
    method SetPairs(pairs: SP.Params) returns (r: Result<()>)
      requires SP.SortedUnique(params)
      modifies this
      ensures SP.SortedUnique(params)
      ensures config == old(config) && aliases == old(aliases)
      ensures (r, params) == LoadPairs(old(Snapshot()), pairs)
    {
      ghost var st0 := Snapshot();
      r := Ok(());
      var i := 0;
      while i < |pairs| && r.Ok?
        invariant 0 <= i <= |pairs|
        invariant SP.SortedUnique(params)
        invariant config == st0.config && aliases == st0.aliases
        invariant LoadPairs(st0, pairs[..i]) == (r, params)
      {
        r := SetPairAt(st0, pairs, i);
        i := i + 1;
      }
      if r.Err? {
        LoadPairsStops(st0, pairs, i);
      } else {
        assert pairs[..i] == pairs;
      }
    }

    /** One turn of that loop: `set` the pair at `i`. */
    method SetPairAt(ghost st0: State, pairs: SP.Params, i: nat) returns (r: Result<()>)
      requires i < |pairs| && SP.SortedUnique(params)
      requires config == st0.config && aliases == st0.aliases
      requires LoadPairs(st0, pairs[..i]) == (Ok(()), params)
      modifies this
      ensures SP.SortedUnique(params)
      ensures config == st0.config && aliases == st0.aliases
      ensures LoadPairs(st0, pairs[..i + 1]) == (r, params)
    {
      LoadPairsStep(st0, pairs, i);
      var s := Set(pairs[i].0, Some(pairs[i].1));
      r := if s.Err? then Err(s.error) else Ok(());
    }

    /**
     * `config.forEach((cfg, key) => ...)`: set each non-empty default whose key reads as
     * null, ended by the first error.
     */
    method SetDefaults(entries: Config) returns (r: Result<()>)
      requires SP.SortedUnique(params)
      modifies this
      ensures SP.SortedUnique(params)
      ensures config == old(config) && aliases == old(aliases)
      ensures (r, params) == ApplyDefaults(old(Snapshot()), entries)
    {
      ghost var st0 := Snapshot();
      var j := 0;
      r := Ok(());
      while j < |entries| && r.Ok?
        invariant 0 <= j <= |entries|
        invariant SP.SortedUnique(params)
        invariant config == st0.config && aliases == st0.aliases
        invariant ApplyDefaults(st0, entries[..j]) == (r, params)
      {
        assert entries[..j + 1][..j] == entries[..j];
        r := SetDefault(entries[j].0, entries[j].1);
        j := j + 1;
      }
      if r.Err? {
        ApplyDefaultsStops(st0, entries, j);
      } else {
        assert entries[..j] == entries;
      }
    }

    /** One round of the defaults loop: a key with a non-empty default and no value gets it. */
    method SetDefault(key: string, e: Entry) returns (r: Result<()>)
      requires SP.SortedUnique(params)
      modifies this
      ensures SP.SortedUnique(params)
      ensures config == old(config) && aliases == old(aliases)
      ensures (r, params) == DefaultStep(old(Snapshot()), key, e)
    {
      r := Ok(());
      if e.defaultValue.Some? && e.defaultValue.value != "" {
        SP.SortedUniqueIsUnique(params);
        match UrlState.Get(Snapshot(), key)
        case Err(err) =>
          r := Err(err);
        case Ok(g) =>
          if g.None? {
            var s := Set(key, e.defaultValue);
            if s.Err? {
              r := Err(s.error);
            }
          }
      }
    }

    /**
     * The query of `url({short: true})`: each stored pair under its shortest alias and
     * with its value's index, sorted. Sorting each key's aliases in place is its side effect.
     */
    method ShortUrlPairs() returns (short: SP.Params)
      requires Valid()
      modifies this
      ensures Valid()
      ensures UrlState.ShortPairs(old(Snapshot())) == Ok(short)
      ensures params == old(params) && aliases == old(aliases)
      ensures config == SortAllAliases(old(config), params)
      ensures old(Settled(Snapshot()) && AliasesCoherent(config.value, aliases.value) && IndexableValues(config.value, params))
        ==> UrlState.Refresh(old(Snapshot()), short) == (Ok(()), params)
    {
      ghost var st0 := Snapshot();
      var l := ShortenPairs();
      SortAllAliasesKeeps(st0, params, "");
      if config.Some? {
        SameKeysUnique(st0.config.value, config.value);
      }
      ShortListUnique(st0, params);
      short := SP.Sort(l);
      if Settled(st0) && AliasesCoherent(st0.config.value, st0.aliases.value) && IndexableValues(st0.config.value, params) {
        ReloadShort(st0);
      }
    }

    /** The loop of `url({short: true})`: each pair's short key and short value, set in turn. */
    method ShortenPairs() returns (l: SP.Params)
      requires config.Some? <==> aliases.Some?
      modifies this
      ensures ShortList(old(Snapshot()), params) == Ok(l)
      ensures params == old(params) && aliases == old(aliases)
      ensures config == SortAllAliases(old(config), params)
    {
      ghost var st0 := Snapshot();
      l := [];
      var i := 0;
      assert params[..0] == [];
      while i < |params|
        invariant 0 <= i <= |params|
        invariant params == st0.params && aliases == st0.aliases
        invariant config == SortAllAliases(st0.config, params[..i])
        invariant ShortList(st0, params[..i]) == Ok(l)
      {
        l := ShortenAt(st0, i, l);
        i := i + 1;
      }
      assert params[..|params|] == params;
    }

    /** One turn of that loop, on the pair at `i`: `aliased` and `indexed` in reverse, then `set`. */
    method ShortenAt(ghost st0: State, i: nat, l: SP.Params) returns (l': SP.Params)
      requires st0.config.Some? <==> st0.aliases.Some?
      requires i < |params| && params == st0.params && aliases == st0.aliases
      requires config == SortAllAliases(st0.config, params[..i])
      requires ShortList(st0, params[..i]) == Ok(l)
      modifies this
      ensures params == st0.params && aliases == st0.aliases
      ensures config == SortAllAliases(st0.config, params[..i + 1])
      ensures ShortList(st0, params[..i + 1]) == Ok(l')
    {
      var (key, val) := params[i];
      SortAllAliasesKeeps(st0, params[..i], key);
      ShortListStep(st0, params, i);
      var shortKey := AliasedReverse(key);
      SortAllAliasesKeeps(st0, params[..i + 1], key);
      assert Snapshot() == st0.(config := SortAllAliases(st0.config, params[..i + 1]));
      var shortVal := IndexedReverse(Snapshot(), key, val).value;
      assert shortVal == IndexedReverse(st0, key, val).value;
      l' := SP.Set(l, shortKey, shortVal);
    }
  }
}
