/**
 * The URL-backed state store `L.state` as values: the store's three fields form a
 * `State`, and each operation is a function from a state (and its arguments) to its
 * result, its error, and the new parameter list. The class in store.dfy runs the same
 * operations step by step and is proved to agree with these functions.
 */
module UrlState {
  import opened Wrappers
  import Js
  import SP = SearchParams

  // ---------------------------------------------------------------------------
  // The store's data
  // ---------------------------------------------------------------------------

  /** A key's configuration: each property is absent (None) unless some `configure` supplied it. */
  datatype Entry = Entry(defaultValue: Option<string>, options: Option<seq<string>>, aliases: Option<seq<string>>)

  /** The configuration `Map`, as its entries in insertion order (the order `forEach` visits). */
  type Config = seq<(string, Entry)>

  /** The alias `Map`: each alias to the long-form key it was registered for. */
  type AliasIndex = map<string, string>

  /**
   * `L.state`: the parameter list, and the configuration and alias maps, both null until
   * the first `configure`.
   */
  datatype State = State(params: SP.Params, config: Option<Config>, aliases: Option<AliasIndex>)

  /** What the store throws: a TypeError from a null map, or its two validation errors. */
  datatype Error = TypeError | InvalidKey(key: string) | InvalidValue(key: string, value: string)

  datatype Result<+T> = Ok(value: T) | Err(error: Error) {
    predicate IsFailure() { Err? }
    function PropagateFailure<U>(): Result<U> requires Err? { Err(error) }
    function Extract(): T requires Ok? { value }
  }

  // ---------------------------------------------------------------------------
  // The configuration Map
  // ---------------------------------------------------------------------------

  /** The configured keys in insertion order. */
  function KeyList(c: Config): (ks: seq<string>)
    ensures |ks| == |c|
    ensures forall i :: 0 <= i < |c| ==> ks[i] == c[i].0
  {
    seq(|c|, i requires 0 <= i < |c| => c[i].0)
  }

  /** A Map holds each key once. */
  predicate UniqueKeys(c: Config) {
    forall i, j :: 0 <= i < j < |c| ==> c[i].0 != c[j].0
  }

  /** Uniqueness depends on the key list alone. */
  lemma SameKeysUnique(c: Config, d: Config)
    requires KeyList(c) == KeyList(d) && UniqueKeys(c)
    ensures UniqueKeys(d)
  {
    forall i, j | 0 <= i < j < |d| ensures d[i].0 != d[j].0 {
      assert KeyList(c)[i] == d[i].0 && KeyList(c)[j] == d[j].0;
    }
  }

  /** Where `key` sits in the Map, or |c| when it is not there. */
  function Find(c: Config, key: string): (i: nat)
    ensures i <= |c|
    ensures i < |c| ==> c[i].0 == key
    ensures forall j :: 0 <= j < i ==> c[j].0 != key
  {
    if c == [] then 0
    else if c[0].0 == key then 0
    else 1 + Find(c[1..], key)
  }

  /** The position `Find` returns is the first one holding the key. */
  lemma {:induction false} FindIs(c: Config, key: string, i: nat)
    requires i <= |c| && (i < |c| ==> c[i].0 == key)
    requires forall j :: 0 <= j < i ==> c[j].0 != key
    ensures Find(c, key) == i
  {
    if c != [] && i > 0 {
      FindIs(c[1..], key, i - 1);
    }
  }

  /** `config.get(key)`. */
  function Lookup(c: Config, key: string): (r: Option<Entry>)
    ensures r.Some? <==> key in KeyList(c)
    ensures r.Some? ==> (key, r.value) in c
  {
    var i := Find(c, key);
    if i < |c| then Some(c[i].1) else None
  }

  /** In a Map with unique keys, `get` returns the entry stored under the key. */
  lemma LookupUnique(c: Config, i: int)
    requires UniqueKeys(c) && 0 <= i < |c|
    ensures Lookup(c, c[i].0) == Some(c[i].1)
  {
    FindIs(c, c[i].0, i);
  }

  /** `config.set(key, e)`: replace the entry in place, or add the key at the end. */
  function Put(c: Config, key: string, e: Entry): (r: Config)
    ensures Lookup(r, key) == Some(e)
    ensures |c| <= |r| <= |c| + 1
  {
    var i := Find(c, key);
    if i < |c| then
      FindIs(c[i := (key, e)], key, i);
      c[i := (key, e)]
    else
      FindIs(c + [(key, e)], key, |c|);
      c + [(key, e)]
  }

  /** A new key goes last; a key already there keeps its place. */
  lemma PutKeys(c: Config, key: string, e: Entry)
    ensures KeyList(Put(c, key, e)) == if key in KeyList(c) then KeyList(c) else KeyList(c) + [key]
  {
    var r := Put(c, key, e);
    if Find(c, key) < |c| {
      assert KeyList(r) == KeyList(c);
    } else {
      assert key !in KeyList(c);
      assert KeyList(r) == KeyList(c) + [key];
    }
  }

  /** Setting keeps the keys unique. */
  lemma PutUnique(c: Config, key: string, e: Entry)
    requires UniqueKeys(c)
    ensures UniqueKeys(Put(c, key, e))
  {
    if Find(c, key) == |c| {
      assert key !in KeyList(c);
    }
  }

  /** Setting one key leaves the entries of every other key as they were, all at once. */
  lemma PutOthers(c: Config, key: string, e: Entry)
    ensures forall k :: k != key ==> Lookup(Put(c, key, e), k) == Lookup(c, k)
  {
    forall k | k != key {
      PutOther(c, key, e, k);
    }
  }

  /** Setting one key leaves the entries of every other key as they were. */
  lemma PutOther(c: Config, key: string, e: Entry, k: string)
    requires k != key
    ensures Lookup(Put(c, key, e), k) == Lookup(c, k)
  {
    var r := Put(c, key, e);
    var i := Find(c, k);
    if i < |c| {
      FindIs(r, k, i);
    } else {
      FindIs(r, k, |r|);
    }
  }

  /** Adding an entry at the end leaves the lookups of earlier keys alone. */
  lemma LookupSnoc(c: Config, x: (string, Entry), k: string)
    ensures Lookup(c + [x], k)
         == if Lookup(c, k).Some? then Lookup(c, k) else if x.0 == k then Some(x.1) else None
  {
    var i := Find(c, k);
    if i < |c| {
      FindIs(c + [x], k, i);
    } else {
      FindIs(c + [x], k, if x.0 == k then |c| else |c| + 1);
    }
  }

  // ---------------------------------------------------------------------------
  // configure
  // ---------------------------------------------------------------------------

  /** One property of an object spread `{...stored, ...given}`: the given one when present. */
  function Override<T>(stored: Option<T>, given: Option<T>): Option<T> {
    if given.Some? then given else stored
  }

  /** `{...(config.get(key) || {}), ...e}`: the shallow merge of the stored and given entries. */
  function Merge(stored: Option<Entry>, e: Entry): (r: Entry)
    ensures stored.None? ==> r == e
    ensures e.defaultValue.Some? ==> r.defaultValue == e.defaultValue
    ensures e.options.Some? ==> r.options == e.options
    ensures e.aliases.Some? ==> r.aliases == e.aliases
    ensures stored.Some? ==>
      && (e.defaultValue.None? ==> r.defaultValue == stored.value.defaultValue)
      && (e.options.None? ==> r.options == stored.value.options)
      && (e.aliases.None? ==> r.aliases == stored.value.aliases)
  {
    var s := stored.GetOr(Entry(None, None, None));
    Entry(Override(s.defaultValue, e.defaultValue), Override(s.options, e.options), Override(s.aliases, e.aliases))
  }

  /** `names.forEach(alias => aliases.set(alias, key))`. */
  function Register(a: AliasIndex, names: seq<string>, key: string): (r: AliasIndex)
    ensures r == a + map n | n in names :: key
  {
    if names == [] then a
    else
      RegisterSnoc(a, names, names[..|names| - 1], key);
      Register(a, names[..|names| - 1], key)[names[|names| - 1] := key]
  }

  /** Registering one more alias after the others. */
  lemma RegisterSnoc(a: AliasIndex, names: seq<string>, init: seq<string>, key: string)
    requires names != [] && init == names[..|names| - 1]
    ensures (a + map n | n in init :: key)[names[|names| - 1] := key]
         == a + map n | n in names :: key
  {
    assert names == init + [names[|names| - 1]];
  }

  /** One step of `configure`'s loop: merge the entry, then register the entry's own aliases. */
  function ConfigureEntry(c: Config, a: AliasIndex, key: string, e: Entry): (r: (Config, AliasIndex))
    ensures Lookup(r.0, key) == Some(Merge(Lookup(c, key), e))
  {
    (Put(c, key, Merge(Lookup(c, key), e)), if e.aliases.Some? then Register(a, e.aliases.value, key) else a)
  }

  /**
   * What else one step of `configure` does: every other key keeps its entry, the entry's
   * own aliases now name the key, and every other alias keeps its registration.
   */
  lemma ConfigureEntryOthers(c: Config, a: AliasIndex, key: string, e: Entry)
    ensures var r := ConfigureEntry(c, a, key, e);
      && (forall k :: k != key ==> Lookup(r.0, k) == Lookup(c, k))
      && (e.aliases.Some? ==> forall n :: n in e.aliases.value ==> n in r.1 && r.1[n] == key)
      && (forall n :: n in a && (e.aliases.None? || n !in e.aliases.value) ==> n in r.1 && r.1[n] == a[n])
      && (forall n :: n in r.1 ==> n in a || (e.aliases.Some? && n in e.aliases.value))
  {
    PutOthers(c, key, Merge(Lookup(c, key), e));
  }

  /** One step of `configure` adds the key at the end when it is new, and otherwise keeps the keys. */
  lemma ConfigureEntryKeys(c: Config, a: AliasIndex, key: string, e: Entry)
    ensures KeyList(ConfigureEntry(c, a, key, e).0) == if key in KeyList(c) then KeyList(c) else KeyList(c) + [key]
  {
    PutKeys(c, key, Merge(Lookup(c, key), e));
  }

  /**
   * `configure`'s loop over `Object.entries(config)`, given in that order. It keeps the
   * keys already configured in their places and adds the new ones after them: the keys
   * afterwards are the old ones and the given ones.
   */
  function ConfigureAll(c: Config, a: AliasIndex, input: Config): (r: (Config, AliasIndex))
    ensures KeyList(c) <= KeyList(r.0)
    ensures forall k :: k in KeyList(r.0) <==> k in KeyList(c) || k in KeyList(input)
  {
    if input == [] then (c, a)
    else
      var init, x := input[..|input| - 1], input[|input| - 1];
      var (c', a') := ConfigureAll(c, a, init);
      ConfigureEntryKeys(c', a', x.0, x.1);
      assert KeyList(input) == KeyList(init) + [x.0];
      ConfigureEntry(c', a', x.0, x.1)
  }

  /** One more given entry: configure it after the ones before it. */
  lemma ConfigureAllStep(c: Config, a: AliasIndex, input: Config, i: nat)
    requires i < |input|
    ensures var (c', a') := ConfigureAll(c, a, input[..i]);
      ConfigureAll(c, a, input[..i + 1]) == ConfigureEntry(c', a', input[i].0, input[i].1)
  {
    assert input[..i + 1][..i] == input[..i];
  }

  /** `L.state.configure(input)`: both maps are created on first use; params is untouched. */
  function Configure(st: State, input: Config): (r: State)
    ensures r.params == st.params && r.config.Some? && r.aliases.Some?
  {
    var (c, a) := ConfigureAll(st.config.GetOr([]), st.aliases.GetOr(map[]), input);
    State(st.params, Some(c), Some(a))
  }

  /**
   * After `configure`, a key's entry is the shallow merge of its old entry and the given
   * one, and keys not given keep their entry. (The given keys are an object's property
   * names, hence distinct.)
   */
  lemma {:induction false} ConfigureMerges(c: Config, a: AliasIndex, input: Config, k: string)
    requires UniqueKeys(input)
    ensures Lookup(ConfigureAll(c, a, input).0, k)
         == if Lookup(input, k).Some? then Some(Merge(Lookup(c, k), Lookup(input, k).value)) else Lookup(c, k)
  {
    if input != [] {
      var init, x := input[..|input| - 1], input[|input| - 1];
      assert input == init + [x];
      assert UniqueKeys(init);
      ConfigureMerges(c, a, init, k);
      LookupSnoc(init, x, k);
      var c' := ConfigureAll(c, a, init).0;
      if k != x.0 {
        PutOther(c', x.0, Merge(Lookup(c', x.0), x.1), k);
      } else {
        assert x.0 !in KeyList(init);
      }
    }
  }

  /** The key of the last given entry that lists `n` among its aliases. */
  function LastOwner(input: Config, n: string): Option<string> {
    if input == [] then None
    else
      var x := input[|input| - 1];
      if x.1.aliases.Some? && n in x.1.aliases.value then Some(x.0) else LastOwner(input[..|input| - 1], n)
  }

  /**
   * After `configure`, an alias listed by some given entry maps to the key of the last
   * such entry; every other alias keeps its earlier registration.
   */
  lemma {:induction false} ConfigureRegistersAliases(c: Config, a: AliasIndex, input: Config, n: string)
    ensures var r := ConfigureAll(c, a, input).1;
      match LastOwner(input, n)
      case Some(key) => n in r && r[n] == key
      case None => (n in r <==> n in a) && (n in a ==> r[n] == a[n])
  {
    if input != [] {
      ConfigureRegistersAliases(c, a, input[..|input| - 1], n);
    }
  }

  /** `configure` keeps the configured keys unique. */
  lemma {:induction false} ConfigureKeepsUnique(c: Config, a: AliasIndex, input: Config)
    requires UniqueKeys(c)
    ensures UniqueKeys(ConfigureAll(c, a, input).0)
  {
    if input != [] {
      var init, x := input[..|input| - 1], input[|input| - 1];
      ConfigureKeepsUnique(c, a, init);
      var c' := ConfigureAll(c, a, init).0;
      PutUnique(c', x.0, Merge(Lookup(c', x.0), x.1));
    }
  }

  // ---------------------------------------------------------------------------
  // aliased
  // ---------------------------------------------------------------------------

  /**
   * `aliased(key)`: the long-form key registered for the alias `key`, or `key` itself
   * when none (or an empty one) is registered. The alias Map is read without `?.`, so
   * before `configure` this throws a TypeError.
   */
  function Aliased(aliases: Option<AliasIndex>, key: string): (r: Result<string>)
    ensures r.Err? <==> aliases.None?
    ensures r.Err? ==> r.error == TypeError
    ensures r.Ok? ==> r.value == key || (key in aliases.value && r.value == aliases.value[key] != "")
    ensures r.Ok? && key in aliases.value && aliases.value[key] != "" ==> r.value == aliases.value[key]
  {
    match aliases
    case None => Err(TypeError)
    case Some(a) => Ok(if key in a && a[key] != "" then a[key] else key)
  }

  /** The `aliases` array stored under `key`, when the key is configured with one. */
  function AliasList(config: Option<Config>, key: string): Option<seq<string>> {
    if config.None? then None
    else match Lookup(config.value, key)
      case None => None
      case Some(e) => e.aliases
  }

  /**
   * `aliased(key, {reverse: true})`: the first of the shortest aliases stored for `key`,
   * or `key` when there are none or that alias is empty.
   */
  function ShortestAlias(config: Option<Config>, key: string): (r: string)
    ensures var als := AliasList(config, key);
      if als.Some? && als.value != [] && als.value[Js.FirstShortest(als.value)] != ""
      then r == als.value[Js.FirstShortest(als.value)]
      else r == key
  {
    var als := AliasList(config, key);
    if als.None? || als.value == [] then key
    else
      Js.SortByLengthHead(als.value);
      var s := Js.SortByLength(als.value)[0];
      if s == "" then key else s
  }

  /**
   * The side effect of `aliased(key, {reverse: true})`: `sort` reorders the stored
   * `aliases` array of `key` in place.
   */
  function SortAliases(config: Option<Config>, key: string): (r: Option<Config>)
    ensures r.Some? <==> config.Some?
    ensures config.Some? ==> KeyList(r.value) == KeyList(config.value)
    ensures AliasList(config, key).None? ==> r == config
  {
    match config
    case None => None
    case Some(c) =>
      match Lookup(c, key)
      case None => config
      case Some(e) =>
        if e.aliases.None? then config
        else Some(Put(c, key, e.(aliases := Some(Js.SortByLength(e.aliases.value)))))
  }

  /** After the sort the key's aliases are the same ones, ordered by length. */
  lemma SortAliasesSorts(config: Option<Config>, key: string)
    requires AliasList(config, key).Some?
    ensures var r := AliasList(SortAliases(config, key), key);
      && r.Some?
      && multiset(r.value) == multiset(AliasList(config, key).value)
      && Js.LengthSorted(r.value)
  {
  }

  /** Sorting a key's aliases in place keeps the keys, their order and their uniqueness. */
  lemma SortAliasesKeepsKeys(config: Config, key: string)
    ensures SortAliases(Some(config), key).Some?
    ensures KeyList(SortAliases(Some(config), key).value) == KeyList(config)
    ensures UniqueKeys(config) ==> UniqueKeys(SortAliases(Some(config), key).value)
  {
    var e := Lookup(config, key);
    if e.Some? && e.value.aliases.Some? {
      var e' := e.value.(aliases := Some(Js.SortByLength(e.value.aliases.value)));
      PutKeys(config, key, e');
      if UniqueKeys(config) {
        PutUnique(config, key, e');
      }
    }
  }

  /** What `get` sees after the sort: the key's entry with its aliases sorted, every other entry as before. */
  lemma SortAliasesLookup(config: Config, key: string, k: string)
    ensures var e := Lookup(config, key);
      Lookup(SortAliases(Some(config), key).value, k)
        == if k == key && e.Some? && e.value.aliases.Some?
           then Some(e.value.(aliases := Some(Js.SortByLength(e.value.aliases.value))))
           else Lookup(config, k)
  {
    var e := Lookup(config, key);
    if e.Some? && e.value.aliases.Some? && k != key {
      PutOther(config, key, e.value.(aliases := Some(Js.SortByLength(e.value.aliases.value))), k);
    }
  }

  /**
   * Sorting a key's aliases in place changes no entry but in the order of that key's
   * aliases: every key keeps its options and default and the same aliases.
   */
  lemma SortAliasesKeepsEntries(config: Config, key: string, k: string)
    ensures var r := SortAliases(Some(config), key).value;
      && Lookup(r, k).Some? == Lookup(config, k).Some?
      && (Lookup(r, k).Some? ==> Lookup(r, k).value.(aliases := None) == Lookup(config, k).value.(aliases := None))
      && AliasList(Some(r), k).Some? == AliasList(Some(config), k).Some?
      && (AliasList(Some(r), k).Some? ==>
            multiset(AliasList(Some(r), k).value) == multiset(AliasList(Some(config), k).value))
  {
    SortAliasesLookup(config, key, k);
  }

  /** After sorting, the first of the shortest is the first element, as it was before. */
  lemma SortedShortestIsFirst(als: seq<string>)
    requires als != []
    ensures var sorted := Js.SortByLength(als);
      sorted != [] && sorted[Js.FirstShortest(sorted)] == als[Js.FirstShortest(als)]
  {
    var sorted := Js.SortByLength(als);
    Js.SortByLengthIdempotent(sorted);
    Js.SortByLengthHead(sorted);
    Js.SortByLengthHead(als);
  }

  /** Sorting a key's aliases in place keeps the shortest alias of every key. */
  lemma SortAliasesKeepsShortest(config: Config, key: string, k: string)
    ensures ShortestAlias(SortAliases(Some(config), key), k) == ShortestAlias(Some(config), k)
  {
    SortAliasesLookup(config, key, k);
    var e := Lookup(config, key);
    if k == key && e.Some? && e.value.aliases.Some? {
      var als := e.value.aliases.value;
      var r := SortAliases(Some(config), key);
      assert AliasList(r, k) == Some(Js.SortByLength(als));
      assert AliasList(Some(config), k) == Some(als);
      if als != [] {
        SortedShortestIsFirst(als);
      } else {
        assert Js.SortByLength(als) == [];
      }
    } else {
      assert AliasList(SortAliases(Some(config), key), k) == AliasList(Some(config), k);
    }
  }

  /**
   * Round trip of the two directions: when every alias listed for a configured key is
   * registered to that key, resolving its shortest alias gives the key back. The key
   * itself need resolve to itself only when it has no non-empty shortest alias.
   */
  lemma AliasRoundTrip(config: Config, aliases: AliasIndex, key: string)
    requires key != ""
    requires ShortestAlias(Some(config), key) == key ==> Aliased(Some(aliases), key) == Ok(key)
    requires forall n :: n in AliasList(Some(config), key).GetOr([]) && n != "" ==> n in aliases && aliases[n] == key
    ensures Aliased(Some(aliases), ShortestAlias(Some(config), key)) == Ok(key)
  {
    var als := AliasList(Some(config), key);
    if als.Some? && als.value != [] {
      var i := Js.FirstShortest(als.value);
      assert als.value[i] in als.value;
    }
  }

  // ---------------------------------------------------------------------------
  // indexed
  // ---------------------------------------------------------------------------

  /**
   * The `options` of `config.get(aliased(key))`. When the configuration is null the
   * optional chain stops before `aliased` runs; otherwise a null alias Map throws.
   */
  function OptionsFor(st: State, key: string): (r: Result<Option<seq<string>>>)
    ensures r.Err? <==> st.config.Some? && st.aliases.None?
    ensures r.Ok? && r.value.Some? ==> (st.config.Some? &&
      exists k :: Aliased(st.aliases, key) == Ok(k) && Lookup(st.config.value, k).Some?
                  && Lookup(st.config.value, k).value.options == r.value)
    ensures st.config.None? ==> r == Ok(None)
    ensures st.config.Some? && st.aliases.Some? ==>
      var e := Lookup(st.config.value, Aliased(st.aliases, key).value);
      r == Ok(if e.Some? then e.value.options else None)
  {
    match st.config
    case None => Ok(None)
    case Some(c) =>
      var k :- Aliased(st.aliases, key);
      match Lookup(c, k)
      case None => Ok(None)
      case Some(e) => Ok(e.options)
  }

  /**
   * `(options && options[parseInt(val)]) || val`: the option a numeral names, when it
   * names a non-empty one, else the value as given (also for a non-string value, None).
   */
  function PickOption(opts: Option<seq<string>>, val: Option<string>): (r: Option<string>)
    ensures r != val ==> opts.Some? && val.Some? && r.Some? && r.value in opts.value && r.value != ""
    ensures r != val ==>
      && opts.Some? && val.Some? && Js.ParseInt(val.value).Some?
      && var n := Js.ParseInt(val.value).value;
      && 0 <= n < |opts.value| && r == Some(opts.value[n])
    ensures r != val <==>
      && opts.Some? && val.Some? && Js.ParseInt(val.value).Some?
      && 0 <= Js.ParseInt(val.value).value < |opts.value|
      && opts.value[Js.ParseInt(val.value).value] != "" && opts.value[Js.ParseInt(val.value).value] != val.value
  {
    if opts.None? || val.None? then val
    else match Js.ParseInt(val.value)
      case None => val
      case Some(n) => if 0 <= n < |opts.value| && opts.value[n] != "" then Some(opts.value[n]) else val
  }

  /** `indexed(key, val)`: the forward direction, from an index to the option it names. */
  function Indexed(st: State, key: string, val: Option<string>): (r: Result<Option<string>>)
    ensures r.Err? <==> st.config.Some? && st.aliases.None?
    ensures st.config.None? ==> r == Ok(val)
    ensures r.Ok? && r.value != val ==> (OptionsFor(st, key).value.Some? && r.value.Some?
      && r.value.value in OptionsFor(st, key).value.value && r.value.value != "")
    ensures r.Ok? ==> r.value == PickOption(OptionsFor(st, key).value, val)
  {
    var opts :- OptionsFor(st, key);
    Ok(PickOption(opts, val))
  }

  /** `options.indexOf(v)`: the first position holding `v`, or -1. */
  function IndexOf(xs: seq<string>, v: string): (i: int)
    ensures -1 <= i < |xs|
    ensures i == -1 <==> v !in xs
    ensures i >= 0 ==> xs[i] == v && forall j :: 0 <= j < i ==> xs[j] != v
  {
    if xs == [] then -1
    else if xs[0] == v then 0
    else
      var i := IndexOf(xs[1..], v);
      if i == -1 then -1 else i + 1
  }

  /**
   * `indexed(key, val, {reverse: true})`: the decimal position of `val` in the key's
   * options, `"-1"` when it is not among them, or `val` when the key has no options.
   */
  function IndexedReverse(st: State, key: string, val: string): (r: Result<string>)
    ensures r.Err? <==> st.config.Some? && st.aliases.None?
    ensures r.Ok? && OptionsFor(st, key).value.None? ==> r.value == val
  {
    var opts :- OptionsFor(st, key);
    Ok(if opts.Some? then Js.Decimal(IndexOf(opts.value, val)) else val)
  }

  /** A value outside the options list comes back as "-1" rather than as itself. */
  lemma IndexReverseAbsent(st: State, key: string, val: string)
    requires OptionsFor(st, key).Ok? && OptionsFor(st, key).value.Some?
    requires val !in OptionsFor(st, key).value.value
    ensures IndexedReverse(st, key, val) == Ok("-1")
  {
    assert Js.DigitChar(1) == '1';
    assert Js.Decimal(-1) == "-1";
    assert IndexOf(OptionsFor(st, key).value.value, val) == -1;
  }

  /**
   * A value among the options comes back as the numeral of its first position: `parseInt`
   * reads that position back.
   */
  lemma IndexReversePosition(st: State, key: string, val: string)
    requires OptionsFor(st, key).Ok? && OptionsFor(st, key).value.Some?
    requires val in OptionsFor(st, key).value.value
    ensures var opts := OptionsFor(st, key).value.value;
      var r := IndexedReverse(st, key, val);
      && r.Ok? && Js.ParseInt(r.value).Some?
      && var i := Js.ParseInt(r.value).value;
      && 0 <= i < |opts| && opts[i] == val
      && forall j :: 0 <= j < i ==> opts[j] != val
  {
    Js.ParseIntOfDecimal(IndexOf(OptionsFor(st, key).value.value, val));
  }

  /** Round trip: a non-empty option goes to its position and back to itself. */
  lemma IndexRoundTrip(opts: seq<string>, v: string)
    requires v in opts && v != ""
    ensures PickOption(Some(opts), Some(Js.Decimal(IndexOf(opts, v)))) == Some(v)
  {
    Js.ParseIntOfDecimal(IndexOf(opts, v));
  }

  // ---------------------------------------------------------------------------
  // validate
  // ---------------------------------------------------------------------------

  /** An entry accepts a value unless it lists options that do not include it. */
  predicate Admits(e: Entry, v: string) {
    e.options.None? || v in e.options.value
  }

  /**
   * `validate(key, val)`: with no configuration everything passes; otherwise the key must
   * be configured and a string value must be admitted by its entry.
   */
  function Validate(config: Option<Config>, key: string, val: Option<string>): (r: Result<()>)
    ensures r.Ok? <==> (config.None? ||
      (Lookup(config.value, key).Some? && (val.None? || Admits(Lookup(config.value, key).value, val.value))))
    ensures r == Err(InvalidKey(key)) <==> config.Some? && Lookup(config.value, key).None?
    ensures r.Err? && r.error.InvalidValue? ==> r.error == InvalidValue(key, val.value)
  {
    match config
    case None => Ok(())
    case Some(c) =>
      match Lookup(c, key)
      case None => Err(InvalidKey(key))
      case Some(e) => if val.Some? && !Admits(e, val.value) then Err(InvalidValue(key, val.value)) else Ok(())
  }

  // ---------------------------------------------------------------------------
  // get, set, del
  // ---------------------------------------------------------------------------

  /**
   * `get(key)`: resolve the alias, validate the key, and read the first value stored
   * under it; `|| null` turns a stored empty string into null.
   */
  function Get(st: State, key: string): (r: Result<Option<string>>)
    ensures st.aliases.None? ==> r == Err(TypeError)
    ensures st.aliases.Some? ==>
      var k := Aliased(st.aliases, key).value;
      && (r.Err? <==> st.config.Some? && Lookup(st.config.value, k).None?)
      && (r.Err? ==> r.error == InvalidKey(k))
      && (r.Ok? ==> r.value == if SP.Get(st.params, k) == Some("") then None else SP.Get(st.params, k))
  {
    var k :- Aliased(st.aliases, key);
    var _ :- Validate(st.config, k, None);
    var v := SP.Get(st.params, k);
    Ok(if v.Some? && v.value != "" then v else None)
  }

  /**
   * `set(key, val)`: resolve the alias, forward-index the value (`indexed` resolves the
   * alias once more), validate, and when the value is a string other than the stored one,
   * store it and re-sort. Gives the value `set` returns and the new parameters; an error
   * leaves the parameters as they were.
   */
  function Set(st: State, key: string, val: Option<string>): (r: Result<(Option<string>, SP.Params)>)
    ensures st.aliases.None? ==> r == Err(TypeError)
    ensures r.Ok? && r.value.0.None? ==> r.value.1 == st.params
    ensures r.Ok? && SP.UniqueNames(st.params) ==> SP.SortedUnique(r.value.1) || r.value.1 == st.params
  {
    var k :- Aliased(st.aliases, key);
    match Indexed(st, k, val)
    case Err(e) => Err(e)
    case Ok(v) =>
      var _ :- Validate(st.config, k, v);
      if v.Some? && SP.Get(st.params, k) != v then
        SP.SetThenSort(st.params, k, v.value);
        Ok((v, SP.Sort(SP.Set(st.params, k, v.value))))
      else Ok((v, st.params))
  }

  /**
   * What `set` does: with `k` the resolved key and `v` the forward-indexed value, it fails
   * exactly when validation of `(k, v)` fails, with that error; otherwise it returns `v`,
   * and when `v` is a string the parameters map `k` to `v` with every other key as before
   * (on unique names). When `v` is already stored, nothing changes.
   */
  lemma SetResolvesIndexesValidates(st: State, key: string, val: Option<string>)
    requires st.aliases.Some?
    ensures var k := Aliased(st.aliases, key).value;
      && Indexed(st, k, val).Ok?
      && var v := Indexed(st, k, val).value;
      && var r := Set(st, key, val);
      && (r.Err? <==> Validate(st.config, k, v).Err?)
      && (r.Err? ==> r.error == Validate(st.config, k, v).error)
      && (r.Ok? ==> r.value.0 == v)
      && (r.Ok? && v.Some? && SP.UniqueNames(st.params) ==> SP.AsMap(r.value.1) == SP.AsMap(st.params)[k := v.value])
      && (r.Ok? && SP.Get(st.params, k) == v ==> r.value.1 == st.params)
  {
    var k := Aliased(st.aliases, key).value;
    var v := Indexed(st, k, val).value;
    if v.Some? && SP.Get(st.params, k) == v {
      assert SP.AsMap(st.params)[k := v.value] == SP.AsMap(st.params);
    } else if v.Some? {
      SP.SetThenSort(st.params, k, v.value);
    }
  }

  /** Repeating a successful `set` changes nothing more. */
  lemma SetIdempotent(st: State, key: string, val: Option<string>)
    requires Set(st, key, val).Ok? && SP.UniqueNames(st.params)
    ensures var (v, p) := Set(st, key, val).value;
      Set(st.(params := p), key, val) == Ok((v, p))
  {
    SetResolvesIndexesValidates(st, key, val);
    var (v, p) := Set(st, key, val).value;
    var st' := st.(params := p);
    SetResolvesIndexesValidates(st', key, val);
  }

  /**
   * `del(key)`: resolve the alias and validate the key, then delete it. Reports whether
   * the key was present; only that key is removed.
   */
  function Del(st: State, key: string): (r: Result<(bool, SP.Params)>)
    ensures st.aliases.None? ==> r == Err(TypeError)
    ensures st.aliases.Some? ==>
      var k := Aliased(st.aliases, key).value;
      && (r.Err? <==> st.config.Some? && Lookup(st.config.value, k).None?)
      && (r.Err? ==> r.error == InvalidKey(k))
      && (r.Ok? ==> (r.value.0 <==> k in SP.AsMap(st.params)))
      && (r.Ok? ==> SP.AsMap(r.value.1) == SP.AsMap(st.params) - {k})
      && (r.Ok? ==> forall x :: x in r.value.1 <==> x in st.params && x.0 != k)
    ensures r.Ok? && SP.SortedUnique(st.params) ==> SP.SortedUnique(r.value.1)
  {
    var k :- Aliased(st.aliases, key);
    var _ :- Validate(st.config, k, None);
    if SP.Has(st.params, k) then
      SP.DeleteKeepsSorted(st.params, k);
      Ok((true, SP.Delete(st.params, k)))
    else
      SP.NamesMapped(st.params, k);
      Ok((false, st.params))
  }

  /** A second `del` of the same key finds nothing and changes nothing. */
  lemma DelTwice(st: State, key: string)
    requires Del(st, key).Ok?
    ensures var p := Del(st, key).value.1;
      Del(st.(params := p), key) == Ok((false, p))
  {
  }

  // ---------------------------------------------------------------------------
  // The load handler
  // ---------------------------------------------------------------------------

  /**
   * `pairs.forEach((val, key) => set(key, val))`: the parameters after setting each pair
   * in turn. The first error ends the loop, leaving the parameters reached so far.
   */
  function LoadPairs(st: State, pairs: SP.Params): (r: (Result<()>, SP.Params))
    ensures SP.SortedUnique(st.params) ==> SP.SortedUnique(r.1)
    ensures st.config.None? ==> r.0.Ok? || r.0 == Err(TypeError)
  {
    if pairs == [] then (Ok(()), st.params)
    else
      var (res, p) := LoadPairs(st, pairs[..|pairs| - 1]);
      if res.Err? then (res, p)
      else
        var x := pairs[|pairs| - 1];
        SP.SortedUniqueIsUnique(p);
        match Set(st.(params := p), x.0, Some(x.1))
        case Err(e) => (Err(e), p)
        case Ok(out) => (Ok(()), out.1)
  }

  /** One more pair: `set` it on the parameters reached so far. */
  lemma LoadPairsStep(st: State, pairs: SP.Params, i: nat)
    requires i < |pairs| && LoadPairs(st, pairs[..i]).0.Ok?
    ensures var p := LoadPairs(st, pairs[..i]).1;
      var s := Set(st.(params := p), pairs[i].0, Some(pairs[i].1));
      LoadPairs(st, pairs[..i + 1]) == if s.Err? then (Err(s.error), p) else (Ok(()), s.value.1)
  {
    assert pairs[..i + 1][..i] == pairs[..i];
  }

  /** Once setting a pair has failed, the later pairs are not set. */
  lemma {:induction false} LoadPairsStops(st: State, pairs: SP.Params, n: nat)
    requires n <= |pairs| && LoadPairs(st, pairs[..n]).0.Err?
    ensures LoadPairs(st, pairs) == LoadPairs(st, pairs[..n])
  {
    if n < |pairs| {
      var init := pairs[..|pairs| - 1];
      assert init[..n] == pairs[..n];
      LoadPairsStops(st, init, n);
      assert LoadPairs(st, pairs) == LoadPairs(st, init);
    } else {
      assert pairs[..n] == pairs;
    }
  }

  /**
   * The default loop's body for one entry: when the key has a non-empty default and
   * `get(key)` gives null, `set(key, cfg.default)`.
   */
  function DefaultStep(st: State, key: string, e: Entry): (r: (Result<()>, SP.Params))
    ensures SP.SortedUnique(st.params) ==> SP.SortedUnique(r.1)
  {
    if e.defaultValue.None? || e.defaultValue.value == "" then (Ok(()), st.params)
    else
      SP.SortedUniqueIsUnique(st.params);
      match Get(st, key)
      case Err(err) => (Err(err), st.params)
      case Ok(g) =>
        if g.Some? then (Ok(()), st.params)
        else match Set(st, key, e.defaultValue)
          case Err(err) => (Err(err), st.params)
          case Ok(out) => (Ok(()), out.1)
  }

  /** `config.forEach(...)` over the given entries, stopping at the first error. */
  function ApplyDefaults(st: State, entries: Config): (r: (Result<()>, SP.Params))
    ensures SP.SortedUnique(st.params) ==> SP.SortedUnique(r.1)
  {
    if entries == [] then (Ok(()), st.params)
    else
      var (res, p) := ApplyDefaults(st, entries[..|entries| - 1]);
      if res.Err? then (res, p)
      else DefaultStep(st.(params := p), entries[|entries| - 1].0, entries[|entries| - 1].1)
  }

  /** Once a default has failed, the later entries are not visited. */
  lemma {:induction false} ApplyDefaultsStops(st: State, entries: Config, n: nat)
    requires n <= |entries| && ApplyDefaults(st, entries[..n]).0.Err?
    ensures ApplyDefaults(st, entries) == ApplyDefaults(st, entries[..n])
  {
    if n < |entries| {
      var init := entries[..|entries| - 1];
      assert init[..n] == entries[..n];
      ApplyDefaultsStops(st, init, n);
      assert ApplyDefaults(st, entries) == ApplyDefaults(st, init);
    } else {
      assert entries[..n] == entries;
    }
  }

  /**
   * The body of the `load`/`popstate` handler, given the decoded query pairs: clear the
   * parameters, set each pair, then apply the defaults in configuration order. Writing
   * the URL is left out; an unguarded `config.forEach` throws before `configure`.
   */
  function Refresh(st: State, pairs: SP.Params): (r: (Result<()>, SP.Params))
    ensures st.config.None? ==> r.0 == Err(TypeError)
    ensures SP.SortedUnique(r.1)
  {
    var (res, p) := LoadPairs(st.(params := []), pairs);
    if res.Err? then (res, p)
    else if st.config.None? then (Err(TypeError), p)
    else ApplyDefaults(st.(params := p), st.config.value)
  }

  /** The outcome of `refresh` depends on the pairs and the configuration, not on the old parameters. */
  lemma RefreshForgetsParams(st: State, pairs: SP.Params, p: SP.Params)
    ensures Refresh(st.(params := p), pairs) == Refresh(st, pairs)
  {
    assert st.(params := p).(params := []) == st.(params := []);
  }

  /** So running the load handler again on the same pairs gives the same parameters. */
  lemma RefreshTwice(st: State, pairs: SP.Params)
    ensures Refresh(st.(params := Refresh(st, pairs).1), pairs) == Refresh(st, pairs)
  {
    RefreshForgetsParams(st, pairs, Refresh(st, pairs).1);
  }

  // ---------------------------------------------------------------------------
  // What a successful load handler leaves behind
  // ---------------------------------------------------------------------------

  /** Every stored pair has a configured key and a value its entry admits. */
  predicate Admitted(c: Config, p: SP.Params) {
    forall x :: x in p ==> Lookup(c, x.0).Some? && Admits(Lookup(c, x.0).value, x.1)
  }

  /** Each of the first `n` entries with a non-empty default has a non-empty value stored. */
  predicate DefaultsHeld(c: Config, p: SP.Params, n: nat) {
    forall i :: 0 <= i < n && i < |c| && c[i].1.defaultValue.Some? && c[i].1.defaultValue.value != "" ==>
      SP.Get(p, c[i].0).Some? && SP.Get(p, c[i].0) != Some("")
  }

  /**
   * The value a key holds once its default has been applied, given the value `held` it
   * was loaded with: a non-empty default replaces a missing or empty value, and is
   * forward-indexed on the way in like any value `set` stores; otherwise the loaded value
   * stays.
   */
  function DefaultFor(st: State, key: string, e: Entry, held: Option<string>): (r: Option<string>)
    requires st.aliases.Some?
    ensures r != held ==> e.defaultValue.Some? && e.defaultValue.value != "" && (held.None? || held == Some(""))
    ensures e.defaultValue.Some? && e.defaultValue.value != "" ==> r.Some? && r.value != ""
  {
    if e.defaultValue.Some? && e.defaultValue.value != "" && (held.None? || held == Some("")) then
      Indexed(st, key, e.defaultValue).value
    else held
  }

  /**
   * After the defaults of the first `n` entries of the configuration have been applied to
   * the loaded parameters `st.params`, giving `p`: each of those keys holds `DefaultFor`
   * of its loaded value, and every later key still holds its loaded value.
   */
  predicate DefaultsApplied(st: State, p: SP.Params, n: nat)
    requires st.config.Some? && st.aliases.Some?
  {
    var c := st.config.value;
    && (forall i :: 0 <= i < n && i < |c| ==>
          SP.Get(p, c[i].0) == DefaultFor(st, c[i].0, c[i].1, SP.Get(st.params, c[i].0)))
    && (forall i :: n <= i < |c| ==> SP.Get(p, c[i].0) == SP.Get(st.params, c[i].0))
  }

  /**
   * A configuration whose keys are unique and are not aliases of other keys (every
   * configured key resolves to itself).
   */
  predicate Coherent(c: Config, a: AliasIndex) {
    && UniqueKeys(c)
    && forall i :: 0 <= i < |c| ==> Aliased(Some(a), c[i].0) == Ok(c[i].0)
  }

  /** The state a load handler leaves: sorted unique pairs, all admitted, all defaults held. */
  predicate Settled(st: State) {
    && st.config.Some?
    && SP.SortedUnique(st.params)
    && Admitted(st.config.value, st.params)
    && DefaultsHeld(st.config.value, st.params, |st.config.value|)
  }

  /** A successful `set` stores only a pair it has validated. */
  lemma SetKeepsAdmitted(st: State, key: string, val: Option<string>)
    requires st.config.Some? && Set(st, key, val).Ok?
    requires Admitted(st.config.value, st.params)
    ensures Admitted(st.config.value, Set(st, key, val).value.1)
  {
    var k := Aliased(st.aliases, key).value;
    var v := Indexed(st, k, val).value;
    if v.Some? && SP.Get(st.params, k) != v {
      var q := SP.Set(st.params, k, v.value);
      var r := SP.Sort(q);
      forall x | x in r ensures Lookup(st.config.value, x.0).Some? && Admits(Lookup(st.config.value, x.0).value, x.1) {
        assert x in multiset(r);
        assert x in q;
      }
    }
  }

  lemma {:induction false} LoadPairsAdmitted(st: State, pairs: SP.Params)
    requires st.config.Some? && Admitted(st.config.value, st.params)
    ensures Admitted(st.config.value, LoadPairs(st, pairs).1)
  {
    if pairs != [] {
      LoadPairsAdmitted(st, pairs[..|pairs| - 1]);
      var (res, p) := LoadPairs(st, pairs[..|pairs| - 1]);
      var x := pairs[|pairs| - 1];
      if res.Ok? && Set(st.(params := p), x.0, Some(x.1)).Ok? {
        SetKeepsAdmitted(st.(params := p), x.0, Some(x.1));
      }
    }
  }

  /** One default step stores only admitted pairs. */
  lemma DefaultStepAdmitted(st: State, key: string, e: Entry)
    requires st.config.Some? && Admitted(st.config.value, st.params)
    ensures Admitted(st.config.value, DefaultStep(st, key, e).1)
  {
    if e.defaultValue.Some? && e.defaultValue.value != "" && Get(st, key) == Ok(None) && Set(st, key, e.defaultValue).Ok? {
      SetKeepsAdmitted(st, key, e.defaultValue);
    }
  }

  /**
   * One default step on a key that resolves to itself leaves every other key's value
   * alone; on success the key holds `DefaultFor` of the value it had, so a non-empty
   * value when its default is non-empty.
   */
  lemma DefaultStepHolds(st: State, key: string, e: Entry)
    requires st.config.Some? && st.aliases.Some? && Aliased(st.aliases, key) == Ok(key)
    requires Lookup(st.config.value, key).Some? && SP.UniqueNames(st.params)
    ensures var r := DefaultStep(st, key, e);
      && SP.AsMap(r.1) - {key} == SP.AsMap(st.params) - {key}
      && (r.0.Ok? ==> SP.Get(r.1, key) == DefaultFor(st, key, e, SP.Get(st.params, key)))
      && (r.0.Ok? && e.defaultValue.Some? && e.defaultValue.value != "" ==>
            SP.Get(r.1, key).Some? && SP.Get(r.1, key) != Some(""))
  {
    if e.defaultValue.Some? && e.defaultValue.value != "" && Get(st, key) == Ok(None) {
      SetResolvesIndexesValidates(st, key, e.defaultValue);
      var r := Set(st, key, e.defaultValue);
      if r.Ok? {
        var v := Indexed(st, key, e.defaultValue).value;
        assert v.Some? && v.value != "";
        assert SP.AsMap(r.value.1) == SP.AsMap(st.params)[key := v.value];
        assert DefaultStep(st, key, e) == (Ok(()), r.value.1);
      }
    }
  }

  lemma {:induction false} ApplyDefaultsAdmitted(st: State, entries: Config)
    requires st.config.Some? && Admitted(st.config.value, st.params)
    ensures Admitted(st.config.value, ApplyDefaults(st, entries).1)
  {
    if entries != [] {
      var n := |entries|;
      ApplyDefaultsAdmitted(st, entries[..n - 1]);
      var (res, p) := ApplyDefaults(st, entries[..n - 1]);
      if res.Ok? {
        DefaultStepAdmitted(st.(params := p), entries[n - 1].0, entries[n - 1].1);
      }
    }
  }

  /** Holding one more default, while the other keys keep their values. */
  lemma DefaultsHeldStep(c: Config, p: SP.Params, p': SP.Params, n: nat)
    requires UniqueKeys(c) && 0 < n <= |c|
    requires DefaultsHeld(c, p, n - 1)
    requires SP.AsMap(p') - {c[n - 1].0} == SP.AsMap(p) - {c[n - 1].0}
    requires c[n - 1].1.defaultValue.Some? && c[n - 1].1.defaultValue.value != "" ==>
      SP.Get(p', c[n - 1].0).Some? && SP.Get(p', c[n - 1].0) != Some("")
    ensures DefaultsHeld(c, p', n)
  {
    forall i | 0 <= i < n && c[i].1.defaultValue.Some? && c[i].1.defaultValue.value != ""
      ensures SP.Get(p', c[i].0).Some? && SP.Get(p', c[i].0) != Some("")
    {
      if i < n - 1 {
        var k := c[i].0;
        assert k != c[n - 1].0;
        assert k in SP.AsMap(p') - {c[n - 1].0} <==> k in SP.AsMap(p) - {c[n - 1].0};
      }
    }
  }

  /** `DefaultsApplied` for one more entry, while the other keys keep their values. */
  lemma DefaultsAppliedStep(st: State, p: SP.Params, p': SP.Params, n: nat)
    requires st.config.Some? && st.aliases.Some? && UniqueKeys(st.config.value)
    requires 0 < n <= |st.config.value| && DefaultsApplied(st, p, n - 1)
    requires var k := st.config.value[n - 1].0;
      && SP.AsMap(p') - {k} == SP.AsMap(p) - {k}
      && SP.Get(p', k) == DefaultFor(st, k, st.config.value[n - 1].1, SP.Get(st.params, k))
    ensures DefaultsApplied(st, p', n)
  {
    var c := st.config.value;
    var k := c[n - 1].0;
    forall i | 0 <= i < n - 1
      ensures SP.Get(p', c[i].0) == DefaultFor(st, c[i].0, c[i].1, SP.Get(st.params, c[i].0))
    {
      OtherKeyKept(c, p, p', n - 1, i);
    }
    forall i | n <= i < |c| ensures SP.Get(p', c[i].0) == SP.Get(st.params, c[i].0) {
      OtherKeyKept(c, p, p', n - 1, i);
    }
  }

  /** A step that changes only the value of key `j` keeps the value of every other key. */
  lemma OtherKeyKept(c: Config, p: SP.Params, p': SP.Params, j: int, i: int)
    requires UniqueKeys(c) && 0 <= i < |c| && 0 <= j < |c| && i != j
    requires SP.AsMap(p') - {c[j].0} == SP.AsMap(p) - {c[j].0}
    ensures SP.Get(p', c[i].0) == SP.Get(p, c[i].0)
  {
    assert c[i].0 != c[j].0;
    assert c[i].0 in SP.AsMap(p') - {c[j].0} <==> c[i].0 in SP.AsMap(p) - {c[j].0};
  }

  /**
   * Applying the defaults of the entries up to `n` holds those defaults: each of those
   * keys ends with its loaded value when that is non-empty and with its forward-indexed
   * default otherwise (`DefaultFor`), and the later keys keep their loaded values.
   */
  lemma {:induction false} ApplyDefaultsHolds(st: State, n: nat)
    requires st.config.Some? && st.aliases.Some? && Coherent(st.config.value, st.aliases.value)
    requires n <= |st.config.value|
    requires SP.SortedUnique(st.params)
    ensures var r := ApplyDefaults(st, st.config.value[..n]);
      r.0.Ok? ==> DefaultsHeld(st.config.value, r.1, n) && DefaultsApplied(st, r.1, n)
  {
    var c := st.config.value;
    if n > 0 {
      ApplyDefaultsHolds(st, n - 1);
      assert c[..n][..n - 1] == c[..n - 1];
      var (res, p) := ApplyDefaults(st, c[..n - 1]);
      if res.Ok? {
        LookupUnique(c, n - 1);
        SP.SortedUniqueIsUnique(p);
        DefaultStepHolds(st.(params := p), c[n - 1].0, c[n - 1].1);
        var r := DefaultStep(st.(params := p), c[n - 1].0, c[n - 1].1);
        assert ApplyDefaults(st, c[..n]) == r;
        if r.0.Ok? {
          DefaultsHeldStep(c, p, r.1, n);
          DefaultsAppliedStep(st, p, r.1, n);
        }
      }
    }
  }

  /**
   * After a successful load handler the store is settled, whatever the pairs, and each
   * configured key holds the value it was loaded from the URL with when that is
   * non-empty, and its forward-indexed default otherwise (`DefaultFor`).
   */
  lemma RefreshSettles(st: State, pairs: SP.Params)
    requires st.config.Some? && st.aliases.Some? && Coherent(st.config.value, st.aliases.value)
    requires Refresh(st, pairs).0.Ok?
    ensures Settled(st.(params := Refresh(st, pairs).1))
    ensures var c := st.config.value;
      var loaded := LoadPairs(st.(params := []), pairs).1;
      forall i :: 0 <= i < |c| ==>
        SP.Get(Refresh(st, pairs).1, c[i].0) == DefaultFor(st, c[i].0, c[i].1, SP.Get(loaded, c[i].0))
  {
    var c := st.config.value;
    LoadPairsAdmitted(st.(params := []), pairs);
    var p := LoadPairs(st.(params := []), pairs).1;
    ApplyDefaultsHolds(st.(params := p), |c|);
    ApplyDefaultsAdmitted(st.(params := p), c);
    assert c[..|c|] == c;
  }

  // ---------------------------------------------------------------------------
  // url({short: true})
  // ---------------------------------------------------------------------------

  /** A stored pair in short form: the key's shortest alias and the value's reverse index. */
  function Shorten(st: State, x: (string, string)): (r: Result<(string, string)>)
    ensures r.Err? <==> st.config.Some? && st.aliases.None?
    ensures r.Ok? ==> r.value.0 == ShortestAlias(st.config, x.0)
    ensures st.config.None? ==> r == Ok(x)
  {
    var v :- IndexedReverse(st, x.0, x.1);
    Ok((ShortestAlias(st.config, x.0), v))
  }

  /** The loop of `url({short: true})` over the given pairs: `params.set(shortKey, shortVal)` for each. */
  function ShortList(st: State, p: SP.Params): (r: Result<SP.Params>)
    ensures r.Err? <==> st.config.Some? && st.aliases.None? && p != []
  {
    if p == [] then Ok([])
    else
      var l :- ShortList(st, p[..|p| - 1]);
      var x :- Shorten(st, p[|p| - 1]);
      Ok(SP.Set(l, x.0, x.1))
  }

  /**
   * The parameters `url({short: true})` serializes: the short pairs of the stored
   * parameters, sorted by short key. (The side effect on the alias arrays is SortAllAliases.)
   */
  function ShortPairs(st: State): (r: Result<SP.Params>)
    ensures r.Err? <==> st.config.Some? && st.aliases.None? && st.params != []
    ensures r.Ok? ==> SP.SortedUnique(r.value)
  {
    var l :- ShortList(st, st.params);
    ShortListUnique(st, st.params);
    Ok(SP.Sort(l))
  }

  /**
   * A later pair overwrites an earlier one with the same short key: the last pair's short
   * form is in the list, and no other pair under its short key is.
   */
  lemma ShortListLastWins(st: State, p: SP.Params)
    requires p != [] && ShortList(st, p).Ok?
    ensures Shorten(st, p[|p| - 1]).Ok?
    ensures var s := Shorten(st, p[|p| - 1]).value;
      var l := ShortList(st, p).value;
      s in l && forall y :: y in l && y.0 == s.0 ==> y == s
  {
    var l := ShortList(st, p[..|p| - 1]).value;
    var s := Shorten(st, p[|p| - 1]).value;
    assert ShortList(st, p) == Ok(SP.Set(l, s.0, s.1));
  }

  lemma {:induction false} ShortListUnique(st: State, p: SP.Params)
    ensures ShortList(st, p).Ok? ==> SP.UniqueNames(ShortList(st, p).value)
  {
    if p != [] && ShortList(st, p).Ok? {
      ShortListUnique(st, p[..|p| - 1]);
      var l := ShortList(st, p[..|p| - 1]).value;
      var x := Shorten(st, p[|p| - 1]).value;
      SP.SetKeepsUnique(l, x.0, x.1);
    }
  }

  /** The side effect of the loop: the alias array of each stored key is sorted in place, in turn. */
  function SortAllAliases(config: Option<Config>, p: SP.Params): (r: Option<Config>)
    ensures r.Some? <==> config.Some?
    ensures config.Some? ==> KeyList(r.value) == KeyList(config.value)
  {
    if p == [] then config else SortAliases(SortAllAliases(config, p[..|p| - 1]), p[|p| - 1].0)
  }

  /** One more stored pair in the short-URL loop. */
  lemma ShortListStep(st: State, p: SP.Params, i: nat)
    requires i < |p| && ShortList(st, p[..i]).Ok? && Shorten(st, p[i]).Ok?
    ensures var x := Shorten(st, p[i]).value;
      ShortList(st, p[..i + 1]) == Ok(SP.Set(ShortList(st, p[..i]).value, x.0, x.1))
      && SortAllAliases(st.config, p[..i + 1]) == SortAliases(SortAllAliases(st.config, p[..i]), p[i].0)
  {
    assert p[..i + 1][..i] == p[..i];
  }

  /** Sorting one key's aliases changes no key's options, as `indexed` sees them. */
  lemma SortAliasesKeepsOptions(st: State, key: string, k: string)
    ensures OptionsFor(st.(config := SortAliases(st.config, key)), k) == OptionsFor(st, k)
  {
    if st.config.Some? && st.aliases.Some? {
      SortAliasesKeepsEntries(st.config.value, key, Aliased(st.aliases, k).value);
    }
  }

  /**
   * The side effect of the short-URL loop is harmless to the loop itself: after sorting
   * the aliases of any keys, every key has the same options, the same shortest alias, and
   * the configuration the same keys in the same order.
   */
  lemma {:induction false} SortAllAliasesKeeps(st: State, p: SP.Params, k: string)
    ensures var st' := st.(config := SortAllAliases(st.config, p));
      && OptionsFor(st', k) == OptionsFor(st, k)
      && ShortestAlias(st'.config, k) == ShortestAlias(st.config, k)
      && st'.config.Some? == st.config.Some?
      && (st.config.Some? ==> KeyList(st'.config.value) == KeyList(st.config.value))
  {
    if p != [] {
      SortAllAliasesKeeps(st, p[..|p| - 1], k);
      var mid := st.(config := SortAllAliases(st.config, p[..|p| - 1]));
      SortAliasesKeepsOptions(mid, p[|p| - 1].0, k);
      if mid.config.Some? {
        SortAliasesKeepsShortest(mid.config.value, p[|p| - 1].0, k);
        SortAliasesKeepsKeys(mid.config.value, p[|p| - 1].0);
      }
    }
  }

  // ---------------------------------------------------------------------------
  // Reloading a URL written from a settled store
  // ---------------------------------------------------------------------------

  /** The options of a configured key. */
  function KeyOptions(c: Config, k: string): Option<seq<string>> {
    match Lookup(c, k)
    case None => None
    case Some(e) => e.options
  }

  /** What `set(q.0, q.1)` stores when it succeeds and stores a string: the resolved key and indexed value. */
  function Resolved(st: State, q: (string, string)): Option<(string, string)> {
    match Aliased(st.aliases, q.0)
    case Err(_) => None
    case Ok(k) =>
      match Indexed(st, k, Some(q.1))
      case Ok(Some(v)) => if Validate(st.config, k, Some(v)).Ok? then Some((k, v)) else None
      case _ => None
  }

  /** Setting a pair that resolves to a key not yet stored adds the resolved pair. */
  lemma ResolvedSet(st: State, p: SP.Params, q: (string, string))
    requires Resolved(st, q).Some? && SP.UniqueNames(p)
    requires forall i :: 0 <= i < |p| ==> p[i].0 != Resolved(st, q).value.0
    ensures var r := Set(st.(params := p), q.0, Some(q.1));
      && r.Ok? && SP.SortedUnique(r.value.1)
      && forall x :: x in r.value.1 <==> x in p || Some(x) == Resolved(st, q)
  {
    var (k, v) := Resolved(st, q).value;
    SP.Unmapped(p, k);
    SP.SetThenSort(p, k, v);
    var st' := st.(params := p);
    assert Aliased(st'.aliases, q.0) == Ok(k);
    assert Indexed(st', k, Some(q.1)) == Ok(Some(v));
    assert Set(st', q.0, Some(q.1)) == Ok((Some(v), SP.Sort(SP.Set(p, k, v))));
    SP.SortMembers(SP.Set(p, k, v));
  }

  /**
   * Loading pairs that each resolve, to distinct keys, succeeds and leaves exactly the
   * resolved pairs, sorted, whatever order the pairs come in.
   */
  lemma {:induction false} LoadResolved(st: State, qs: SP.Params)
    requires forall j :: 0 <= j < |qs| ==> Resolved(st, qs[j]).Some?
    requires forall i, j :: 0 <= i < j < |qs| ==> Resolved(st, qs[i]).value.0 != Resolved(st, qs[j]).value.0
    ensures var r := LoadPairs(st.(params := []), qs);
      && r.0 == Ok(())
      && SP.SortedUnique(r.1)
      && forall x :: x in r.1 <==> exists j :: 0 <= j < |qs| && Resolved(st, qs[j]) == Some(x)
  {
    if qs != [] {
      var n := |qs|;
      var init, q := qs[..n - 1], qs[n - 1];
      assert forall j :: 0 <= j < n - 1 ==> init[j] == qs[j];
      LoadResolved(st, init);
      var p := LoadPairs(st.(params := []), init).1;
      ResolvedFresh(st, qs, init, p);
      SP.SortedUniqueIsUnique(p);
      ResolvedSet(st, p, q);
      assert st.(params := []).(params := p) == st.(params := p);
      LoadPairsStep(st.(params := []), qs, n - 1);
      assert qs[..n - 1] == init && qs[..n] == qs;
      var r := Set(st.(params := p), q.0, Some(q.1)).value.1;
      assert LoadPairs(st.(params := []), qs) == (Ok(()), r);
      ResolvedMembersSnoc(st, qs, init, p, r);
    }
  }

  /** The key the last pair resolves to is not among those the earlier pairs resolve to. */
  lemma ResolvedFresh(st: State, qs: SP.Params, init: SP.Params, p: SP.Params)
    requires qs != [] && init == qs[..|qs| - 1]
    requires forall j :: 0 <= j < |qs| ==> Resolved(st, qs[j]).Some?
    requires forall i, j :: 0 <= i < j < |qs| ==> Resolved(st, qs[i]).value.0 != Resolved(st, qs[j]).value.0
    requires forall x :: x in p <==> exists j :: 0 <= j < |init| && Resolved(st, init[j]) == Some(x)
    ensures forall i :: 0 <= i < |p| ==> p[i].0 != Resolved(st, qs[|qs| - 1]).value.0
  {
    forall i | 0 <= i < |p| ensures p[i].0 != Resolved(st, qs[|qs| - 1]).value.0 {
      assert p[i] in p;
      var j :| 0 <= j < |init| && Resolved(st, init[j]) == Some(p[i]);
      assert init[j] == qs[j];
    }
  }

  /** The resolved pairs of some pairs and one more are those of the first ones and its own. */
  lemma ResolvedMembersSnoc(st: State, qs: SP.Params, init: SP.Params, p: SP.Params, r: SP.Params)
    requires qs != [] && init == qs[..|qs| - 1]
    requires forall x :: x in p <==> exists j :: 0 <= j < |init| && Resolved(st, init[j]) == Some(x)
    requires forall x :: x in r <==> x in p || Some(x) == Resolved(st, qs[|qs| - 1])
    ensures forall x :: x in r <==> exists j :: 0 <= j < |qs| && Resolved(st, qs[j]) == Some(x)
  {
    var n := |qs|;
    forall x ensures x in r <==> exists j :: 0 <= j < n && Resolved(st, qs[j]) == Some(x) {
      if x in p {
        var j :| 0 <= j < n - 1 && Resolved(st, init[j]) == Some(x);
        assert Resolved(st, qs[j]) == Some(x);
      }
      if exists j :: 0 <= j < n && Resolved(st, qs[j]) == Some(x) {
        var j :| 0 <= j < n && Resolved(st, qs[j]) == Some(x);
        if j < n - 1 {
          assert Resolved(st, init[j]) == Some(x);
        }
      }
    }
  }

  /** When every non-empty default is held, the default loop changes nothing. */
  lemma {:induction false} DefaultsKept(st: State, n: nat)
    requires st.config.Some? && st.aliases.Some? && Coherent(st.config.value, st.aliases.value)
    requires n <= |st.config.value| && DefaultsHeld(st.config.value, st.params, |st.config.value|)
    ensures ApplyDefaults(st, st.config.value[..n]) == (Ok(()), st.params)
  {
    var c := st.config.value;
    if n > 0 {
      DefaultsKept(st, n - 1);
      assert c[..n][..n - 1] == c[..n - 1];
      LookupUnique(c, n - 1);
    }
  }

  /** Two sorted lists of unique names holding the same pairs are the same list. */
  lemma SamePairs(a: SP.Params, b: SP.Params)
    requires SP.SortedUnique(a) && SP.SortedUnique(b)
    requires forall x :: x in a <==> x in b
    ensures a == b
  {
    SP.SortedUniqueIsUnique(a);
    SP.SortedUniqueIsUnique(b);
    SP.SameMap(a, b);
    SP.SortedUniqueExtensional(a, b);
  }

  /** Each key of a settled store is configured, so it resolves to itself in a coherent one. */
  lemma StoredKeyResolves(st: State, x: (string, string))
    requires st.config.Some? && st.aliases.Some? && Coherent(st.config.value, st.aliases.value)
    requires Admitted(st.config.value, st.params) && x in st.params
    ensures Aliased(st.aliases, x.0) == Ok(x.0)
    ensures OptionsFor(st, x.0) == Ok(KeyOptions(st.config.value, x.0))
  {
    var c := st.config.value;
    assert x.0 in KeyList(c);
    var i :| 0 <= i < |c| && KeyList(c)[i] == x.0;
  }

  /**
   * Reloading the long URL: setting the stored pairs again gives back the same store,
   * provided no stored value reads as the index of a different option.
   */
  lemma ReloadLong(st: State)
    requires st.aliases.Some? && Settled(st) && Coherent(st.config.value, st.aliases.value)
    requires forall x :: x in st.params ==> PickOption(KeyOptions(st.config.value, x.0), Some(x.1)) == Some(x.1)
    ensures Refresh(st, st.params) == (Ok(()), st.params)
  {
    var p, c := st.params, st.config.value;
    forall j | 0 <= j < |p| ensures Resolved(st, p[j]) == Some(p[j]) {
      StoredResolves(st, p[j]);
    }
    SP.SortedUniqueIsUnique(p);
    LoadResolved(st, p);
    var r := LoadPairs(st.(params := []), p).1;
    forall x ensures x in r <==> x in p {
      if x in p {
        var j :| 0 <= j < |p| && p[j] == x;
        assert Resolved(st, p[j]) == Some(x);
      }
    }
    SamePairs(r, p);
    DefaultsKept(st, |c|);
    assert c[..|c|] == c;
  }

  /** A stored pair whose value names no other option resolves to itself. */
  lemma StoredResolves(st: State, x: (string, string))
    requires st.aliases.Some? && Settled(st) && Coherent(st.config.value, st.aliases.value)
    requires x in st.params && PickOption(KeyOptions(st.config.value, x.0), Some(x.1)) == Some(x.1)
    ensures Resolved(st, x) == Some(x)
  {
    StoredKeyResolves(st, x);
  }

  /**
   * A coherent configuration in which no key is empty and every alias listed for a key is
   * registered to that key: what the short form needs to find its keys again.
   */
  predicate AliasesCoherent(c: Config, a: AliasIndex) {
    && Coherent(c, a)
    && (forall i :: 0 <= i < |c| ==> c[i].0 != "")
    && (forall i, n :: 0 <= i < |c| && c[i].1.aliases.Some? && n in c[i].1.aliases.value && n != "" ==>
          n in a && a[n] == c[i].0)
  }

  /** Values of keys with options are non-empty (an empty option cannot be named by its index). */
  predicate IndexableValues(c: Config, p: SP.Params) {
    forall x :: x in p && KeyOptions(c, x.0).Some? ==> x.1 != ""
  }

  /** A stored pair's short form resolves back to the pair. */
  lemma ShortenResolves(st: State, x: (string, string))
    requires st.aliases.Some? && Settled(st) && AliasesCoherent(st.config.value, st.aliases.value)
    requires IndexableValues(st.config.value, st.params) && x in st.params
    ensures Shorten(st, x).Ok? && Resolved(st, Shorten(st, x).value) == Some(x)
    ensures Aliased(st.aliases, Shorten(st, x).value.0) == Ok(x.0)
  {
    ShortKeyResolves(st, x);
    ShortValueResolves(st, x);
    assert Validate(st.config, x.0, Some(x.1)).Ok?;
  }

  /** The short key of a stored pair resolves back to the pair's key. */
  lemma ShortKeyResolves(st: State, x: (string, string))
    requires st.config.Some? && st.aliases.Some? && AliasesCoherent(st.config.value, st.aliases.value)
    requires Admitted(st.config.value, st.params) && x in st.params
    ensures Aliased(st.aliases, ShortestAlias(st.config, x.0)) == Ok(x.0)
  {
    var c := st.config.value;
    assert x.0 in KeyList(c);
    var i :| 0 <= i < |c| && KeyList(c)[i] == x.0;
    EntryKeyResolves(c, st.aliases.value, i);
  }

  /** The short key of a configured key resolves back to it. */
  lemma EntryKeyResolves(c: Config, a: AliasIndex, i: int)
    requires AliasesCoherent(c, a) && 0 <= i < |c|
    ensures Aliased(Some(a), ShortestAlias(Some(c), c[i].0)) == Ok(c[i].0)
  {
    LookupUnique(c, i);
    AliasRoundTrip(c, a, c[i].0);
  }

  /** The short value of a stored pair reads back, through `indexed`, as the pair's value. */
  lemma ShortValueResolves(st: State, x: (string, string))
    requires st.config.Some? && st.aliases.Some? && Coherent(st.config.value, st.aliases.value)
    requires Admitted(st.config.value, st.params) && IndexableValues(st.config.value, st.params) && x in st.params
    ensures IndexedReverse(st, x.0, x.1).Ok?
    ensures Indexed(st, x.0, Some(IndexedReverse(st, x.0, x.1).value)) == Ok(Some(x.1))
  {
    StoredKeyResolves(st, x);
    var opts := KeyOptions(st.config.value, x.0);
    if opts.Some? {
      IndexRoundTrip(opts.value, x.1);
    }
  }

  /** In such a store the short keys of pairs with different keys differ. */
  lemma ShortKeysDistinct(st: State, x: (string, string), y: (string, string))
    requires st.aliases.Some? && Settled(st) && AliasesCoherent(st.config.value, st.aliases.value)
    requires IndexableValues(st.config.value, st.params) && x in st.params && y in st.params
    requires x.0 != y.0
    ensures Shorten(st, x).Ok? && Shorten(st, y).Ok? && Shorten(st, x).value.0 != Shorten(st, y).value.0
  {
    ShortenResolves(st, x);
    ShortenResolves(st, y);
  }

  /**
   * When every pair has a short form and pairs at different positions have different
   * short keys, the loop's `set` only ever appends: the short list holds the short form
   * of each pair.
   */
  lemma {:induction false} ShortListMembers(st: State, p: SP.Params, n: nat)
    requires n <= |p|
    requires forall i :: 0 <= i < |p| ==> Shorten(st, p[i]).Ok?
    requires forall i, j :: 0 <= i < j < |p| ==> Shorten(st, p[i]).value.0 != Shorten(st, p[j]).value.0
    ensures ShortList(st, p[..n]).Ok?
    ensures forall y :: y in ShortList(st, p[..n]).value <==> exists i :: 0 <= i < n && Shorten(st, p[i]) == Ok(y)
  {
    if n > 0 {
      ShortListMembers(st, p, n - 1);
      ShortListStep(st, p, n - 1);
      ShortMembersSnoc(st, p, n, ShortList(st, p[..n - 1]).value);
    }
  }

  /** The short forms of the first `n - 1` pairs and of pair `n - 1`, whose short key is new. */
  lemma ShortMembersSnoc(st: State, p: SP.Params, n: nat, l: SP.Params)
    requires 0 < n <= |p|
    requires forall i :: 0 <= i < |p| ==> Shorten(st, p[i]).Ok?
    requires forall i, j :: 0 <= i < j < |p| ==> Shorten(st, p[i]).value.0 != Shorten(st, p[j]).value.0
    requires forall y :: y in l <==> exists i :: 0 <= i < n - 1 && Shorten(st, p[i]) == Ok(y)
    ensures var s := Shorten(st, p[n - 1]).value;
      forall y :: y in SP.Set(l, s.0, s.1) <==> exists i :: 0 <= i < n && Shorten(st, p[i]) == Ok(y)
  {
    var s := Shorten(st, p[n - 1]).value;
    forall y ensures y in SP.Set(l, s.0, s.1) <==> exists i :: 0 <= i < n && Shorten(st, p[i]) == Ok(y) {
      if y in l {
        var i :| 0 <= i < n - 1 && Shorten(st, p[i]) == Ok(y);
        assert y.0 != s.0;
      }
      if exists i :: 0 <= i < n && Shorten(st, p[i]) == Ok(y) {
        var i :| 0 <= i < n && Shorten(st, p[i]) == Ok(y);
        if i < n - 1 {
          assert y in l;
        }
      }
    }
  }

  /**
   * The pairs of a settled, alias-coherent store each have a short form, with distinct
   * short keys, and each short form resolves back to its pair.
   */
  lemma ShortFormsResolve(st: State)
    requires st.aliases.Some? && Settled(st) && AliasesCoherent(st.config.value, st.aliases.value)
    requires IndexableValues(st.config.value, st.params)
    ensures forall i :: 0 <= i < |st.params| ==>
      Shorten(st, st.params[i]).Ok? && Resolved(st, Shorten(st, st.params[i]).value) == Some(st.params[i])
    ensures forall i, j :: 0 <= i < j < |st.params| ==>
      Shorten(st, st.params[i]).value.0 != Shorten(st, st.params[j]).value.0
  {
    var p := st.params;
    SP.SortedUniqueIsUnique(p);
    forall i | 0 <= i < |p|
      ensures Shorten(st, p[i]).Ok? && Resolved(st, Shorten(st, p[i]).value) == Some(p[i])
    {
      assert p[i] in p;
      ShortenResolves(st, p[i]);
    }
    forall i, j | 0 <= i < j < |p| ensures Shorten(st, p[i]).value.0 != Shorten(st, p[j]).value.0 {
      assert p[i] in p && p[j] in p;
      ShortKeysDistinct(st, p[i], p[j]);
    }
  }

  /** Sorting keeps the short forms, now with their short keys in order. */
  lemma SortedShortForms(st: State, p: SP.Params)
    requires forall i :: 0 <= i < |p| ==> Shorten(st, p[i]).Ok?
    requires forall i, j :: 0 <= i < j < |p| ==> Shorten(st, p[i]).value.0 != Shorten(st, p[j]).value.0
    ensures ShortList(st, p).Ok?
    ensures var qs := SP.Sort(ShortList(st, p).value);
      && SP.UniqueNames(qs)
      && forall y :: y in qs <==> exists i :: 0 <= i < |p| && Shorten(st, p[i]) == Ok(y)
  {
    ShortListMembers(st, p, |p|);
    assert p[..|p|] == p;
    var l := ShortList(st, p).value;
    ShortListUnique(st, p);
    var qs := SP.Sort(l);
    SP.SortedUniqueIsUnique(qs);
    SP.SortMembers(l);
  }

  /**
   * Short forms with distinct short keys of pairs with unique keys, each resolving back
   * to its pair, resolve to distinct keys, and to exactly those pairs.
   */
  lemma ShortFormsResolveDistinct(st: State, p: SP.Params, qs: SP.Params)
    requires SP.UniqueNames(p) && SP.UniqueNames(qs)
    requires forall i :: 0 <= i < |p| ==> Shorten(st, p[i]).Ok? && Resolved(st, Shorten(st, p[i]).value) == Some(p[i])
    requires forall y :: y in qs <==> exists i :: 0 <= i < |p| && Shorten(st, p[i]) == Ok(y)
    ensures forall j :: 0 <= j < |qs| ==> Resolved(st, qs[j]).Some? && Resolved(st, qs[j]).value in p
    ensures forall i, j :: 0 <= i < j < |qs| ==> Resolved(st, qs[i]).value.0 != Resolved(st, qs[j]).value.0
    ensures forall x :: x in p ==> exists j :: 0 <= j < |qs| && Resolved(st, qs[j]) == Some(x)
  {
    forall j | 0 <= j < |qs|
      ensures exists i :: 0 <= i < |p| && Shorten(st, p[i]) == Ok(qs[j]) && Resolved(st, qs[j]) == Some(p[i])
    {
      assert qs[j] in qs;
    }
    forall i, j | 0 <= i < j < |qs| ensures Resolved(st, qs[i]).value.0 != Resolved(st, qs[j]).value.0 {
      var a :| 0 <= a < |p| && Shorten(st, p[a]) == Ok(qs[i]) && Resolved(st, qs[i]) == Some(p[a]);
      var b :| 0 <= b < |p| && Shorten(st, p[b]) == Ok(qs[j]) && Resolved(st, qs[j]) == Some(p[b]);
      assert qs[i].0 != qs[j].0;
    }
    forall x | x in p ensures exists j :: 0 <= j < |qs| && Resolved(st, qs[j]) == Some(x) {
      var i :| 0 <= i < |p| && p[i] == x;
      var y := Shorten(st, x).value;
      assert y in qs;
      var j :| 0 <= j < |qs| && qs[j] == y;
    }
  }

  /**
   * Loading the sorted short forms of pairs that resolve back to themselves, through
   * distinct short keys, gives back the sorted pairs.
   */
  lemma ShortPairsLoad(st: State, p: SP.Params)
    requires SP.SortedUnique(p)
    requires forall i :: 0 <= i < |p| ==> Shorten(st, p[i]).Ok? && Resolved(st, Shorten(st, p[i]).value) == Some(p[i])
    requires forall i, j :: 0 <= i < j < |p| ==> Shorten(st, p[i]).value.0 != Shorten(st, p[j]).value.0
    ensures ShortList(st, p).Ok?
    ensures LoadPairs(st.(params := []), SP.Sort(ShortList(st, p).value)) == (Ok(()), p)
  {
    SP.SortedUniqueIsUnique(p);
    SortedShortForms(st, p);
    var qs := SP.Sort(ShortList(st, p).value);
    ShortFormsResolveDistinct(st, p, qs);
    LoadResolved(st, qs);
    var r := LoadPairs(st.(params := []), qs).1;
    forall x ensures x in r <==> x in p {
      if x in r {
        var j :| 0 <= j < |qs| && Resolved(st, qs[j]) == Some(x);
      }
    }
    SamePairs(r, p);
  }

  /**
   * Reloading the short URL: loading the short pairs of a settled store, whose aliases
   * are coherent and whose indexed values are non-empty, gives back the same store.
   */
  lemma ReloadShort(st: State)
    requires st.aliases.Some? && Settled(st) && AliasesCoherent(st.config.value, st.aliases.value)
    requires IndexableValues(st.config.value, st.params)
    ensures ShortPairs(st).Ok? && Refresh(st, ShortPairs(st).value) == (Ok(()), st.params)
  {
    ShortFormsResolve(st);
    ShortPairsLoad(st, st.params);
    DefaultsKept(st, |st.config.value|);
    assert st.config.value[..|st.config.value|] == st.config.value;
  }

  /** A key whose options include a numeral: `["x", "2", "y"]`. */
  const numeralOptions: Config := [("k", Entry(None, Some(["x", "2", "y"]), None))]

  /** Setting the option `"2"` stores `"y"`: the numeral is read as index 2 first. */
  lemma NumeralOptionIsIndex()
    ensures Set(State([], Some(numeralOptions), Some(map[])), "k", Some("2")) == Ok((Some("y"), [("k", "y")]))
  {
    var c := numeralOptions;
    var st := State([], Some(c), Some(map[]));
    assert Lookup(c, "k") == Some(c[0].1);
    assert Aliased(st.aliases, "k") == Ok("k");
    assert OptionsFor(st, "k") == Ok(Some(["x", "2", "y"]));
    assert Js.ParseInt("2") == Some(2) by {
      assert Js.DigitChar(2) == '2';
      assert Js.Decimal(2) == "2";
      Js.ParseIntOfDecimal(2);
    }
    assert Indexed(st, "k", Some("2")) == Ok(Some("y"));
    assert Validate(st.config, "k", Some("y")) == Ok(());
    assert SP.Get([], "k") == None;
    assert SP.Sort(SP.Set([], "k", "y")) == [("k", "y")];
  }

  /** A store holding the option `"2"` for that key is settled, and its configuration coherent. */
  lemma NumeralStoreSettled()
    ensures Settled(State([("k", "2")], Some(numeralOptions), Some(map[])))
    ensures Coherent(numeralOptions, map[])
  {
    var c := numeralOptions;
    assert Lookup(c, "k") == Some(c[0].1);
    assert Admits(c[0].1, "2");
    assert forall x :: x in [("k", "2")] ==> x == ("k", "2");
    assert Aliased(Some(map[]), "k") == Ok("k");
  }

  /**
   * So the long URL does not always reload as written: a settled store holding `"2"`
   * for that key holds `"y"` after its own URL is loaded again.
   */
  lemma LongReloadReindexes()
    ensures var st := State([("k", "2")], Some(numeralOptions), Some(map[]));
      && Settled(st) && Coherent(numeralOptions, map[])
      && Refresh(st, st.params) == (Ok(()), [("k", "y")])
  {
    NumeralStoreSettled();
    var c := numeralOptions;
    var st := State([("k", "2")], Some(c), Some(map[]));
    var empty := st.(params := []);
    NumeralOptionIsIndex();
    assert LoadPairs(empty, [("k", "2")]) == (Ok(()), [("k", "y")]) by {
      assert [("k", "2")][..0] == [];
      assert LoadPairs(empty, []) == (Ok(()), []);
      assert empty.(params := []) == State([], Some(numeralOptions), Some(map[]));
    }
    assert c[..0] == [];
    assert DefaultStep(st.(params := [("k", "y")]), "k", c[0].1) == (Ok(()), [("k", "y")]);
    assert ApplyDefaults(st.(params := [("k", "y")]), c) == (Ok(()), [("k", "y")]);
  }
}
