/**
 Resolving peers and orderers by name or URL: first-match entity matchers, defaults, and gRPC option
 maps that many entries share by reference.  Peers and orderers go through the same steps; they
 differ in the default port and in the list that a search by URL walks through.
 */
module EndpointConfig {
  import opened Collections

  const DEFAULT_ENTITY := "_default"
  const SSL_OVERRIDE := "ssl-target-name-override"

  type Options = map<string, string>

  /** A Go map of gRPC options: an object that several configurations may refer to. */
  class OptionMap {
    var items: Options

    constructor (items: Options)
      ensures this.items == items
    {
      this.items := items;
    }
  }

  datatype Endpoint = Endpoint(url: string, grpcOptions: OptionMap, tlsCACert: Option<string>)

  /** An entity matcher; the regular expression is given by what it matches and replaces. */
  datatype Matcher = Matcher(
    matches: string -> bool,
    replace: (string, string) -> string,
    ignoreEndpoint: bool, mappedHost: string, urlSubstitution: string, sslSubstitution: string)

  function RegexReplace(m: Matcher, src: string, repl: string): string {
    if '$' in repl then m.replace(src, repl) else repl
  }

  /** The place of the first matcher that matches a key, or the number of matchers. */
  function FirstIndex(matchers: seq<Matcher>, key: string): (i: nat)
    ensures i <= |matchers| && (i < |matchers| ==> matchers[i].matches(key))
    ensures forall j | 0 <= j < i :: !matchers[j].matches(key)
  {
    if |matchers| == 0 || matchers[0].matches(key) then 0 else FirstIndex(matchers[1..], key) + 1
  }

  /** The first matcher that matches a key decides about it. */
  function FirstMatch(matchers: seq<Matcher>, key: string): (r: Option<Matcher>)
    ensures r.None? <==> forall i | 0 <= i < |matchers| :: !matchers[i].matches(key)
    ensures r.Some? ==> exists i | 0 <= i < |matchers| ::
              matchers[i] == r.value && r.value.matches(key) && forall j | 0 <= j < i :: !matchers[j].matches(key)
  {
    var i := FirstIndex(matchers, key);
    if i < |matchers| then Some(matchers[i]) else None
  }

  /** A resolved configuration, by value. */
  datatype Resolved = Resolved(url: string, options: Options, tlsCACert: Option<string>)

  function ValueOf(e: Endpoint): Resolved
    reads e.grpcOptions
  {
    Resolved(e.url, e.grpcOptions.items, e.tlsCACert)
  }

  /** An endpoint as the configuration file gives it.  The option map may be nil; the certificate is
      None when it cannot be loaded. */
  datatype Entity = Entity(url: string, grpcOptions: OptionMap?, cert: Option<Option<string>>)

  ghost function Along(entries: map<string, Endpoint>, names: seq<string>): seq<Endpoint>
    requires forall n | n in names :: n in entries
  {
    seq(|names|, i requires 0 <= i < |names| => entries[names[i]])
  }

  datatype Query = Query(key: string, searchByURL: bool, list: seq<Endpoint>)

  class EndpointConfig {
    const matchers: seq<Matcher>
    const port: string
    const lower: string -> string
    const sameFolded: (string, string) -> bool
    var stored: map<string, Endpoint>
    var defaultConfig: Endpoint

    constructor (matchers: seq<Matcher>, port: string, lower: string -> string, sameFolded: (string, string) -> bool,
                 stored: map<string, Endpoint>, defaultConfig: Endpoint)
      ensures this.matchers == matchers && this.port == port && this.lower == lower && this.sameFolded == sameFolded
      ensures this.stored == stored && this.defaultConfig == defaultConfig
    {
      this.matchers, this.port, this.lower, this.sameFolded := matchers, port, lower, sameFolded;
      this.stored, this.defaultConfig := stored, defaultConfig;
    }

    // ----- lookup -----

    predicate Ignored(key: string) {
      var m := FirstMatch(matchers, key);
      m.Some? && m.value.ignoreEndpoint
    }

    method IsToBeIgnored(name: string) returns (r: bool)
      ensures r == Ignored(name)
      ensures r <==> exists i | 0 <= i < |matchers| ::
                matchers[i].matches(name) && matchers[i].ignoreEndpoint && forall j | 0 <= j < i :: !matchers[j].matches(name)
    {
      for i := 0 to |matchers|
        invariant i <= FirstIndex(matchers, name)
      {
        if matchers[i].matches(name) {
          return matchers[i].ignoreEndpoint;
        }
      }
      return false;
    }

    function Mapped(host: string): Endpoint
      reads this
    {
      if lower(host) in stored then stored[lower(host)] else defaultConfig
    }

    /** What a key resolves to through a matcher that does not ignore it. */
    ghost function ByMatcher(key: string, m: Matcher): Resolved
      reads this, Mapped(RegexReplace(m, key, m.mappedHost)).grpcOptions
    {
      var base := Mapped(RegexReplace(m, key, m.mappedHost));
      var url := if m.urlSubstitution != "" then RegexReplace(m, key, m.urlSubstitution) else base.url;
      var options := base.grpcOptions.items;
      Resolved(
        if url != "" then url else if ':' in key then key else "",
        if m.sslSubstitution != "" then options[SSL_OVERRIDE := RegexReplace(m, key, m.sslSubstitution)] else options,
        base.tlsCACert)
    }

    /** getMapped: the configuration of the mapped host, with a copy of its option map. */
    method GetMapped(host: string) returns (r: Endpoint)
      ensures fresh(r.grpcOptions) && r.grpcOptions.items == Mapped(host).grpcOptions.items
      ensures r.url == Mapped(host).url && r.tlsCACert == Mapped(host).tlsCACert
      ensures var base := if lower(host) in stored then stored[lower(host)] else defaultConfig;
        r.url == base.url && r.tlsCACert == base.tlsCACert && r.grpcOptions.items == base.grpcOptions.items
    {
      var config := Mapped(host);
      var copy := new OptionMap(map[]);
      var todo := config.grpcOptions.items.Keys;
      while todo != {}
        invariant todo <= config.grpcOptions.items.Keys
        invariant copy.items.Keys == config.grpcOptions.items.Keys - todo
        invariant forall k | k in copy.items :: copy.items[k] == config.grpcOptions.items[k]
        decreases todo
      {
        var k :| k in todo;
        copy.items := copy.items[k := config.grpcOptions.items[k]];
        todo := todo - {k};
      }
      r := Endpoint(config.url, copy, config.tlsCACert);
    }

    /** matchPeer and matchOrderer; the last result is the explicit "ignore" of orderers. */
    method MatchEndpoint(key: string, m: Matcher) returns (r: Option<Endpoint>, ignored: bool)
      ensures ignored == m.ignoreEndpoint && r.None? == m.ignoreEndpoint
      ensures r.Some? ==> fresh(r.value.grpcOptions)
      ensures r.Some? ==> ValueOf(r.value) == ByMatcher(key, m)
    {
      if m.ignoreEndpoint {
        return None, true;
      }
      var matched := GetMapped(RegexReplace(m, key, m.mappedHost));
      if m.urlSubstitution != "" {
        matched := matched.(url := RegexReplace(m, key, m.urlSubstitution));
      }
      if m.sslSubstitution != "" {
        matched.grpcOptions.items := matched.grpcOptions.items[SSL_OVERRIDE := RegexReplace(m, key, m.sslSubstitution)];
      }
      if matched.url == "" {
        matched := matched.(url := if ':' in key then key else "");
      }
      return Some(matched), false;
    }

    /** The first configuration of a list whose URL is the key, up to case. */
    function ByUrl(list: seq<Endpoint>, key: string): (r: Option<Endpoint>)
      ensures r.Some? ==> r.value in list && sameFolded(r.value.url, key)
      ensures r.None? <==> forall i | 0 <= i < |list| :: !sameFolded(list[i].url, key)
    {
      if |list| == 0 then None
      else if sameFolded(list[0].url, key) then Some(list[0])
      else ByUrl(list[1..], key)
    }

    /** What a key that no matcher matches resolves to: an entry, or the default under its own URL. */
    ghost function Direct(key: string, searchByURL: bool, list: seq<Endpoint>): Option<Endpoint>
      reads this
    {
      if lower(key) in stored then Some(stored[lower(key)])
      else if !searchByURL then None
      else if ByUrl(list, key).Some? then ByUrl(list, key)
      else if ':' in key then Some(defaultConfig.(url := key))
      else None
    }

    /** tryMatching: `list` is what a search by URL walks through, the stored entries of peers in any
        order or the list of orderers.  Having no modifies clause, a lookup leaves every stored
        configuration and every option map as it is. */
    method TryMatching(key: string, searchByURL: bool, list: seq<Endpoint>) returns (r: Option<Endpoint>, ignored: bool)
      ensures ignored == Ignored(key)
      ensures Ignored(key) ==> r.None?
      ensures FirstMatch(matchers, key).None? ==> r == Direct(key, searchByURL, list)
      ensures FirstMatch(matchers, key).Some? && !ignored ==>
        && r.Some? && fresh(r.value.grpcOptions)
        && ValueOf(r.value) == ByMatcher(key, FirstMatch(matchers, key).value)
      ensures forall i | 0 <= i < |matchers| && matchers[i].matches(key) && (forall j | 0 <= j < i :: !matchers[j].matches(key)) ::
        var m := matchers[i];
        && ignored == m.ignoreEndpoint == r.None?
        && (r.Some? ==>
              var host := lower(if '$' in m.mappedHost then m.replace(key, m.mappedHost) else m.mappedHost);
              var base := if host in stored then stored[host] else defaultConfig;
              && r.value.tlsCACert == base.tlsCACert
              && (m.urlSubstitution == "" && base.url != "" ==> r.value.url == base.url)
              && (m.urlSubstitution == "" && base.url == "" ==> r.value.url == if ':' in key then key else "")
              && (m.urlSubstitution != "" ==>
                    var url := if '$' in m.urlSubstitution then m.replace(key, m.urlSubstitution) else m.urlSubstitution;
                    r.value.url == if url == "" && ':' in key then key else url)
              && (m.sslSubstitution == "" ==> r.value.grpcOptions.items == base.grpcOptions.items)
              && (m.sslSubstitution != "" ==>
                    r.value.grpcOptions.items == base.grpcOptions.items[SSL_OVERRIDE :=
                      if '$' in m.sslSubstitution then m.replace(key, m.sslSubstitution) else m.sslSubstitution]))
      ensures (forall i | 0 <= i < |matchers| :: !matchers[i].matches(key)) ==>
        && !ignored
        && (lower(key) in stored ==> r == Some(stored[lower(key)]))
        && (lower(key) !in stored && searchByURL ==>
              forall i | 0 <= i < |list| && sameFolded(list[i].url, key) && (forall j | 0 <= j < i :: !sameFolded(list[j].url, key)) ::
                r == Some(list[i]))
        && (lower(key) !in stored && (searchByURL ==> forall i | 0 <= i < |list| :: !sameFolded(list[i].url, key)) ==>
              r == if searchByURL && ':' in key then Some(Endpoint(key, defaultConfig.grpcOptions, defaultConfig.tlsCACert)) else None)
    {
      for i := 0 to |matchers|
        invariant i <= FirstIndex(matchers, key)
      {
        if matchers[i].matches(key) {
          r, ignored := MatchEndpoint(key, matchers[i]);
          return;
        }
      }
      ignored := false;
      r := LookupUnmatched(key, searchByURL, list);
    }

    /** The part of tryMatching that is for keys that no matcher matches. */
    method LookupUnmatched(key: string, searchByURL: bool, list: seq<Endpoint>) returns (r: Option<Endpoint>)
      ensures r == Direct(key, searchByURL, list)
      ensures lower(key) in stored ==> r == Some(stored[lower(key)])
      ensures lower(key) !in stored && searchByURL ==>
        forall i | 0 <= i < |list| && sameFolded(list[i].url, key) && (forall j | 0 <= j < i :: !sameFolded(list[j].url, key)) ::
          r == Some(list[i])
      ensures lower(key) !in stored && (searchByURL ==> forall i | 0 <= i < |list| :: !sameFolded(list[i].url, key)) ==>
        r == if searchByURL && ':' in key then Some(Endpoint(key, defaultConfig.grpcOptions, defaultConfig.tlsCACert)) else None
    {
      if lower(key) in stored {
        return Some(stored[lower(key)]);
      }
      if searchByURL {
        for i := 0 to |list|
          invariant ByUrl(list, key) == ByUrl(list[i..], key)
          invariant forall j | 0 <= j < i :: !sameFolded(list[j].url, key)
        {
          if sameFolded(list[i].url, key) {
            return Some(Endpoint(list[i].url, list[i].grpcOptions, list[i].tlsCACert));
          }
          assert list[i..][1..] == list[i + 1..];
        }
      }
      if searchByURL && ':' in key {
        return Some(Endpoint(key, defaultConfig.grpcOptions, defaultConfig.tlsCACert));
      }
      return None;
    }

    // ----- looking up again -----

    /** `list` is what ranging over the stored entries may yield: each once, in any order. */
    ghost predicate Enumerates(list: seq<Endpoint>)
      reads this`stored
    {
      exists names :: Lists(names, stored.Keys) && list == Along(stored, names)
    }

    /** The key is the URL of two stored entries that differ, and nothing else decides about it. */
    ghost predicate Ambiguous(key: string, searchByURL: bool)
      reads this, set n | n in stored :: stored[n].grpcOptions
    {
      && FirstMatch(matchers, key).None? && lower(key) !in stored && searchByURL
      && exists m, n | m in stored && n in stored ::
           && sameFolded(stored[m].url, key) && sameFolded(stored[n].url, key)
           && ValueOf(stored[m]) != ValueOf(stored[n])
    }

    /** What a lookup answers, by value. */
    ghost function Answer(key: string, searchByURL: bool, list: seq<Endpoint>): Option<Resolved>
      reads *
    {
      match FirstMatch(matchers, key)
      case Some(m) => if m.ignoreEndpoint then None else Some(ByMatcher(key, m))
      case None =>
        var r := Direct(key, searchByURL, list);
        if r.Some? then Some(ValueOf(r.value)) else None
    }

    lemma FirstByUrl(names: seq<string>, key: string)
      requires Lists(names, stored.Keys) && |names| > 0 && sameFolded(stored[names[0]].url, key)
      ensures ByUrl(Along(stored, names), key) == Some(stored[names[0]])
    {
    }

    lemma ByUrlIsStored(list: seq<Endpoint>, key: string)
      requires Enumerates(list)
      ensures ByUrl(list, key).Some? ==> exists n | n in stored :: stored[n] == ByUrl(list, key).value && sameFolded(stored[n].url, key)
      ensures ByUrl(list, key).None? <==> forall n | n in stored :: !sameFolded(stored[n].url, key)
    {
      var names :| Lists(names, stored.Keys) && list == Along(stored, names);
      forall n | n in stored
        ensures exists i | 0 <= i < |list| :: list[i] == stored[n]
      {
        assert n in names;
        var i :| 0 <= i < |names| && names[i] == n;
        assert list[i] == stored[n];
      }
      forall i | 0 <= i < |list|
        ensures names[i] in stored && list[i] == stored[names[i]]
      {
        assert names[i] in names;
      }
    }

    /** A key resolves to the same configuration whichever way the stored entries are enumerated iff
        it is not the URL of two entries that differ. */
    lemma ResolvesAlikeIff(key: string, searchByURL: bool)
      ensures (forall list, list' | Enumerates(list) && Enumerates(list') ::
                 Answer(key, searchByURL, list) == Answer(key, searchByURL, list')) <==>
              !Ambiguous(key, searchByURL)
    {
      if Ambiguous(key, searchByURL) {
        var list, list' := TwoAnswers(key);
        assert Answer(key, searchByURL, list) != Answer(key, searchByURL, list');
      } else {
        forall list, list' | Enumerates(list) && Enumerates(list')
          ensures Answer(key, searchByURL, list) == Answer(key, searchByURL, list')
        {
          ByUrlIsStored(list, key);
          ByUrlIsStored(list', key);
        }
      }
    }

    lemma TwoAnswers(key: string) returns (list: seq<Endpoint>, list': seq<Endpoint>)
      requires Ambiguous(key, true)
      ensures Enumerates(list) && Enumerates(list') && Answer(key, true, list) != Answer(key, true, list')
    {
      var m, n :| m in stored && n in stored && sameFolded(stored[m].url, key) && sameFolded(stored[n].url, key)
                  && ValueOf(stored[m]) != ValueOf(stored[n]);
      var names := ListingFrom(stored.Keys, m);
      var names' := ListingFrom(stored.Keys, n);
      FirstByUrl(names, key);
      FirstByUrl(names', key);
      list, list' := Along(stored, names), Along(stored, names');
    }

    lemma ResolvesAgain(key: string, searchByURL: bool, list: seq<Endpoint>, list': seq<Endpoint>)
      requires Enumerates(list) && Enumerates(list')
      ensures Answer(key, searchByURL, list).Some? == Answer(key, searchByURL, list').Some?
      ensures !Ambiguous(key, searchByURL) ==> Answer(key, searchByURL, list) == Answer(key, searchByURL, list')
    {
      ByUrlIsStored(list, key);
      ByUrlIsStored(list', key);
      ResolvesAlikeIff(key, searchByURL);
    }

    /** A peer looked up twice, with any lookups in between; each lookup ranges over the stored peers
        in an order of its own. */
    method LookupPeerAgain(key: string, searchByURL: bool, list: seq<Endpoint>, list': seq<Endpoint>, others: seq<Query>)
      returns (first: Option<Endpoint>, again: Option<Endpoint>)
      requires Enumerates(list) && Enumerates(list')
      ensures first.Some? == again.Some?
      ensures first.Some? && !Ambiguous(key, searchByURL) ==> ValueOf(first.value) == ValueOf(again.value)
    {
      ResolvesAgain(key, searchByURL, list, list');
      first := Lookup(key, searchByURL, list);
      LookupAll(others);
      again := Lookup(key, searchByURL, list');
    }

    /** An orderer looked up twice: the list of orderers is stored, so nothing else is needed. */
    method LookupOrdererAgain(key: string, searchByURL: bool, list: seq<Endpoint>, others: seq<Query>)
      returns (first: Option<Endpoint>, again: Option<Endpoint>)
      ensures first.Some? == again.Some?
      ensures first.Some? ==> ValueOf(first.value) == ValueOf(again.value)
    {
      first := Lookup(key, searchByURL, list);
      LookupAll(others);
      again := Lookup(key, searchByURL, list);
    }

    method Lookup(key: string, searchByURL: bool, list: seq<Endpoint>) returns (r: Option<Endpoint>)
      ensures r.Some? == Answer(key, searchByURL, list).Some?
      ensures r.Some? ==> Some(ValueOf(r.value)) == Answer(key, searchByURL, list)
    {
      var ignored;
      r, ignored := TryMatching(key, searchByURL, list);
    }

    method LookupAll(queries: seq<Query>) {
      for i := 0 to |queries|
        modifies {}
      {
        var _, _ := TryMatching(queries[i].key, queries[i].searchByURL, queries[i].list);
      }
    }

    // ----- loading -----

    function FilledUrl(name: string, url: string): string
      reads this`defaultConfig
    {
      if url != "" then url else if defaultConfig.url != "" then defaultConfig.url else name + ":" + port
    }

    /** addMissing...ConfigItems: an entity without options refers to the default map itself; one with
        options gets the missing defaults written into its own map. */
    method AddMissing(name: string, url: string, options: OptionMap?, cert: Option<string>) returns (r: Endpoint)
      modifies options
      ensures r.url == FilledUrl(name, url)
      ensures url != "" ==> r.url == url
      ensures url == "" ==> r.url == if defaultConfig.url == "" then name + ":" + port else defaultConfig.url
      ensures r.tlsCACert == if cert.Some? then cert else defaultConfig.tlsCACert
      ensures r.grpcOptions == if options == null || old(options.items) == map[] then defaultConfig.grpcOptions else options
      ensures options != null && old(options.items) == map[] ==> options.items == map[]
      ensures options != null && old(options.items) != map[] ==>
        options.items == old(defaultConfig.grpcOptions.items) + old(options.items)
      ensures defaultConfig.grpcOptions.items == old(defaultConfig.grpcOptions.items)
    {
      var filled := if url == "" then (if defaultConfig.url == "" then name + ":" + port else defaultConfig.url) else url;
      var tls := if cert.None? then defaultConfig.tlsCACert else cert;
      if options == null || |options.items| == 0 {
        return Endpoint(filled, defaultConfig.grpcOptions, tls);
      }
      FillMissing(options, defaultConfig.grpcOptions);
      return Endpoint(filled, options, tls);
    }

    static method FillMissing(options: OptionMap, defaults: OptionMap)
      modifies options
      ensures options.items == old(defaults.items) + old(options.items)
      ensures defaults.items == old(defaults.items)
    {
      ghost var own, given := options.items, defaults.items;
      var todo := defaults.items.Keys;
      while todo != {}
        invariant todo <= given.Keys && defaults.items == given
        invariant options.items.Keys == own.Keys + (given.Keys - todo)
        invariant forall k | k in options.items :: options.items[k] == if k in own then own[k] else given[k]
        decreases todo
      {
        var k :| k in todo;
        if k !in options.items {
          options.items := options.items[k := defaults.items[k]];
        }
        todo := todo - {k};
      }
    }

    predicate ToLoad(name: string) {
      name != DEFAULT_ENTITY && !Ignored(name)
    }

    /** The option maps of the entities; several may be the same object, or the default map. */
    static ghost function Maps(entities: map<string, Entity>): set<OptionMap> {
      set n | n in entities && entities[n].grpcOptions != null :: entities[n].grpcOptions
    }

    static ghost function Snapshot(entities: map<string, Entity>): map<OptionMap, Options>
      reads Maps(entities)
    {
      map o | o in Maps(entities) :: o.items
    }

    /** Every map is as it was before or has the defaults filled in; an empty one stays empty. */
    static ghost predicate OnlyFilled(before: map<OptionMap, Options>, defaults: Options)
      reads before.Keys
    {
      forall o | o in before :: o.items == before[o] || (before[o] != map[] && o.items == defaults + before[o])
    }

    /** The options an entity gave itself before loading began. */
    static ghost function GivenOptions(e: Entity, before: map<OptionMap, Options>): Options {
      if e.grpcOptions != null && e.grpcOptions in before then before[e.grpcOptions] else map[]
    }

    /** An entry is loaded: its URL, certificate and options are the entity's own where given and the
        defaults elsewhere.  Without options of its own it refers to the default map. */
    ghost predicate IsLoaded(name: string, e: Entity, r: Endpoint, before: map<OptionMap, Options>, defaults: Options)
      reads this`defaultConfig, e.grpcOptions
    {
      && e.cert.Some?
      && r.url == FilledUrl(name, e.url)
      && r.tlsCACert == (if e.cert.value.Some? then e.cert.value else defaultConfig.tlsCACert)
      && r.grpcOptions == (if GivenOptions(e, before) == map[] then defaultConfig.grpcOptions else e.grpcOptions)
      && (GivenOptions(e, before) != map[] ==> e.grpcOptions.items == defaults + GivenOptions(e, before))
    }

    method LoadOne(name: string, e: Entity, ghost before: map<OptionMap, Options>, ghost defaults: Options) returns (r: Endpoint)
      requires e.cert.Some? && (e.grpcOptions != null ==> e.grpcOptions in before)
      requires OnlyFilled(before, defaults) && defaultConfig.grpcOptions.items == defaults
      modifies e.grpcOptions
      ensures OnlyFilled(before, defaults) && defaultConfig.grpcOptions.items == defaults
      ensures IsLoaded(name, e, r, before, defaults)
      ensures forall o | o in before && old(o.items) == defaults + before[o] :: o.items == defaults + before[o]
    {
      r := AddMissing(name, e.url, e.grpcOptions, e.cert.value);
      assert defaults + map[] == defaults;
      if e.grpcOptions != null {
        var given := before[e.grpcOptions];
        assert defaults + (defaults + given) == defaults + given;
      }
    }

    ghost predicate AllLoaded(entities: map<string, Entity>, before: map<OptionMap, Options>, defaults: Options)
      reads this, Maps(entities)
    {
      forall n | n in stored :: n in entities && IsLoaded(n, entities[n], stored[n], before, defaults)
    }

    /** Loading one more entry leaves those already loaded as they are, even when they share maps. */
    method StoreOne(name: string, entities: map<string, Entity>, ghost before: map<OptionMap, Options>, ghost defaults: Options)
      requires name in entities && entities[name].cert.Some? && Maps(entities) == before.Keys
      requires OnlyFilled(before, defaults) && defaultConfig.grpcOptions.items == defaults
      requires AllLoaded(entities, before, defaults)
      modifies this`stored, entities[name].grpcOptions
      ensures OnlyFilled(before, defaults) && defaultConfig.grpcOptions.items == defaults
      ensures AllLoaded(entities, before, defaults) && stored.Keys == old(stored.Keys) + {name}
    {
      assert entities[name].grpcOptions != null ==> entities[name].grpcOptions in Maps(entities);
      var r := LoadOne(name, entities[name], before, defaults);
      forall n | n in stored
        ensures IsLoaded(n, entities[n], stored[n], before, defaults)
      {
        assert old(IsLoaded(n, entities[n], stored[n], before, defaults));
        var o := entities[n].grpcOptions;
        assert o != null && o in before && old(o.items) == defaults + before[o] ==> o.items == defaults + before[o];
      }
      stored := stored[name := r];
    }

    /** loadAll...Configs: for every order of the entities and however their option maps are shared,
        each entry gets its own options over the defaults, and the default map does not change. */
    method LoadAll(entities: map<string, Entity>) returns (ok: bool)
      modifies this`stored, Maps(entities)
      ensures defaultConfig.grpcOptions.items == old(defaultConfig.grpcOptions.items)
      ensures OnlyFilled(old(Snapshot(entities)), old(defaultConfig.grpcOptions.items))
      ensures ok <==> forall n | n in entities && ToLoad(n) :: entities[n].cert.Some?
      ensures ok ==> stored.Keys == set n | n in entities && ToLoad(n)
      ensures ok ==> forall n :: n in stored <==> n in entities && n != DEFAULT_ENTITY && !Ignored(n)
      ensures ok ==> forall n | n in stored ::
        && IsLoaded(n, entities[n], stored[n], old(Snapshot(entities)), old(defaultConfig.grpcOptions.items))
        && stored[n].grpcOptions.items == old(defaultConfig.grpcOptions.items) + GivenOptions(entities[n], old(Snapshot(entities)))
      ensures ok ==> forall n | n in stored ::
        var e, r := entities[n], stored[n];
        && (e.url != "" ==> r.url == e.url)
        && (e.url == "" ==> r.url == if defaultConfig.url == "" then n + ":" + port else defaultConfig.url)
        && r.tlsCACert == (if e.cert == Some(None) then defaultConfig.tlsCACert else e.cert.value)
        && r.grpcOptions.items == old(defaultConfig.grpcOptions.items) +
             if e.grpcOptions == null then map[] else old(Snapshot(entities))[e.grpcOptions]
    {
      ghost var before, defaults := Snapshot(entities), defaultConfig.grpcOptions.items;
      stored := map[];
      var todo := entities.Keys;
      while todo != {}
        invariant todo <= entities.Keys
        invariant OnlyFilled(before, defaults) && defaultConfig.grpcOptions.items == defaults
        invariant stored.Keys == set n | n in entities && n !in todo && ToLoad(n)
        invariant AllLoaded(entities, before, defaults)
        decreases todo
      {
        var n :| n in todo;
        todo := todo - {n};
        var ignored := IsToBeIgnored(n);
        if n == DEFAULT_ENTITY || ignored {
          continue;
        }
        if entities[n].cert.None? {
          return false;
        }
        StoreOne(n, entities, before, defaults);
      }
      assert defaults + map[] == defaults;
      return true;
    }
  }

  /** Two peers of one URL with different options: which of them a lookup by URL yields depends on the
      order in which it ranges over the peers. */
  method SharedUrl() returns (config: EndpointConfig, list: seq<Endpoint>, list': seq<Endpoint>,
                              first: Option<Endpoint>, again: Option<Endpoint>)
    ensures config.Enumerates(list) && config.Enumerates(list')
    ensures first.Some? && Some(ValueOf(first.value)) == config.Answer("h:1", true, list)
    ensures again.Some? && Some(ValueOf(again.value)) == config.Answer("h:1", true, list')
    ensures ValueOf(first.value) != ValueOf(again.value)
  {
    var none := new OptionMap(map[]);
    var some := new OptionMap(map["keep-alive-time" := "0s"]);
    var a, b := Endpoint("h:1", none, None), Endpoint("h:1", some, None);
    config := new EndpointConfig([], "7051", (s: string) => s, (s: string, t: string) => s == t,
                                 map["a" := a, "b" := b], Endpoint("", none, None));
    list, list' := [a, b], [b, a];
    PairEnumerates(config, a, b);
    assert ValueOf(a).options == map[] && "keep-alive-time" in ValueOf(b).options;
    first := config.Lookup("h:1", true, list);
    again := config.Lookup("h:1", true, list');
  }

  lemma PairEnumerates(config: EndpointConfig, a: Endpoint, b: Endpoint)
    requires config.stored == map["a" := a, "b" := b]
    ensures config.Enumerates([a, b]) && config.Enumerates([b, a])
  {
    assert Along(config.stored, ["a", "b"]) == [a, b] && Along(config.stored, ["b", "a"]) == [b, a];
  }
}
