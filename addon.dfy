/**
  The attribute-alias resolver of ifupdown2's addon base class.

  An addon type may declare `_modinfo`, whose "attrs" dictionary maps each
  canonical attribute name to a descriptor; a descriptor may list "aliases",
  other spellings a user may write in an interface stanza. Constructing an
  addon turns that metadata into an alias index (alias -> canonical name), and
  `translate` renames, in every interface object's `config`, each key that is
  an alias to its canonical attribute name.
 */
module Addon {
  import opened Wrappers
  import opened OrderedDict

  // ---------------------------------------------------------------------------
  // Metadata
  // ---------------------------------------------------------------------------

  /** An attribute descriptor; only its optional "aliases" entry matters to the resolver. */
  datatype AttributeDescriptor = AttributeDescriptor(aliases: Option<seq<string>>)

  /**
    An addon's `_modinfo`; only its optional "attrs" dictionary matters to the
    resolver, given as (canonical name, descriptor) pairs in declaration order.
   */
  datatype ModInfo = ModInfo(attrs: Option<seq<(string, AttributeDescriptor)>>)

  /** `attribute_object.get("aliases", [])` */
  function AliasesOf(d: AttributeDescriptor): seq<string> {
    d.aliases.GetOr([])
  }

  /**
    `self.__get_modinfo().get("attrs", {})`: an addon type without `_modinfo`
    reads as one with empty metadata.
   */
  function AttrsOf(modinfo: Option<ModInfo>): seq<(string, AttributeDescriptor)> {
    match modinfo
    case None => []
    case Some(m) => m.attrs.GetOr([])
  }

  // ---------------------------------------------------------------------------
  // The alias index
  // ---------------------------------------------------------------------------

  /**
    The index the loops of the addon constructor leave behind: the attributes
    are visited in order and each one maps all of its aliases to its own name,
    overwriting whatever an earlier attribute had recorded for them.
   */
  function AliasIndex(attrs: seq<(string, AttributeDescriptor)>): map<string, string> {
    if attrs == [] then map[]
    else
      var last := attrs[|attrs| - 1];
      WithAliases(AliasIndex(attrs[..|attrs| - 1]), AliasesOf(last.1), last.0)
  }

  /** `index` after recording every alias in `aliases` as a spelling of `name`. */
  function WithAliases(index: map<string, string>, aliases: seq<string>, name: string): map<string, string> {
    index + map a | a in aliases :: name
  }

  /** Recording one more alias is one more map update. */
  lemma WithAliasesStep(index: map<string, string>, aliases: seq<string>, j: nat, name: string)
    requires j < |aliases|
    ensures WithAliases(index, aliases[..j + 1], name) == WithAliases(index, aliases[..j], name)[aliases[j] := name]
  {
  }

  /** Position of the last attribute that lists `a` among its aliases, or -1 when none does. */
  function LastOwner(attrs: seq<(string, AttributeDescriptor)>, a: string): (r: int)
    ensures -1 <= r < |attrs|
    ensures 0 <= r ==> a in AliasesOf(attrs[r].1)
    ensures forall i :: r < i < |attrs| ==> a !in AliasesOf(attrs[i].1)
  {
    if attrs == [] then -1
    else if a in AliasesOf(attrs[|attrs| - 1].1) then |attrs| - 1
    else LastOwner(attrs[..|attrs| - 1], a)
  }

  /**
    The constructor's nested loops: for every attribute, for every one of its
    aliases, record alias -> attribute name.
   */
  method BuildAliasIndex(attrs: seq<(string, AttributeDescriptor)>) returns (index: map<string, string>)
    ensures index == AliasIndex(attrs)
  {
    index := map[];
    for i := 0 to |attrs|
      invariant index == AliasIndex(attrs[..i])
    {
      var (name, descriptor) := attrs[i];
      var aliases := AliasesOf(descriptor);
      ghost var before := index;
      for j := 0 to |aliases|
        invariant index == WithAliases(before, aliases[..j], name)
      {
        WithAliasesStep(before, aliases, j, name);
        index := index[aliases[j] := name];
      }
      assert aliases[..|aliases|] == aliases;
      assert attrs[..i + 1][..i] == attrs[..i];
    }
    assert attrs[..|attrs|] == attrs;
  }

  /** Exactly the aliases listed under some attribute are keys of the index. */
  lemma {:induction false} AliasIndexKeys(attrs: seq<(string, AttributeDescriptor)>)
    ensures forall a :: a in AliasIndex(attrs) <==>
      exists i :: 0 <= i < |attrs| && a in AliasesOf(attrs[i].1)
  {
    if attrs != [] {
      var init := attrs[..|attrs| - 1];
      AliasIndexKeys(init);
      forall a | a in AliasIndex(attrs)
        ensures exists i :: 0 <= i < |attrs| && a in AliasesOf(attrs[i].1)
      {
        if a !in AliasesOf(attrs[|attrs| - 1].1) {
          assert a in AliasIndex(init);
          var i :| 0 <= i < |init| && a in AliasesOf(init[i].1);
          assert attrs[i] == init[i];
        }
      }
      forall a, i | 0 <= i < |attrs| && a in AliasesOf(attrs[i].1)
        ensures a in AliasIndex(attrs)
      {
        if i < |init| {
          assert init[i] == attrs[i];
        }
      }
    }
  }

  /**
    Last writer wins: an alias claimed by several attributes maps to the one
    declared last.
   */
  lemma {:induction false} AliasIndexLastWins(attrs: seq<(string, AttributeDescriptor)>)
    ensures forall a :: a in AliasIndex(attrs) <==> 0 <= LastOwner(attrs, a)
    ensures forall a :: a in AliasIndex(attrs) ==> AliasIndex(attrs)[a] == attrs[LastOwner(attrs, a)].0
  {
    if attrs != [] {
      var init := attrs[..|attrs| - 1];
      AliasIndexLastWins(init);
      forall a ensures a !in AliasesOf(attrs[|attrs| - 1].1) ==> LastOwner(attrs, a) == LastOwner(init, a) {
      }
    }
  }

  /**
    If no canonical attribute name is listed as an alias, no value of the
    index is itself a key of the index.
   */
  lemma CanonicalNamesAreNotAliases(attrs: seq<(string, AttributeDescriptor)>)
    requires forall i, j :: 0 <= i < |attrs| && 0 <= j < |attrs| ==> attrs[i].0 !in AliasesOf(attrs[j].1)
    ensures NoChains(AliasIndex(attrs))
  {
    AliasIndexLastWins(attrs);
  }

  // ---------------------------------------------------------------------------
  // Rewriting one interface object's configuration
  // ---------------------------------------------------------------------------

  /** The name a configuration key is stored under after translation. */
  function Canonical(index: map<string, string>, k: string): string {
    if k in index then index[k] else k
  }

  /** The list of pairs the comprehension in `translate` builds from `config.items()`. */
  function Renamed<V>(index: map<string, string>, config: seq<(string, V)>): seq<(string, V)> {
    seq(|config|, i requires 0 <= i < |config| => (Canonical(index, config[i].0), config[i].1))
  }

  /** The new `config` of one interface object: `OrderedDict` of the renamed pairs. */
  function Rewrite<V>(index: map<string, string>, config: seq<(string, V)>): (r: seq<(string, V)>)
    ensures DistinctKeys(r)
  {
    FromPairs(Renamed(index, config))
  }

  /** No alias is mapped to a name that is an alias in turn. */
  predicate NoChains(index: map<string, string>) {
    forall a :: a in index ==> index[a] !in index
  }

  /** The keys after translation are exactly the translated keys of the input. */
  lemma RewriteKeys<V>(index: map<string, string>, config: seq<(string, V)>)
    ensures forall k :: ContainsKey(Rewrite(index, config), k) <==>
      exists i :: 0 <= i < |config| && Canonical(index, config[i].0) == k
  {
    var rn := Renamed(index, config);
    forall k ensures ContainsKey(rn, k) <==> exists i :: 0 <= i < |config| && Canonical(index, config[i].0) == k {
      if exists i :: 0 <= i < |config| && Canonical(index, config[i].0) == k {
        var i :| 0 <= i < |config| && Canonical(index, config[i].0) == k;
        assert rn[i].0 == k;
      }
    }
  }

  /** `config[i]` is the last input entry whose key translates to `key`. */
  predicate LastLanding<V>(index: map<string, string>, config: seq<(string, V)>, i: int, key: string) {
    && 0 <= i < |config|
    && Canonical(index, config[i].0) == key
    && forall i' :: i < i' < |config| ==> Canonical(index, config[i'].0) != key
  }

  /**
    Values are carried, never changed: each entry after translation holds the
    value of the LAST input entry whose key translates to the entry's key.
   */
  lemma RewriteValues<V>(index: map<string, string>, config: seq<(string, V)>)
    ensures var r := Rewrite(index, config);
      forall j :: 0 <= j < |r| ==> exists i :: LastLanding(index, config, i, r[j].0) && r[j].1 == config[i].1
  {
    var rn := Renamed(index, config);
    var r := Rewrite(index, config);
    FromPairsLastWins(rn);
    forall j | 0 <= j < |r| ensures exists i :: LastLanding(index, config, i, r[j].0) && r[j].1 == config[i].1 {
      var i := FindLast(rn, r[j].0);
      assert r[j] == rn[i];
      forall i' | i < i' < |config| ensures Canonical(index, config[i'].0) != r[j].0 {
        assert rn[i'].0 == Canonical(index, config[i'].0);
      }
    }
  }

  /**
    Translation never reorders: an entry comes after another only if every
    input entry landing on the later key is preceded by one landing on the
    earlier key. A merged entry therefore sits where its first input was.
   */
  lemma RewriteOrder<V>(index: map<string, string>, config: seq<(string, V)>)
    ensures var r := Rewrite(index, config);
      forall j1, j2, i2 :: 0 <= j1 < j2 < |r| && 0 <= i2 < |config| && Canonical(index, config[i2].0) == r[j2].0 ==>
        exists i1 :: 0 <= i1 < i2 && Canonical(index, config[i1].0) == r[j1].0
  {
    var rn := Renamed(index, config);
    var r := Rewrite(index, config);
    FromPairsFirstOrder(rn);
    forall j1, j2, i2 | 0 <= j1 < j2 < |r| && 0 <= i2 < |config| && Canonical(index, config[i2].0) == r[j2].0
      ensures exists i1 :: 0 <= i1 < i2 && Canonical(index, config[i1].0) == r[j1].0
    {
      assert rn[i2].0 == r[j2].0;
      var i1 := Find(rn, r[j1].0);
      assert rn[i1].0 == r[j1].0;
    }
  }

  /**
    When no two input keys translate to the same name, the output is the input
    with every key translated, entry for entry and in the same order.
   */
  lemma RewriteWithoutCollision<V>(index: map<string, string>, config: seq<(string, V)>)
    requires forall i, j :: 0 <= i < j < |config| ==> Canonical(index, config[i].0) != Canonical(index, config[j].0)
    ensures var r := Rewrite(index, config);
      |r| == |config| && forall i :: 0 <= i < |config| ==> r[i] == (Canonical(index, config[i].0), config[i].1)
  {
    FromPairsOfDistinct(Renamed(index, config));
  }

  /**
    A key that is not an alias stays under its own name. It keeps its value
    exactly when no later input entry translates to it; otherwise the value of
    the last entry that does replaces it (`RewriteLastLandingValue`).
   */
  lemma RewriteKeepsNonAlias<V>(index: map<string, string>, config: seq<(string, V)>, k: string)
    requires k !in index && ContainsKey(config, k)
    ensures ContainsKey(Rewrite(index, config), k)
    ensures LastLanding(index, config, Find(config, k), k) ==> Get(Rewrite(index, config), k) == Get(config, k)
  {
    var p := Find(config, k);
    assert Renamed(index, config)[p].0 == k;
    if LastLanding(index, config, p, k) {
      RewriteLastLandingValue(index, config, p, k);
    }
  }

  /** After translation, a key holds the value of the last input entry that lands on it. */
  lemma RewriteLastLandingValue<V>(index: map<string, string>, config: seq<(string, V)>, i: int, key: string)
    requires LastLanding(index, config, i, key)
    ensures Get(Rewrite(index, config), key) == Some(config[i].1)
  {
    FromPairsGet(Renamed(index, config), key);
    LastLandingIsLast(index, config, i, key);
  }

  /** The last input entry landing on `key` is the last renamed pair with that key. */
  lemma LastLandingIsLast<V>(index: map<string, string>, config: seq<(string, V)>, i: int, key: string)
    requires LastLanding(index, config, i, key)
    ensures FindLast(Renamed(index, config), key) == i
  {
    assert Renamed(index, config)[i].0 == key;
  }

  /** With an empty index, translation gives every configuration back unchanged. */
  lemma RewriteEmptyIndex<V>(config: seq<(string, V)>)
    requires DistinctKeys(config)
    ensures Rewrite(map[], config) == config
  {
    assert Renamed(map[], config) == config;
    FromPairsOfDistinct(config);
  }

  /**
    Translating twice is translating once, provided no canonical name is an
    alias itself.
   */
  lemma RewriteIdempotent<V>(index: map<string, string>, config: seq<(string, V)>)
    requires NoChains(index)
    ensures Rewrite(index, Rewrite(index, config)) == Rewrite(index, config)
  {
    var rn := Renamed(index, config);
    var r := Rewrite(index, config);
    FromPairsLastWins(rn);
    forall j | 0 <= j < |r| ensures r[j].0 !in index {
      var i := FindLast(rn, r[j].0);
      assert r[j].0 == Canonical(index, config[i].0);
    }
    assert Renamed(index, r) == r;
    FromPairsOfDistinct(r);
  }

  /**
    Distinct aliases alone do not make translation idempotent: with `a`
    aliased as `b` and `b` aliased as `c`, a key `c` becomes `b` and then `a`.
   */
  lemma DistinctAliasesNotIdempotent<V>(a: string, b: string, c: string, v: V)
    requires a != b && b != c && a != c
    ensures var index := AliasIndex([(a, AttributeDescriptor(Some([b]))), (b, AttributeDescriptor(Some([c])))]);
      && Rewrite(index, [(c, v)]) == [(b, v)]
      && Rewrite(index, Rewrite(index, [(c, v)])) == [(a, v)]
  {
    var attrs := [(a, AttributeDescriptor(Some([b]))), (b, AttributeDescriptor(Some([c])))];
    var index := AliasIndex(attrs);
    AliasIndexLastWins(attrs);
    assert LastOwner(attrs, c) == 1 && LastOwner(attrs, b) == 0;
    RewriteWithoutCollision(index, [(c, v)]);
    RewriteWithoutCollision(index, [(b, v)]);
  }

  /** `translate` applied `n` times to one configuration. */
  function RewriteTimes<V>(index: map<string, string>, config: seq<(string, V)>, n: nat): seq<(string, V)> {
    if n == 0 then config else Rewrite(index, RewriteTimes(index, config, n - 1))
  }

  /** Without chains, rewriting an object more than once is the same as rewriting it once. */
  lemma {:induction false} RewriteTimesIdempotent<V>(index: map<string, string>, config: seq<(string, V)>, n: nat)
    requires NoChains(index) && 1 <= n
    ensures RewriteTimes(index, config, n) == Rewrite(index, config)
  {
    if 1 < n {
      var once := Rewrite(index, config);
      RewriteTimesIdempotent(index, config, n - 1);
      assert RewriteTimes(index, config, n) == Rewrite(index, once);
      RewriteIdempotent(index, config);
    }
  }

  /**
    What `Translate` needs of an object rewritten `n` times: its `config`
    stays a dictionary, and an empty index leaves it as it was.
   */
  lemma {:induction false} RewriteTimesOfDict<V>(index: map<string, string>, config: seq<(string, V)>, n: nat)
    requires DistinctKeys(config)
    ensures DistinctKeys(RewriteTimes(index, config, n))
    ensures index == map[] ==> RewriteTimes(index, config, n) == config
  {
    if 0 < n {
      RewriteTimesOfDict(index, config, n - 1);
      if index == map[] {
        RewriteEmptyIndex(config);
      }
    }
  }

  /**
    Metadata without aliases (no `_modinfo`, no "attrs", or attributes without
    "aliases") gives an empty index, under which translation changes nothing.
   */
  lemma NoAliasesNoChange<V>(modinfo: Option<ModInfo>, config: seq<(string, V)>)
    requires forall i :: 0 <= i < |AttrsOf(modinfo)| ==> AliasesOf(AttrsOf(modinfo)[i].1) == []
    requires DistinctKeys(config)
    ensures AliasIndex(AttrsOf(modinfo)) == map[]
    ensures Rewrite(AliasIndex(AttrsOf(modinfo)), config) == config
  {
    AliasIndexKeys(AttrsOf(modinfo));
    RewriteEmptyIndex(config);
  }

  // ---------------------------------------------------------------------------
  // Objects
  // ---------------------------------------------------------------------------

  /**
    An interface object, as far as translation sees it: its `config`
    dictionary. The object's other attributes (its name among them) are not
    read by the resolver.
   */
  class Iface<V> {
    var config: seq<(string, V)>

    /** `config` is a dictionary: no key occurs twice. */
    ghost predicate Valid()
      reads this
    {
      DistinctKeys(config)
    }

    constructor (config: seq<(string, V)>)
      requires DistinctKeys(config)
      ensures this.config == config && Valid()
    {
      this.config := config;
    }
  }

  /** The alias-resolving part of an addon instance. */
  class Addon {
    /** `self.__alias_to_attribute`: built once by the constructor, never changed afterwards. */
    const aliasToAttribute: map<string, string>

    /** `Addon.__init__`, with the addon type's `_modinfo` (if it has one) as argument. */
    constructor (modinfo: Option<ModInfo>)
      ensures aliasToAttribute == AliasIndex(AttrsOf(modinfo))
    {
      var index := BuildAliasIndex(AttrsOf(modinfo));
      aliasToAttribute := index;
    }

    /**
      `Addon.translate`: replace each object's `config` by its rewrite, one
      object after the other. An object listed `n` times is rewritten `n` times.
     */
    method Translate<V>(ifaceobjs: seq<Iface<V>>)
      requires forall o :: o in ifaceobjs ==> o.Valid()
      modifies ifaceobjs`config
      ensures forall o :: o in ifaceobjs ==>
        o.config == RewriteTimes(aliasToAttribute, old(o.config), Occurrences(ifaceobjs, o))
      ensures forall o :: o in ifaceobjs ==> o.Valid()
      ensures aliasToAttribute == map[] ==> forall o :: o in ifaceobjs ==> o.config == old(o.config)
    {
      for i := 0 to |ifaceobjs|
        invariant forall o :: o in ifaceobjs ==>
          o.config == RewriteTimes(aliasToAttribute, old(o.config), Occurrences(ifaceobjs[..i], o))
      {
        var obj := ifaceobjs[i];
        obj.config := Rewrite(aliasToAttribute, obj.config);
        forall o | o in ifaceobjs
          ensures o.config == RewriteTimes(aliasToAttribute, old(o.config), Occurrences(ifaceobjs[..i + 1], o))
        {
          CountStep(ifaceobjs, i, o);
        }
      }
      assert ifaceobjs[..|ifaceobjs|] == ifaceobjs;
      forall o | o in ifaceobjs
        ensures o.Valid() && (aliasToAttribute == map[] ==> o.config == old(o.config))
      {
        RewriteTimesOfDict(aliasToAttribute, old(o.config), Occurrences(ifaceobjs, o));
      }
    }
  }

  /** How many times `x` occurs in `s`. */
  function Occurrences<T(==)>(s: seq<T>, x: T): nat {
    if s == [] then 0
    else Occurrences(s[..|s| - 1], x) + if s[|s| - 1] == x then 1 else 0
  }

  /** Extending a prefix by one element adds one occurrence of that element only. */
  lemma CountStep<T>(s: seq<T>, i: nat, x: T)
    requires i < |s|
    ensures Occurrences(s[..i + 1], x) == Occurrences(s[..i], x) + if x == s[i] then 1 else 0
  {
    assert s[..i + 1][..i] == s[..i];
  }

  /**
    When no object is listed twice, `Translate` rewrites each listed object
    exactly once: every listed element occurs exactly once.
   */
  lemma {:induction false} DistinctOccursOnce<T>(s: seq<T>, x: T)
    requires forall i, j :: 0 <= i < j < |s| ==> s[i] != s[j]
    requires x in s
    ensures Occurrences(s, x) == 1
  {
    var init, last := s[..|s| - 1], s[|s| - 1];
    if x == last {
      NotInNoOccurrences(init, x);
    } else {
      assert x in init by {
        var k :| 0 <= k < |s| && s[k] == x;
        assert init[k] == x;
      }
      DistinctOccursOnce(init, x);
    }
  }

  /** An element that is absent occurs zero times. */
  lemma {:induction false} NotInNoOccurrences<T>(s: seq<T>, x: T)
    requires x !in s
    ensures Occurrences(s, x) == 0
  {
    if s != [] {
      NotInNoOccurrences(s[..|s| - 1], x);
    }
  }
}
