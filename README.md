# ifupdown2 addon attribute-alias resolver, in Dafny

This project models the attribute-alias resolver of ifupdown2's addon base
class (`ifupdown2/lib/addon.py`). It also proves what that resolver does.

An addon type may declare a `_modinfo` dictionary. Its `"attrs"` entry maps
each canonical attribute name to a descriptor. A descriptor may list
`"aliases"`: other spellings a user may write in an interface stanza.

- Constructing an addon builds an alias index. It walks the attributes in
  declaration order and records `alias -> canonical name` for every alias.
  A later attribute overwrites an alias that an earlier one also claimed.
  An addon type without `_modinfo`, or without `"attrs"`, gets an empty index.
- `translate(ifaceobjs)` goes through the interface objects in order. It
  replaces each object's `config` with `OrderedDict` of the pairs
  `(index[k] if k in index else k, v)`, taken in the order of `config`.

Files:

- `wrappers.dfy`: the `Option` type, used for optional metadata and for lookups.
- `ordered_dict.dfy`: module `OrderedDict`. An insertion-ordered dictionary,
  as Python's `OrderedDict` behaves, is the sequence of its entries.
  `FromPairs` is `OrderedDict(list_of_pairs)`. Storing a key that is already
  present overwrites its value in place, so a repeated key keeps the position
  of its first pair and the value of its last pair.
- `addon.dfy`: module `Addon`. It holds the metadata datatypes, the alias
  index (the specification function `AliasIndex` and the loop method
  `BuildAliasIndex`), the rewrite of one configuration (`Rewrite`), and the
  classes `Iface` (an interface object with a mutable `config` field, valid
  while that field is a dictionary) and `Addon`. `Addon`'s constructor builds the index. Its method `Translate`
  updates the objects' `config` fields in place.

The alias index is a `const` of the `Addon` object, because the source never
changes it after construction. Configuration values have a type parameter
`V`. Nothing in the model inspects them.

Two behaviours of the code are easy to misread. The model states both
exactly:

- Translation keeps key order, but it can merge entries. When two input keys
  translate to the same name, for example an alias and its canonical name,
  the output has one entry for that name. The entry stands where the first of
  them stood and holds the value of the last (`RewriteOrder`, `RewriteValues`).
  So a key that is not an alias keeps its value exactly when no later entry
  translates to it. Otherwise it takes the value of the last entry that does
  (`RewriteKeepsNonAlias`).
- Translation is idempotent when no canonical name is itself an alias
  (`RewriteIdempotent`, `CanonicalNamesAreNotAliases`). Aliases that are
  distinct from one another are not enough. With `a` aliased as `b` and `b`
  aliased as `c`, a key `c` becomes `b` on the first pass and `a` on the
  second (`DistinctAliasesNotIdempotent`).

## Model

| member | source | states |
|---|---|---|
| `Addon.BuildAliasIndex` | ifupdown2/lib/addon.py:58-62 | The nested loops over the attributes and their aliases return exactly `AliasIndex(attrs)`, the index that the ordered overwriting inserts produce. |
| `Addon.Addon.constructor` | ifupdown2/lib/addon.py:47-68 | After construction, the addon's alias index is `AliasIndex` of the `"attrs"` of its `_modinfo`. A missing `_modinfo` or a missing `"attrs"` counts as no attributes. |
| `Addon.AliasIndexKeys` | ifupdown2/lib/addon.py:58-62 | A string is a key of the index exactly when some attribute lists it among its aliases. An attribute without `"aliases"` contributes nothing. |
| `Addon.AliasIndexLastWins` | ifupdown2/lib/addon.py:60-62 | An alias maps to the name of the LAST attribute, in declaration order, that lists it. So when two attributes claim one alias, the later one wins. |
| `Addon.NoAliasesNoChange` | ifupdown2/lib/addon.py:58-68 | Suppose the metadata declares no alias. This covers no `_modinfo`, no `"attrs"`, and attributes without `"aliases"`. Then the index is empty and translation returns every configuration unchanged. |
| `Addon.CanonicalNamesAreNotAliases` | ifupdown2/lib/addon.py:60-62 | If no attribute name appears in any alias list, no value of the index is a key of the index (`NoChains`). |
| `Addon.Rewrite` | ifupdown2/lib/addon.py:75-81 | The rebuilt `config` is a dictionary: no key occurs twice, even when two input keys translate to the same name. |
| `Addon.RewriteKeys` | ifupdown2/lib/addon.py:77-80 | The keys after translation are exactly `index[k]` for the input keys `k` that are aliases and `k` itself for the others. |
| `Addon.RewriteValues` | ifupdown2/lib/addon.py:75-81 | Values are carried unchanged. Each output entry holds the value of the last input entry whose key translates to that entry's key. |
| `Addon.RewriteOrder` | ifupdown2/lib/addon.py:75-81 | Translation does not reorder. Output keys come in the order of the first input entry that lands on each of them, so a merged entry sits at its first occurrence's position. |
| `Addon.RewriteWithoutCollision` | ifupdown2/lib/addon.py:75-81 | When no two input keys translate to the same name, the output is the input with each key translated, entry for entry and in the same order. |
| `Addon.RewriteKeepsNonAlias` | ifupdown2/lib/addon.py:78-80 | A key that is not an alias stays in the output under its own name. It keeps its value when its own entry is the last one landing on it, that is, when no later input entry translates to it. |
| `Addon.RewriteLastLandingValue` | ifupdown2/lib/addon.py:75-81 | A key holds, after translation, the value of the last input entry that translates to it. With `RewriteKeepsNonAlias`, a key that is not an alias keeps its value exactly when no later entry lands on it. |
| `Addon.RewriteEmptyIndex` | ifupdown2/lib/addon.py:74-82 | With an empty index, translation leaves every configuration equal to its input. |
| `Addon.RewriteIdempotent` | ifupdown2/lib/addon.py:77-79 | If no canonical name is itself an alias, translating a translated configuration again changes nothing. |
| `Addon.DistinctAliasesNotIdempotent` | ifupdown2/lib/addon.py:60-62 | For any distinct `a`, `b`, `c`, metadata where `a` has alias `b` and `b` has alias `c` has distinct aliases. Yet translation turns `{c: v}` into `{b: v}` and then into `{a: v}`. |
| `Addon.RewriteTimesIdempotent` | ifupdown2/lib/addon.py:74-82 | If no canonical name is an alias, rewriting a configuration one or more times gives the same result as rewriting it once. |
| `Addon.Addon.Translate` | ifupdown2/lib/addon.py:74-82 | Only the `config` fields of the listed objects change. Each object's new `config` is its old one rewritten once for every time the object occurs in the list, and objects do not affect each other. An empty list changes nothing. Every listed object whose `config` was a dictionary still holds one afterwards. With an empty alias index, no `config` changes. |
| `Addon.RewriteTimesOfDict` | ifupdown2/lib/addon.py:74-82 | Rewriting a dictionary any number of times gives a dictionary. With an empty index it gives the dictionary back unchanged. |
| `Addon.DistinctOccursOnce` | ifupdown2/lib/addon.py:74-75 | In a list that names no object twice, every listed object occurs exactly once. So `Translate` rewrites each such object exactly once. |
| `OrderedDict.FromPairs` | ifupdown2/lib/addon.py:75-81 | `OrderedDict(pairs)` has no repeated key. Its keys are exactly the keys of the pairs. |
| `OrderedDict.FromPairsLastWins` | ifupdown2/lib/addon.py:75-81 | Every entry of `OrderedDict(pairs)` equals the last pair with that key. |
| `OrderedDict.FromPairsFirstOrder` | ifupdown2/lib/addon.py:75-81 | The keys of `OrderedDict(pairs)` come in the order of their first occurrence among the pairs. |
| `OrderedDict.FromPairsOfDistinct` | ifupdown2/lib/addon.py:75-81 | Pairs whose keys are already distinct become a dictionary with the same entries in the same order. |
| `OrderedDict.FromPairsGet` | ifupdown2/lib/addon.py:75-81 | Looking up a key in `OrderedDict(pairs)` gives the value of the last pair with that key, or nothing when no pair has it. |

## Left out

- Logger creation and its `"ifupdown2.addons.<class name>"` name (ifupdown2/lib/addon.py:51): logging has no behaviour to verify.
- The collaborators `Netlink`, `Cache`, `IO`, `Sysfs`, `IPRoute2` and `Requirements`, their imports and their initialisation (ifupdown2/lib/addon.py:29-38, 48-49, 53-56). Their source is not part of this model, and they do kernel, sysfs and process I/O.
- The `AttributeError` fallback of `__get_modinfo` (ifupdown2/lib/addon.py:64-68) is modelled as an optional `_modinfo` passed to the constructor. `None` reads as empty metadata.
- Descriptor fields other than `"aliases"` and `_modinfo` entries other than `"attrs"`. The resolver never reads them.
- `ifaceobjs` may be any Python iterable. The model takes a finite sequence. An object without a `config` attribute, which would raise in Python, is not modelled.
- Python dictionaries cannot hold a key twice. The model's `attrs` sequence may repeat a name, and the index lemmas hold either way.
- `Iface` carries only `config`. The resolver reads no other attribute of an interface object, so names and the rest are not modelled.
- Keys are strings. Values have an opaque type parameter, so nothing in the model depends on them.
