# batbelt: ordered set, dict helpers and slug pipeline in Dafny

A verified model of two modules of the `batbelt` utility library:

- **batbelt/structs.py** — the insertion-ordered set `sset`, and the
  helpers `chunks`, `dmerge`, `dswap`, `get` and `subdict`.
- **batbelt/strings.py** — the slug pipeline of `unicode_slugify`, and the same
  pipeline as `unicodedata_slugify` and `unidecode_slugify` run it after their
  normalisation step.

Files:

- `outcomes.dfy` (module `Outcomes`): `Option`, plus the Python exceptions the
  code raises or catches (`KeyError`, `IndexError`, `TypeError`) as a `Result`.
- `sequences.dfy` (module `Sequences`): `NoDup` and `Members` on sequences.
- `ordered_set.dfy` (module `OrderedSets`): `sset` as the class `OrderedSet`.
  The Python node lists `[key, prev, next]` become an arena of three parallel
  arrays `key`, `prev`, `next` indexed by slot number. Slot 0 is the sentinel;
  its key is `None`, as in the source. The dict `map` becomes
  `index: map<K, int>`, from key to slot. The ghost sequence `elems` is the
  contents in iteration order, and the ghost `slots` gives each element's slot.
  The invariant `Inv` says four things:
  - following `next` from the sentinel visits exactly `slots` and returns to
    the sentinel;
  - `prev` undoes every such step;
  - `index` maps each element to its slot and has no other keys;
  - `elems` has no duplicates.

  The abstract operations (`AddOne`, `AddEach`, `Without`, `Dedup`) are
  sequence functions. Lemmas about them state the ordering properties of the
  set.
- `structs.dfy` (module `Structs`): the helpers.
  - `chunks` is `Chunks`, on sequences.
  - `dmerge` is `DMerge`, built from `d.update` (`Update`) as in the source.
  - `dswap` is `DSwap`.
  - `get` is `Get`, a method with the source's loop. It is specified by
    `Lookup` over a `Data` datatype (null, integers, strings, lists, dicts)
    with string or integer keys. Python's negative list indices are modelled.
  - `subdict` is `SubDict`.
- `strings.dfy` (module `Strings`): the three slug steps as sequence functions
  (`Filter`; `Strip` then `Lower`; `Collapse`), with the character classes as
  a parameter:
  - `\w` is `isWord`;
  - `\s`, which is also what `strip()` removes, is `isSpace`;
  - `lower()` on one character is `lower`.

  `Sane` states what the proofs need of them: lowering keeps a character's
  class and is idempotent. The two normalising variants work on byte strings,
  with `re` patterns compiled without `re.U`. For them the classes are the
  ASCII ones (`Ascii`), and that instance is proved `Sane`.

## Model

| member | source | states |
|---|---|---|
| `OrderedSets.OrderedSet.constructor` | batbelt/structs.py:118-123 | the new set holds the distinct items in first-occurrence order (`Dedup(items)`), with the arena invariant established |
| `OrderedSets.OrderedSet.Length` | batbelt/structs.py:125-126 | `len(self.map)` is the number of elements in iteration order |
| `OrderedSets.OrderedSet.Contains` | batbelt/structs.py:128-129 | the dict lookup answers true exactly when the key is among the elements |
| `OrderedSets.OrderedSet.Add` | batbelt/structs.py:131-135 | a present key changes nothing; an absent key is appended at the end; the linked-list/index invariant is kept |
| `OrderedSets.OrderedSet.Append` | batbelt/structs.py:133-135 | splicing a fresh node in before the sentinel appends its key to the contents and keeps the invariant |
| `OrderedSets.OrderedSet.AddAll` | batbelt/structs.py:122-123 | the in-place union with `items` adds every item, in order |
| `OrderedSets.OrderedSet.Discard` | batbelt/structs.py:137-141 | the contents lose the key and keep every other element in order; an absent key changes nothing |
| `OrderedSets.OrderedSet.Link` | batbelt/structs.py:135 | the writes of `add`: the new slot gets the key, points forward to the sentinel and back to the old last node, which points forward to it, and the sentinel points back to it; nothing else changes |
| `OrderedSets.OrderedSet.Unlink` | batbelt/structs.py:140-141 | the writes of `discard`: the node before points forward to the node after, which points back to it; nothing else changes |
| `OrderedSets.OrderedSet.Remove` | batbelt/structs.py:139-141 | unlinking the node found through the index removes exactly that position and keeps the invariant |
| `OrderedSets.OrderedSet.Iterate` | batbelt/structs.py:143-148 | walking `next` from the sentinel until it comes back yields exactly the contents, in order |
| `OrderedSets.OrderedSet.IterateReversed` | batbelt/structs.py:150-155 | walking `prev` from the sentinel yields exactly the contents in reverse order |
| `OrderedSets.OrderedSet.Pop` | batbelt/structs.py:157-162 | on an empty set it gives KeyError and changes nothing; otherwise it removes and returns the last element (`last`) or the first one, and the rest stays in order |
| `OrderedSets.OrderedSet.Equals` | batbelt/structs.py:169-171 | against another `sset`: true exactly when both hold the same elements in the same order |
| `OrderedSets.OrderedSet.EqualsSet` | batbelt/structs.py:172 | against any other set: true exactly when the elements are the same, order ignored |
| `OrderedSets.InvAdd` | batbelt/structs.py:131-135 | the array writes of `add` on an absent key keep the invariant and append the key and its slot |
| `OrderedSets.InvDiscard` | batbelt/structs.py:137-141 | the array writes of `discard` (`prev[NEXT] = next`, `next[PREV] = prev`, index entry removed) keep the invariant and remove exactly that position |
| `OrderedSets.LinkAppend` | batbelt/structs.py:133-135 | splicing a fresh slot between the last node and the sentinel appends it to the ring, with `prev` still inverse to `next` |
| `OrderedSets.LinkRemove` | batbelt/structs.py:139-141 | making a node's neighbours point at each other removes it from the ring, with `prev` still inverse to `next` |
| `OrderedSets.AddEachIsDedup` | batbelt/structs.py:122-123 | adding the items one by one to an empty set is deduplication keeping first occurrences |
| `OrderedSets.DedupMembers` | batbelt/structs.py:118-135 | a set built from an iterable holds exactly the iterable's elements, each once |
| `OrderedSets.DedupOrder` | batbelt/structs.py:118-135 | a set built from an iterable lists its elements in the order of their first occurrence |
| `OrderedSets.DedupSize` | batbelt/structs.py:125-126 | the length of a set built from an iterable is the number of distinct items |
| `OrderedSets.DistinctCount` | batbelt/structs.py:125-126 | with no duplicates, the number of elements equals the number of distinct keys in the index |
| `OrderedSets.AddIdempotent` | batbelt/structs.py:131-135 | adding a key twice is the same as adding it once |
| `OrderedSets.WithoutAbsent` | batbelt/structs.py:137-138 | discarding an absent key leaves the contents unchanged |
| `OrderedSets.WithoutAt` | batbelt/structs.py:137-141 | with no duplicates, discarding the key at position p removes exactly position p |
| `OrderedSets.WithoutMembers` | batbelt/structs.py:137-141 | after discarding k, the elements are exactly the old ones other than k |
| `OrderedSets.DiscardThenAdd` | batbelt/structs.py:131-141 | discarding a present key and adding it again moves it to the end and keeps the others' order |
| `Structs.Chunks` | batbelt/structs.py:14-18 | the pieces `chunks` yields, each read in full: every piece has between 1 and n items |
| `Structs.ChunksConcat` | batbelt/structs.py:14-18 | joining the pieces of `chunks(s, n)` gives `s` back |
| `Structs.ChunksShape` | batbelt/structs.py:14-18 | empty input gives no piece; every piece but the last has exactly n items; the last has between 1 and n |
| `Structs.Update` | batbelt/structs.py:28-30 | `d.update(other)`: keys of both, `other`'s value where it has the key, `d`'s otherwise |
| `Structs.DMerge` | batbelt/structs.py:21-31 | the merged dict has the keys of d1 and d2, d2's value on shared keys and d1's value on the others |
| `Structs.DSwap` | batbelt/structs.py:34-49 | the swapped dict maps each value to a key holding it; of keys sharing a value, the last in dict order wins |
| `Structs.DSwapInverse` | batbelt/structs.py:34-49 | the swapped dict's keys are exactly the values; without duplicate values it is the exact inverse, whatever the dict order |
| `Structs.Index` | batbelt/structs.py:69 | one subscription: TypeError exactly when the value is not a dict and not a list or string indexed by an integer; KeyError exactly for a missing dict key; IndexError exactly for an integer outside `-len <= i < len` |
| `Structs.Lookup` | batbelt/structs.py:68-72 | the chain of subscriptions, stopping at the first error: no keys is the value itself, one key is one subscription |
| `Structs.IndexFromEnd` | batbelt/structs.py:72 | a negative index `i - len` reaches the same item as index `i` |
| `Structs.LookupSnoc` | batbelt/structs.py:68-72 | looking up one more key takes one more step from where the shorter lookup ended; an earlier error stays the result |
| `Structs.Get` | batbelt/structs.py:52-76 | with no keys, the default; otherwise the nested value when every step succeeds, and the default when a step raises KeyError, IndexError or TypeError |
| `Structs.SubDict` | batbelt/structs.py:79-102 | with a non-empty include, exactly the keys of the dict that are in it (exclude ignored); otherwise the keys not in exclude; values copied unchanged |
| `Structs.SubDictSplit` | batbelt/structs.py:99-102 | including some keys and excluding the same keys split the dict into two disjoint parts that make it up again |
| `Strings.Filter` | batbelt/strings.py:82 | every remaining character is a word character, whitespace or the separator, and comes from the input |
| `Strings.FilterKeepsAll` | batbelt/strings.py:82 | a string made only of kept characters passes the filter unchanged |
| `Strings.FilterAppend` | batbelt/strings.py:82 | the filter works piece by piece: filtering a concatenation concatenates the filtered pieces |
| `Strings.FilterDropsAll` | batbelt/strings.py:82 | a string made only of characters outside the word, whitespace and separator classes is deleted entirely |
| `Strings.StripNoSpace` | batbelt/strings.py:83 | `strip()` leaves a string without whitespace unchanged |
| `Strings.Strip` | batbelt/strings.py:83 | the stripped string neither starts nor ends with whitespace, and holds only characters of the input |
| `Strings.StripFrame` | batbelt/strings.py:83 | `strip()` removes exactly the whitespace before the first and after the last non-whitespace character |
| `Strings.StripAllSpace` | batbelt/strings.py:83 | `strip()` of a string made only of whitespace is empty |
| `Strings.Lower` | batbelt/strings.py:83 | `lower()` keeps the length and each character's class, and every character of the result is its own lower case |
| `Strings.Collapse` | batbelt/strings.py:84-85 | after collapsing, no two separators are side by side, and every character is the separator or an input character outside any separator/whitespace run |
| `Strings.SqueezeCharacters` | batbelt/strings.py:84-85 | every character of the collapsed string is the separator or a character of the input outside any separator/whitespace run |
| `Strings.SqueezeNoDouble` | batbelt/strings.py:84-85 | the collapsed string never holds two separators in a row |
| `Strings.SqueezeFixed` | batbelt/strings.py:84-85 | a string without whitespace and without two separators in a row is left as it is |
| `Strings.SqueezeRun` | batbelt/strings.py:84-85 | a whole run of separator and whitespace characters becomes exactly one separator, or nothing when the scan is already inside a run |
| `Strings.SqueezeAppend` | batbelt/strings.py:84-85 | collapsing works piece by piece, carrying whether the scan is inside a run |
| `Strings.Prepared` | batbelt/strings.py:82-83 | after filtering, stripping and lowering, only word characters, whitespace and separators remain, all of them lower case |
| `Strings.UnicodeSlugify` | batbelt/strings.py:67-85 | the composition filter, then strip and lower, then collapse; what it promises is stated by the `Slug` lemmas below |
| `Strings.SlugCharacters` | batbelt/strings.py:82-85 | every character of a slug is a word character or the separator, for a separator that is its own lower case or a word character |
| `Strings.SlugNoSpace` | batbelt/strings.py:83-85 | a slug holds no whitespace |
| `Strings.SlugNoDoubleSeparator` | batbelt/strings.py:84-85 | a slug never holds two separators in a row |
| `Strings.SlugLowerCase` | batbelt/strings.py:83-85 | lowering a slug changes nothing |
| `Strings.SlugIdempotent` | batbelt/strings.py:67-85 | slugifying a slug gives it back |
| `Strings.AsciiSane` | batbelt/strings.py:103 | the byte-string classes used without `re.U` satisfy the assumptions on the character classes |
| `Strings.EncodeAsciiIgnore` | batbelt/strings.py:102 | `.encode('ascii', 'ignore')` keeps exactly the ASCII characters of its input, and leaves an all-ASCII string unchanged |
| `Strings.EncodeAsciiIgnoreAppend` | batbelt/strings.py:102 | dropping works piece by piece, so the kept characters keep their order and multiplicity |
| `Strings.UnicodedataSlugify` | batbelt/strings.py:88-104 | NFKD normalisation (a parameter), non-ASCII characters dropped, then the same pipeline on the ASCII classes |
| `Strings.UnidecodeSlugify` | batbelt/strings.py:107-123 | transliteration (a parameter), then the same pipeline on the ASCII classes |
| `Strings.NormalisedSlugCharacters` | batbelt/strings.py:102-123 | for every normalisation and every separator, both normalising variants give only ASCII letters, digits, underscores and the separator |
| `Strings.ExampleDashes` | batbelt/strings.py:78-79 | the docstring example (a call of `unidecode_slugify`): `"\tStuff with -- dashes and...   spaces   \n"` gives `"stuff-with-dashes-and-spaces"` on the ASCII classes |
| `Strings.ExampleUnderscore` | batbelt/strings.py:76-77 | the docstring example (a call of `unidecode_slugify`): `"Bonjour, tout l'monde !"` with separator `_` gives `"bonjour_tout_lmonde"` on the ASCII classes |
| `Strings.ExamplesUnidecode` | batbelt/strings.py:115-123 | the same two examples through `unidecode_slugify`, when the transliteration leaves ASCII text alone |

## Left out

- `OrderedSet`: the arena never reuses a slot. Python allocates a fresh node
  on every `add`, so each `add` takes the next unused slot. The arrays double
  (`Grow`) when they are full. There is no free list, so memory is not
  reclaimed.
- `sset.__repr__` and `sset.__del__`: string formatting, and breaking
  reference cycles at garbage collection. The arena has no cycles.
- `MutableSet` mixin operations other than `|=` (`clear`, `remove`, `&`, `-`,
  …): these are library code. `|=` is modelled as `AddAll`, because the
  constructor relies on it.
- `OrderedSet.Iterate` and `OrderedSet.IterateReversed` build the whole
  sequence instead of yielding lazily. Mutating the set during an iteration is
  therefore not modelled.
- `OrderedSet.EqualsSet`: the source converts any iterable with `set(other)`.
  The model takes that set as its argument, so comparison against arbitrary
  iterables is not modelled.
- Element equality and hashing: keys use Dafny equality. Python's `__hash__`
  and `__eq__` overloads, and `1 == True`, are not modelled.
- `Chunks`: each piece is materialised, as with `process=list`. With the
  default `process=iter`, a piece not read to the end before the next one is
  requested leaves its items to the next piece. That lazy interleaving is not
  modelled. `chunksize >= 1` is required: `islice` rejects a negative stop.
- `DMerge` and `DSwap` take Dafny map values. "The inputs are left unchanged"
  therefore holds by construction and is not a separate statement.
- `DSwap`: a Python 2 dict's iteration order is unspecified. The model takes
  it as the parameter `order`. Values must be usable as keys, as Python
  requires them to be hashable.
- `Get`: nested data is limited to null, integers, strings, lists and dicts,
  and keys to strings and integers. Slices, tuples, custom `__getitem__` and
  other exceptions are not modelled. Exceptions other than KeyError,
  IndexError and TypeError would propagate in the source; none arise in this
  data model.
- `Strings`: `\w`, `\s`/`strip()` and `lower()` come from the Unicode database
  in `unicode_slugify`. They are kept abstract as the parameter `Classes`.
  `strip()` and `\s` are taken to agree on what whitespace is. The docstring
  example of `unicode_slugify` with accented letters (lines 74-75) depends on
  those tables and is not stated.
- `Strings.SlugIdempotent` requires the separator to be its own lower case
  and not whitespace. It is not stated for a whitespace separator, although it
  also holds there. With an upper-case separator it fails: separator `A` turns
  `"x y"` into `"xAy"`, and a second pass gives `"xay"`.
- `Strings.SlugLowerCase` requires the separator to be its own lower case, and
  `Strings.SlugNoSpace` requires it not to be whitespace. Without these the
  properties do not hold, since the separator itself appears in the slug.
- `Strings.SlugCharacters` requires the separator to be its own lower case or
  a word character, which it lowers to another word character. For the ASCII
  classes every separator qualifies, so `Strings.NormalisedSlugCharacters` has
  no such requirement.
- The separator is one character that is not `]`, `\` or `^`, since it is
  spliced unescaped into two character classes. Multi-character separators are
  not modelled.
- Default arguments become explicit parameters: `separator='-'` of the three
  slug functions, `default=None` of `get` (the `default` of `Get`),
  `last=True` of `sset.pop` (the `last` of `OrderedSet.Pop`), and
  `iterable=None` of `sset.__init__`, which becomes the `items: seq<K>` of the
  `OrderedSet` constructor, with `[]` standing for `None`.
- `unicodedata.normalize('NFKD', …)` and `unidecode.unidecode` are foreign
  libraries. They are function parameters (`nfkd`, `transliterate`). The
  properties of the slug pipeline assume nothing about them; only
  `Strings.ExamplesUnidecode` requires `transliterate` to leave its two
  all-ASCII docstring inputs unchanged, which is what `unidecode` does to
  ASCII text.
- The final `unicode(...)` conversion does not change the characters and is
  not modelled.
- The JSON encoder and decoder, HTML escaping, templating and file writing in
  batbelt/strings.py are out of scope. So are batbelt/hack.py,
  batbelt/objects.py, batbelt/parallel.py and batbelt/utils.py. They are I/O,
  concurrency, dynamic-typing tricks or wrappers around other libraries.
