# Trie.js in Dafny

A model of Trie.js, an in-memory prefix tree of strings. The engine keeps one root object.
Each object has one key per character edge leading to a child object. An object may also
hold the stored word under the reserved key `"|"`. The model covers the public operations
`insert`, `has`, `get`, `remove` and `getObject`, and the helpers they use: `findAllRecursive`,
`childrenLength`, `parent`, `hasChildrenObjects` and `childrenObjects`.

The project has three modules:

- `TrieNode` (trie_node.dfy) defines the node value and the path walk `Lookup`. It also
  defines the ghost views used in the contracts: `Words` (every stored word below a node),
  `WellFormed` (every word is recorded at the end of its own path and never at the root) and
  `Minimal` (no node other than the root is an empty object).
- `TrieOps` (trie_ops.dfy) gives, as functions from the old root to the new one, what
  insert does (`Put`), what the pruning walk does (`Cut`) and what remove does, branch by
  branch (`Remove`). `Parent` models the `parent` helper. The lemmas in this module state
  the effect on the set of stored words, on well-formedness and on minimality.
- `TrieEngine` (trie_engine.dfy) is the engine itself. Class `Trie` has the root as a field
  that its methods update. The loops of `getObject`, `insert`, `remove`'s pruning walk,
  `findAllRecursive`'s walk over children, `childrenLength` and the batch forms are
  `while`/`for` loops. Three loops are not: the walk in `parent` is the function `Parent`,
  the loop that deletes every key of a node (trie.js:139) is the assignment of `Empty`, and
  the loop in `hasChildrenObjects` is the test `children != map[]`. `InsertWord`, its walk
  `Plant`, `Prune` and `RemoveWord` are proved to leave exactly the tree that the `TrieOps` function gives.
  The constructor and the batch `Insert` and `Remove` state the resulting set of stored
  words, and `Insert` also states that minimality is kept.

In the source, a write goes through a reference to an inner object, such as
`currentObj[char] = {}` or `delete currentParent[char]`. The model shows each such write on
the whole tree as `SetAt(root, path of that object, new object)`.

Where the source and its written description differ, the model follows the code:

- A non-cascading `remove` of a stored word clears the word and then returns false. It
  prunes nothing.
- `insert("")` stores nothing and returns true, and `has("")` is always false.
- `remove("", true)` throws a TypeError, because `parent` returns undefined for the root.
- The test `currentParent[string]` (trie.js:130) also reads inherited properties. So for a
  string that names a member of every JavaScript object, such as "toString" or
  "constructor", a cascading `remove` only unmarks the word and returns true. Longer words
  that start with it stay stored.
- A cascading `remove` can leave an empty node in place. This happens when the node at `s`
  has children and is the only key of its parent. It also happens for an inherited name
  whose node has no children. `RemoveCascadeLeavesEmpty` proves that the tree is then no
  longer minimal.

## Model

| member | source | states |
|---|---|---|
| TrieNode.Lookup | trie.js:14-33 | the node reached from n by following s one edge at a time, or none as soon as an edge is missing (a definition; its laws are the Lookup lemmas) |
| TrieNode.Words | trie.js:57-62 | the words recorded at a node and, recursively, under each of its children (a definition; WordsAtPaths characterises it) |
| TrieNode.KeyCount | trie.js:207-215 | an object's own keys are its edges plus the word key; the count is zero exactly for the empty object `{}` |
| TrieNode.LookupAppend | trie.js:14-33 | walking s and then t reaches the same node as walking s + t, and fails if either walk fails |
| TrieNode.LookupMissingEdge | trie.js:20-24 | the walk answers not-found as soon as one edge on the path is missing, whatever follows |
| TrieNode.WordsAtPaths | trie.js:57-62 | the words in a subtree are exactly the words recorded at the ends of its paths |
| TrieNode.StoredAtOwnPath | trie.js:97-99 | in a well-formed tree a word is stored iff it is non-empty and recorded at the end of its own path |
| TrieNode.SubtreeWords | trie.js:49-64 | the node at prefix p holds exactly the stored words that start with p; if p's path is absent, no stored word starts with p |
| TrieOps.SetAt | trie.js:90-102 | writing an object at path s leaves that object at s, and the root keeps its keys and its word |
| TrieOps.SetAtKeys | trie.js:90-102 | every node above the written one on the path keeps its keys and its word |
| TrieOps.Parent | trie.js:218-236 | for a node at depth d > 0 on s's path, parent gives the node at depth d - 1, whose edge s[d-1] leads to it; the root has none |
| TrieOps.Put | trie.js:84-103 | insert's walk below a node never removes an edge, always leaves the edge of the next character, and never touches the word of the node it starts from |
| TrieOps.PutTermAt | trie.js:84-103 | insert records the word at the end of its path and changes no other recorded word |
| TrieOps.PutKeepsPaths | trie.js:90 | after insert a path exists iff it existed before or is a prefix of the inserted string: insert only adds missing edges |
| TrieOps.PutIdempotent | trie.js:90-100 | inserting the same string twice gives the same tree as inserting it once |
| TrieOps.InsertWords | trie.js:79-105 | insert keeps the tree well-formed and adds exactly s to the stored words (nothing for "") |
| TrieOps.PutMinimal | trie.js:90-102 | insert creates no empty node that would outlive it: a minimal tree stays minimal |
| TrieOps.Has | trie.js:174-178 | has(s) holds only for a non-empty s whose path ends in a node that records s; never for "" |
| TrieOps.HasIsMembership | trie.js:174-178 | has(s) is exact membership: true iff s is stored; never true for "" |
| TrieOps.Cut | trie.js:145-155 | the pruning walk only deletes edges: the root keeps its word, loses no edge except the first one of s, and loses that one when s has one character |
| TrieOps.CutTermAt | trie.js:145-155 | the pruning walk removes exactly the words recorded at s or below and keeps every other |
| TrieOps.CutStep | trie.js:147-154 | one iteration: deleting the last edge either ends the walk (the parent keeps a key, or it is the root) or leaves it as if s were one character shorter |
| TrieOps.CutMinimal | trie.js:145-155 | the pruning walk leaves no empty node behind in a tree that had none |
| TrieOps.CutEmpties | trie.js:149-152 | the walk empties its starting node exactly when no node on the path has a key besides the edge being deleted |
| TrieOps.CutSurvivors | trie.js:145-155 | the node at depth k+1 survives the walk iff some node at depth k+1 or deeper (above the target) keeps another key: emptied ancestors are removed and the walk stops at the first one with another key |
| TrieOps.Remove | trie.js:119-157 | remove on a string: an absent path gives false and no change; without cascade the result is false; it throws exactly for cascade removal of ""; it returns true exactly for cascade removal of a non-empty s whose path exists |
| TrieOps.UnmarkWord | trie.js:127 | clearing the word at s keeps the tree well-formed and removes exactly s from the stored words |
| TrieOps.UnmarkedTree | trie.js:123-135 | whenever s's path exists, remove(s) without cascade leaves the tree with only the node at s changed, and that node only loses the word s |
| TrieOps.RemoveWordWords | trie.js:123-135 | remove(s) without cascade returns false, removes exactly s from the stored words, and changes nothing if s was not stored |
| TrieOps.RemoveWordKeepsNode | trie.js:127-135 | a non-cascading remove leaves the node at s in place, only without its word (no pruning) |
| TrieOps.CascadeTermAt | trie.js:130-155 | with cascade, whatever branch is taken, the words recorded at s or below are gone and all others stay; for a name every object inherits, only s itself is gone |
| TrieOps.RemoveInherited | trie.js:130-133 | for a name every object inherits, remove(s, true) unmarks s exactly as remove(s) does, prunes nothing and returns true |
| TrieOps.RemoveCascadeWords | trie.js:119-157 | remove(s, true) throws for "", otherwise returns true iff s's path exists; it removes exactly the stored words starting with s (only s for an inherited name) and keeps the tree well-formed; with no path the tree is unchanged |
| TrieOps.RemoveCascadeMinimal | trie.js:130-155 | a cascading remove that leaves no empty node in place (neither the early return at trie.js:141 nor an inherited leaf name at trie.js:133) keeps a minimal tree minimal |
| TrieOps.RemoveCascadeLeavesEmpty | trie.js:130-141 | when the node has children and is its parent's only key, or s is an inherited name whose node has no children, the removal returns true and leaves an empty node at s, so the tree is no longer minimal |
| TrieEngine.ChildrenLength | trie.js:207-215 | counting the keys one by one gives KeyCount; zero exactly for the empty object |
| TrieEngine.FindAll | trie.js:57-62 | with the push meant at trie.js:59, the depth-first search appends, each once, exactly the non-empty words of the subtree to what was found so far, and keeps the earlier entries |
| TrieEngine.PushAsWritten | trie.js:59 | the push as written adds the word or nothing, and never adds a word that names an array member |
| TrieEngine.ArrayMemberMissed | trie.js:59 | the stored word "map" is not pushed onto an empty result |
| TrieEngine.IndexMissed | trie.js:59 | with two words listed, the stored word "1" is not pushed |
| TrieEngine.Trie.constructor | trie.js:181-183 | a new engine stores exactly the non-empty strings of its word list, in a well-formed minimal tree |
| TrieEngine.Trie.GetObject | trie.js:14-33 | returns the root for "", otherwise the node at the end of s's path, or not-found if the path is absent |
| TrieEngine.Trie.HasWord | trie.js:172-178 | on a string, has is true iff the string is a stored word |
| TrieEngine.Trie.Has | trie.js:162-179 | a batch gives one membership answer per item, except that "__proto__" gets no key; any argument that is not a string or a batch gives false |
| TrieEngine.Trie.GetPrefix | trie.js:47-66 | get(p) lists each stored word that starts with p exactly once, and nothing else; it returns [] when p's path is absent |
| TrieEngine.Trie.Get | trie.js:37-67 | get() lists every stored word; a batch gives the list per item, except that "__proto__" gets no key; any other argument gives [] |
| TrieEngine.Trie.InsertWord | trie.js:79-105 | the walk leaves exactly Put's tree: s is added to the stored words (nothing for ""), and the tree stays well-formed and minimal |
| TrieEngine.Trie.Plant | trie.js:83-104 | the loop over the characters of s, adding each missing edge and recording s at the last one, leaves exactly Put's tree |
| TrieEngine.Trie.Insert | trie.js:70-106 | a batch adds every non-empty item and returns true; any argument that is not a string or a batch returns false and changes nothing |
| TrieEngine.Trie.Prune | trie.js:145-155 | the upward loop of parent lookups and key deletions leaves exactly Cut's tree |
| TrieEngine.Trie.RemoveWord | trie.js:119-157 | the outcome and the new tree are those of Remove: without cascade, false and s is no longer stored; with cascade, a TypeError for "", otherwise true iff the path existed, and every word starting with s is gone (only s for an inherited name) |
| TrieEngine.Trie.Remove | trie.js:110-157 | a batch removes each item without cascade and returns true; any argument that is not a string or a batch returns false and changes nothing |

## Left out

- `copy` (trie.js:238-241) is never called. It depends on JSON serialisation.
- The collision between the word key `"|"` and a character edge `"|"` is left out, because the stored word has a field of its own in the model.
- Argument dispatch is reduced to four shapes: missing, a string, a sequence of strings, or anything else. `null`, plain objects iterated with `for...in`, and batches of non-strings are not modelled.
- The `all` flag is a boolean. A truthy non-boolean such as `1` passes neither `all===true` nor `all===false` in the source, and that case is not modelled.
- TrieEngine.FindAll: the `!strings[word]` test at trie.js:59 is replaced by the membership test it was evidently meant to be (see "## Findings"). As written it reads `word` as a property of the result array. It skips every stored word that names an array member ("map", "sort", "toString", ...), "length" once a word is listed, and a canonical index below the list's length. So Trie.GetPrefix and Trie.Get here list words that the source leaves out. TrieEngine.PushAsWritten models the test as written.
- TrieEngine.Trie.Get: a batch item "__proto__" does not become a key, but in the source it also replaces the prototype of the returned object with that item's list. The model does not capture that.
- TrieOps.ObjectMembers lists the standard members of Object.prototype, and TrieEngine.ArrayMembers adds those of Array.prototype as of ECMAScript 2023. Members added by a particular engine or by other code are not modelled.
- TrieEngine.Trie.GetPrefix: the order of the returned list is not stated. The source's order follows JavaScript's key enumeration order, which the model does not have.
- `hasChildrenObjects` and `childrenObjects` (trie.js:188-204) are not separate members. The first is the test `children != map[]`. The second is the iteration over the child map. The source's version also visits the word key and recurses into the string value harmlessly.
- Object identity and aliasing are not modelled, since nodes are values. `parent` is modelled by the node it returns along the path, and the identity test `currentObj === obj` becomes a depth.
- The quadratic cost of re-walking from the root for every `parent` call (trie.js:148) is not modelled. Only its result is.
- Characters are Dafny `char` values, not the UTF-16 code units JavaScript strings index by.

## Findings

| source | as written | input that shows it | evidently intended | confidence | as-written member | corrected member |
|---|---|---|---|---|---|---|
| trie.js:59 | `!strings[word]` reads the word as a property of the result array `strings` | `new Trie(["map"]).get()` gives `[]`, although `has("map")` is true; likewise "1" once two words are listed | push each stored word once, that is, skip a word only if it is already listed | high, not executed | TrieEngine.ArrayMemberMissed | TrieEngine.FindAll |
