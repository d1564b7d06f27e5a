/**
 * The engine of trie.js: the closure state `trie` becomes the field `root` of class Trie,
 * and each public operation (insert, has, get, remove, getObject) a method over it. The
 * methods are proved equal to the functions of TrieOps and, through the lemmas there, to
 * what they do to the set of stored words.
 */
module TrieEngine {
  import opened TrieNode
  import TrieOps

  /** The shapes of argument the source tells apart with typeof. */
  datatype Arg = Undefined | Str(s: string) | Items(items: seq<string>) | Other

  /** One answer for a string argument, or one answer per item of a batch, keyed by the item. */
  datatype Answer<T> = Single(value: T) | PerItem(entries: map<string, T>)

  predicate NoDuplicates(xs: seq<string>)
  {
    forall i, j :: 0 <= i < j < |xs| ==> xs[i] != xs[j]
  }

  /**
   * Assigning a value to this name on a plain object (`strings[name] = ...`) sets the
   * object's prototype, or does nothing for a boolean, instead of creating a key.
   */
  const ProtoKey: string := "__proto__"

  /** The strings an argument supplies: itself, its items, or none. */
  function Supplied(a: Arg): seq<string>
  {
    match a
    case Str(s) => [s]
    case Items(items) => items
    case _ => []
  }

  /** The strings of xs, as a set. */
  ghost function Elements(xs: seq<string>): set<string>
  {
    set w | w in xs
  }

  /** The words inserting the strings xs stores: all but "", which insert skips. */
  ghost function Inserted(xs: seq<string>): set<string>
  {
    Elements(xs) - {[]}
  }

  /** One more string of a batch adds its word, unless it is "". */
  lemma InsertedNext(xs: seq<string>, i: nat)
    requires i < |xs|
    ensures Inserted(xs[..i + 1]) == Inserted(xs[..i]) + (if xs[i] == [] then {} else {xs[i]})
  {
    assert xs[..i + 1] == xs[..i] + [xs[i]];
  }

  /** `strings` lists, each once, exactly the words of `words` that have `prefix` as a prefix. */
  ghost predicate Lists(strings: seq<string>, words: set<string>, prefix: string)
  {
    NoDuplicates(strings) && forall w :: w in strings <==> w in words && prefix <= w
  }

  /** childrenLength (trie.js:207-215): counts the own keys of the node, one at a time. */
  method ChildrenLength(n: Node) returns (count: nat)
    ensures count == KeyCount(n)
    ensures count == 0 <==> n == Empty
  {
    count := 0;
    var keys := n.children.Keys;
    while keys != {}
      invariant keys <= n.children.Keys
      invariant count + |keys| == |n.children|
      decreases keys
    {
      var k :| k in keys;
      keys := keys - {k};
      count := count + 1;
    }
    if n.terminal.Some? {
      count := count + 1;
    }
  }

  /** The words in the subtrees of n under the edges cs. */
  ghost function Below(n: Node, cs: set<char>): set<string>
  {
    set c, w | c in cs && c in n.children && w in Words(n.children[c]) :: w
  }

  /** Visiting one more edge adds the words of its subtree. */
  lemma BelowAdd(n: Node, cs: set<char>, c: char)
    requires c in n.children
    ensures Below(n, cs + {c}) == Below(n, cs) + Words(n.children[c])
  {
  }

  /**
   * The loop invariant of FindAll once the edges outside `keys` are visited: `found` holds
   * the strings given plus the non-empty words at n and under the visited edges, and every
   * word it gained lies below p, off the edges still to visit.
   */
  ghost predicate Visited(n: Node, p: string, strings: seq<string>, keys: set<char>, found: seq<string>)
  {
    && (forall w :: w in found ==> w in strings || (p <= w && (|w| == |p| || w[|p|] !in keys)))
    && Elements(found) == Elements(strings) + (Own(n) + Below(n, n.children.Keys - keys) - {[]})
  }

  /** Nothing found so far lies under an edge still to visit. */
  lemma FreshBelow(n: Node, p: string, strings: seq<string>, keys: set<char>, c: char, found: seq<string>)
    requires c in keys
    requires forall w :: w in strings ==> !(p <= w)
    requires Visited(n, p, strings, keys, found)
    ensures forall w :: w in found ==> !(p + [c] <= w)
  {
  }

  /** Once every edge is visited, `found` lists the strings given and the non-empty words of n. */
  lemma FindAllDone(n: Node, p: string, strings: seq<string>, found: seq<string>)
    requires Visited(n, p, strings, {}, found)
    ensures forall w :: w in found <==> w in strings || (w in Words(n) && w != [])
  {
    assert n.children.Keys - {} == n.children.Keys;
    assert Own(n) + Below(n, n.children.Keys) == Words(n);
    forall w
      ensures w in found <==> w in strings || (w in Words(n) && w != [])
    {
      assert w in found <==> w in Elements(found);
    }
  }

  /** One visit of the child under c keeps the invariant of the loop in FindAll. */
  lemma FindAllStep(n: Node, p: string, strings: seq<string>, keys: set<char>, c: char,
                    before: seq<string>, found: seq<string>)
    requires keys <= n.children.Keys && c in keys && Anchored(n.children[c], p + [c])
    requires |strings| <= |before| && before[..|strings|] == strings
    requires Visited(n, p, strings, keys, before)
    requires |before| <= |found| && found[..|before|] == before
    requires forall w :: w in found <==> w in before || (w in Words(n.children[c]) && w != [])
    ensures |strings| <= |found| && found[..|strings|] == strings
    ensures Visited(n, p, strings, keys - {c}, found)
  {
    assert found[..|strings|] == found[..|before|][..|strings|];
    forall w | w in found && w !in before
      ensures |p| < |w| && w[..|p|] == p && w[|p|] == c
    {
      AnchoredWords(n.children[c], p + [c], w);
      assert w[..|p| + 1] == p + [c];
    }
    assert Elements(found) == Elements(before) + (Words(n.children[c]) - {[]});
    BelowAdd(n, n.children.Keys - keys, c);
    assert n.children.Keys - (keys - {c}) == (n.children.Keys - keys) + {c};
  }

  /**
   * The names an Array instance reads through its prototype chain (Array.prototype as of
   * ECMAScript 2023, then Object.prototype); each reads as a function or an object, so truthy.
   */
  const ArrayMembers: set<string> := TrieOps.ObjectMembers + {
    "at", "concat", "copyWithin", "entries", "every", "fill", "filter", "find", "findIndex",
    "findLast", "findLastIndex", "flat", "flatMap", "forEach", "includes", "indexOf", "join",
    "keys", "lastIndexOf", "map", "pop", "push", "reduce", "reduceRight", "reverse", "shift",
    "slice", "some", "sort", "splice", "toReversed", "toSorted", "toSpliced", "unshift",
    "values", "with"
  }

  predicate IsDigit(c: char)
  {
    '0' <= c <= '9'
  }

  /** The number a string of decimal digits denotes. */
  function DecimalValue(w: string): nat
    requires forall i :: 0 <= i < |w| ==> IsDigit(w[i])
  {
    if w == [] then 0
    else
      assert IsDigit(w[|w| - 1]);
      10 * DecimalValue(w[..|w| - 1]) + (w[|w| - 1] as int - '0' as int)
  }

  /** w is a canonical array index: decimal digits without a leading zero, below 2^32 - 1. */
  predicate IsArrayIndex(w: string)
  {
    && |w| >= 1
    && (forall i :: 0 <= i < |w| ==> IsDigit(w[i]))
    && (w[0] != '0' || |w| == 1)
    && DecimalValue(w) < 0xFFFF_FFFF
  }

  /** `strings[w]` is truthy, for the array `strings` of the words listed so far. */
  predicate Occupied(strings: seq<string>, w: string)
  {
    || w in ArrayMembers
    || (w == "length" && |strings| > 0)
    || (IsArrayIndex(w) && DecimalValue(w) < |strings| && strings[DecimalValue(w)] != [])
  }

  /**
   * The push at trie.js:59 as written: the word at a node joins `strings` when it is truthy
   * and `strings[word]` is not. A word naming an array member is never listed.
   */
  function PushAsWritten(strings: seq<string>, word: Option<string>): (r: seq<string>)
    ensures r == strings || (word.Some? && r == strings + [word.value])
    ensures word.Some? && word.value in ArrayMembers ==> r == strings
  {
    if word.Some? && word.value != [] && !Occupied(strings, word.value) then strings + [word.value]
    else strings
  }

  /**
   * new Trie(["map"]).get() lists nothing although "map" is stored: at the node of "map",
   * `strings["map"]` is the array's map method, so the word is not pushed.
   */
  lemma ArrayMemberMissed()
    ensures "map" in Words(Node(map[], Some("map")))
    ensures PushAsWritten([], Some("map")) == []
  {
  }

  /** With "a" and "b" listed, the word "1" reads `strings[1]`, which is "b", and is not pushed. */
  lemma IndexMissed()
    ensures PushAsWritten(["a", "b"], Some("1")) == ["a", "b"]
  {
    assert IsArrayIndex("1") && DecimalValue("1") == 1;
  }

  /**
   * findAllRecursive (trie.js:57-62) with the push meant at trie.js:59: the word recorded at
   * n joins `strings` when it is truthy (non-empty) and not listed yet; then every child is
   * visited, depth first. The ghost parameter p is the path of n, which tells the words of
   * different children apart.
   */
  method FindAll(n: Node, strings: seq<string>, ghost p: string) returns (found: seq<string>)
    requires Anchored(n, p)
    requires NoDuplicates(strings)
    requires forall w :: w in strings ==> !(p <= w)
    ensures |strings| <= |found| && found[..|strings|] == strings
    ensures NoDuplicates(found)
    ensures forall w :: w in found <==> w in strings || (w in Words(n) && w != [])
    decreases n
  {
    found := strings;
    if n.terminal.Some? && n.terminal.value != [] && n.terminal.value !in found {
      assert TermAt(n, []) == n.terminal;
      assert n.terminal.value == p;
      assert p !in strings;
      found := found + [n.terminal.value];
      assert found[..|strings|] == strings;
    }
    assert Elements(found) == Elements(strings) + (Own(n) - {[]});
    var keys := n.children.Keys;
    while keys != {}
      invariant keys <= n.children.Keys
      invariant |strings| <= |found| && found[..|strings|] == strings
      invariant NoDuplicates(found)
      invariant Visited(n, p, strings, keys, found)
      decreases keys
    {
      var c :| c in keys;
      AnchoredChild(n, p, c);
      FreshBelow(n, p, strings, keys, c, found);
      ghost var before := found;
      found := FindAll(n.children[c], found, p + [c]);
      FindAllStep(n, p, strings, keys, c, before, found);
      keys := keys - {c};
    }
    FindAllDone(n, p, strings, found);
  }

  class Trie {
    /** The root object `trie`. */
    var root: Node

    ghost predicate Valid()
      reads this
    {
      WellFormed(root)
    }

    /** The set of stored words. */
    ghost function Contents(): set<string>
      reads this
    {
      Words(root)
    }

    /** new Trie(wordlist) (trie.js:6-10, 183): an empty root, then insert(wordlist). */
    constructor (wordlist: Arg)
      ensures Valid() && Minimal(root)
      ensures Contents() == Inserted(Supplied(wordlist))
    {
      root := Empty;
      new;
      assert Words(Empty) == {};
      var _ := Insert(wordlist);
    }

    /**
     * getObject(s) (trie.js:14-33): the root for "", otherwise the node reached by following
     * s one character at a time, or None (false) as soon as an edge is missing.
     */
    method GetObject(s: string) returns (r: Option<Node>)
      ensures s == [] ==> r == Some(root)
      ensures r == Lookup(root, s)
    {
      if s == [] {
        return Some(root);
      }
      var current := root;
      for i := 0 to |s|
        invariant Lookup(root, s) == Lookup(current, s[i..])
      {
        assert s[i..][1..] == s[i + 1..];
        if s[i] in current.children {
          current := current.children[s[i]];
        } else {
          return None;
        }
      }
      // after at least one edge the node reached is never the root itself (`currentObj !== trie`)
      return Some(current);
    }

    /** has(s) on a string (trie.js:172-178): exact membership, never a prefix test. */
    method HasWord(s: string) returns (b: bool)
      requires Valid()
      ensures b == TrieOps.Has(root, s)
      ensures b <==> s in Contents()
    {
      TrieOps.HasIsMembership(root, s);
      var arr := GetObject(s);
      if arr.None? {
        return false;
      }
      b := arr.value.terminal.Some? && arr.value.terminal.value != [] && arr.value.terminal.value == s;
    }

    /** has(a) (trie.js:162-179): per item for a batch, false for anything but a string. */
    method Has(a: Arg) returns (r: Answer<bool>)
      requires Valid()
      ensures a.Str? ==> r == Single(a.s in Contents())
      ensures a.Items? ==> r.PerItem? && r.entries.Keys == (set w | w in a.items && w != ProtoKey) &&
                           forall w :: w in r.entries ==> (r.entries[w] <==> w in Contents())
      ensures a.Undefined? || a.Other? ==> r == Single(false)
    {
      match a
      case Items(items) =>
        var entries: map<string, bool> := map[];
        for i := 0 to |items|
          invariant entries.Keys == set w | w in items[..i] && w != ProtoKey
          invariant forall w :: w in entries ==> (entries[w] <==> w in Contents())
        {
          var b := HasWord(items[i]);
          if items[i] != ProtoKey {
            entries := entries[items[i] := b];
          }
          assert items[..i + 1] == items[..i] + [items[i]];
        }
        assert items[..|items|] == items;
        r := PerItem(entries);
      case Str(s) =>
        var b := HasWord(s);
        r := Single(b);
      case _ =>
        r := Single(false);
    }

    /**
     * get(s) on a string (trie.js:49-66): [] when the path of s is absent, otherwise every
     * stored word that has s as a prefix, each once, in depth-first order.
     */
    method GetPrefix(s: string) returns (strings: seq<string>)
      requires Valid()
      ensures Lists(strings, Contents(), s)
      ensures Lookup(root, s).None? ==> strings == []
    {
      var current := GetObject(s);
      SubtreeWords(root, s);
      if current.None? {
        return [];
      }
      strings := FindAll(current.value, [], s);
      forall w
        ensures w in strings <==> w in Contents() && s <= w
      {
        StoredAtOwnPath(root, w);
      }
    }

    /**
     * get(a) (trie.js:37-67): every stored word when a is missing, the words under a string
     * prefix, the same per item for a batch, and [] for anything else.
     */
    method Get(a: Arg) returns (r: Answer<seq<string>>)
      requires Valid()
      ensures a.Undefined? ==> r.Single? && Lists(r.value, Contents(), [])
      ensures a.Str? ==> r.Single? && Lists(r.value, Contents(), a.s)
      ensures a.Items? ==> r.PerItem? && r.entries.Keys == (set w | w in a.items && w != ProtoKey) &&
                           forall w :: w in r.entries ==> Lists(r.entries[w], Contents(), w)
      ensures a.Other? ==> r == Single([])
    {
      match a
      case Items(items) =>
        var entries: map<string, seq<string>> := map[];
        for i := 0 to |items|
          invariant entries.Keys == set w | w in items[..i] && w != ProtoKey
          invariant forall w :: w in entries ==> Lists(entries[w], Contents(), w)
        {
          var found := GetPrefix(items[i]);
          if items[i] != ProtoKey {
            entries := entries[items[i] := found];
          }
          assert items[..i + 1] == items[..i] + [items[i]];
        }
        assert items[..|items|] == items;
        r := PerItem(entries);
      case Str(s) =>
        var found := GetPrefix(s);
        r := Single(found);
      case Undefined =>
        // getObject(undefined) is the root, as for ""
        var found := GetPrefix([]);
        r := Single(found);
      case Other =>
        r := Single([]);
    }

    /**
     * insert(s) on a string (trie.js:79-105): the word s is stored, every stored word stays,
     * and no empty node appears.
     */
    method InsertWord(s: string) returns (ok: bool)
      requires Valid()
      modifies this
      ensures Valid() && ok
      ensures root == TrieOps.Put(old(root), s, s)
      ensures Contents() == old(Contents()) + (if s == [] then {} else {s})
      ensures Minimal(old(root)) ==> Minimal(root)
    {
      TrieOps.InsertWords(root, s);
      if Minimal(root) {
        TrieOps.PutMinimal(root, s, s);
      }
      Plant(s);
      ok := true;
    }

    /**
     * The loop of insert (trie.js:83-104): walks s from the root, hangs a fresh object under
     * each missing edge, and records s in the node of its last character.
     */
    method Plant(s: string)
      modifies this
      ensures root == TrieOps.Put(old(root), s, s)
    {
      ghost var start := root;
      var charsDone: string := [];
      var current := root;
      var i := 0;
      while i < |s|
        invariant 0 <= i <= |s|
        invariant charsDone == s[..i]
        invariant Lookup(root, s[..i]) == Some(current)
        invariant i < |s| ==> TrieOps.SetAt(root, s[..i], TrieOps.Put(current, s[i..], s)) == TrieOps.Put(start, s, s)
        invariant i == |s| ==> root == TrieOps.Put(start, s, s)
      {
        var c := s[i];
        assert s[i..][0] == c && s[i..][1..] == s[i + 1..] && s[..i + 1] == s[..i] + [c];
        TrieOps.PutDescend(root, s[..i], current, s[i..], s);
        // a missing edge gets a fresh object (charsDone is a proper prefix of s here)
        if c !in current.children && charsDone != s {
          current := current.(children := current.children[c := Empty]);
          root := TrieOps.SetAt(root, s[..i], current);
        }
        charsDone := charsDone + [c];
        var next := current.children[c];
        // on the last character the word is recorded in the child
        if charsDone == s {
          next := next.(terminal := Some(s));
          root := TrieOps.SetAt(root, s, next);
        }
        current := next;
        i := i + 1;
      }
    }

    /** insert(a) (trie.js:70-106): each item of a batch in turn, true; false for anything but a string. */
    method Insert(a: Arg) returns (ok: bool)
      requires Valid()
      modifies this
      ensures Valid()
      ensures ok <==> a.Str? || a.Items?
      ensures Contents() == old(Contents()) + Inserted(Supplied(a))
      ensures a.Undefined? || a.Other? ==> root == old(root)
      ensures Minimal(old(root)) ==> Minimal(root)
    {
      match a
      case Items(items) =>
        for i := 0 to |items|
          invariant Valid()
          invariant Contents() == old(Contents()) + Inserted(items[..i])
          invariant Minimal(old(root)) ==> Minimal(root)
        {
          var _ := InsertWord(items[i]);
          InsertedNext(items, i);
        }
        assert items[..|items|] == items;
        ok := true;
      case Str(s) =>
        ok := InsertWord(s);
      case _ =>
        ok := false;
    }

    /**
     * The pruning walk of remove (trie.js:145-155): from the end of s upwards, the edge to
     * the current node is deleted from its parent, and the walk stops at the first parent
     * that still has a key left, or at the root. Its effect is that of TrieOps.Cut.
     */
    method Prune(s: string)
      requires s != [] && Lookup(root, s).Some?
      modifies this
      ensures root == TrieOps.Cut(old(root), s)
    {
      assert s[..|s|] == s;
      ghost var target := TrieOps.Cut(root, s);
      var i := |s| - 1;
      while i >= 0
        invariant -1 <= i < |s|
        invariant i >= 0 ==> Lookup(root, s[..i + 1]).Some? && TrieOps.Cut(root, s[..i + 1]) == target
        invariant i < 0 ==> root == target
      {
        var c := s[i];
        var currentParent := TrieOps.Parent(root, s, i + 1);
        TrieOps.PruneStep(root, s, i);
        var count := ChildrenLength(currentParent.value);
        if count >= 1 && c in currentParent.value.children {
          var detached := currentParent.value.(children := currentParent.value.children - {c});
          root := TrieOps.SetAt(root, s[..i], detached);
          var left := ChildrenLength(detached);
          if left >= 1 {
            return;
          }
        }
        i := i - 1;
      }
    }

    /**
     * remove(s, all) on a string (trie.js:119-157): the outcome and the new tree are those
     * of TrieOps.Remove, so the stored word s, or with `all` every stored word extending s
     * (only s itself for a name every object inherits), is gone and every other word stays.
     */
    method RemoveWord(s: string, all: bool) returns (res: TrieOps.Outcome)
      requires Valid()
      modifies this
      ensures Valid()
      ensures TrieOps.Remove(old(root), s, all) == TrieOps.Removal(res, root)
      ensures !all ==> res == TrieOps.Returned(false) && Contents() == old(Contents()) - {s}
      ensures all && s == [] ==> res == TrieOps.TypeError && root == old(root)
      ensures all && s != [] ==> res == TrieOps.Returned(Lookup(old(root), s).Some?)
      ensures all && s != [] && s !in TrieOps.ObjectMembers ==>
                Contents() == old(Contents()) - (set w | w in old(Contents()) && s <= w)
      ensures all && s in TrieOps.ObjectMembers ==> Contents() == old(Contents()) - {s}
      ensures all && Minimal(old(root)) && !TrieOps.EmptiedInPlace(old(root), s) ==> Minimal(root)
    {
      ghost var start := root;
      TrieOps.RemoveWordWords(start, s);
      TrieOps.RemoveCascadeWords(start, s);
      if all && s != [] && Minimal(start) && !TrieOps.EmptiedInPlace(start, s) {
        TrieOps.RemoveCascadeMinimal(start, s);
      }
      var currentObj := GetObject(s);
      if currentObj.None? {
        return TrieOps.Returned(false);
      }
      var node := currentObj.value;
      var stored := HasWord(s);
      if !stored && !all && node.terminal != Some(s) {
        return TrieOps.Returned(false);
      }
      // delete currentObj[endString] when it holds s
      if node.terminal.Some? && node.terminal.value != [] && node.terminal.value == s {
        node := node.(terminal := None);
        root := TrieOps.SetAt(root, s, node);
      } else {
        TrieOps.SetAtSame(start, s);
      }
      TrieOps.UnmarkWord(start, s, currentObj.value);
      assert s[..|s|] == s;
      var currentParent := TrieOps.Parent(root, s, |s|);
      var storedNow := HasWord(s);
      if !storedNow && all && currentParent.None? {
        // `currentParent[string]` reads a property of undefined
        return TrieOps.TypeError;
      }
      if !storedNow && all && (TrieOps.KeyedBy(currentParent.value, s) || s in TrieOps.ObjectMembers) {
        // `delete currentParent[string]` removes an own key only: an inherited name has none
        if s !in TrieOps.ObjectMembers {
          var p := currentParent.value;
          root := TrieOps.SetAt(root, s[..|s| - 1], p.(children := p.children - {s[0]}));
        }
        return TrieOps.Returned(true);
      } else if !all {
        return TrieOps.Returned(false);
      }
      // hasChildrenObjects(currentObj): some own key holds an object, that is, an edge
      if node.children != map[] {
        node := Empty;  // every own key of currentObj is deleted
        root := TrieOps.SetAt(root, s, node);
        var parentKeys := ChildrenLength(currentParent.value);
        if parentKeys == 1 && s[|s| - 1] in currentParent.value.children {
          return TrieOps.Returned(true);
        }
      }
      Prune(s);
      return TrieOps.Returned(true);
    }

    /**
     * remove(a, all) (trie.js:110-119): each item of a batch is removed with the default
     * `all` (false) and the result is true; anything but a string or a batch is refused.
     */
    method Remove(a: Arg, all: bool) returns (res: TrieOps.Outcome)
      requires Valid()
      modifies this
      ensures Valid()
      ensures a.Str? ==> TrieOps.Remove(old(root), a.s, all) == TrieOps.Removal(res, root)
      ensures a.Items? ==> res == TrieOps.Returned(true) && Contents() == old(Contents()) - (set w | w in a.items)
      ensures a.Undefined? || a.Other? ==> res == TrieOps.Returned(false) && root == old(root)
    {
      match a
      case Items(items) =>
        for i := 0 to |items|
          invariant Valid()
          invariant Contents() == old(Contents()) - (set w | w in items[..i])
        {
          var _ := RemoveWord(items[i], false);
          assert items[..i + 1] == items[..i] + [items[i]];
        }
        assert items[..|items|] == items;
        res := TrieOps.Returned(true);
      case Str(s) =>
        res := RemoveWord(s, all);
      case _ =>
        res := TrieOps.Returned(false);
    }
  }
}
