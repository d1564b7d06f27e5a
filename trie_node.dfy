/**
 * The objects the prefix tree is made of, and the pure functions that read them.
 *
 * In trie.js a node is a plain object whose keys are single characters (one per child
 * edge) plus the reserved key "|", under which the word ending at that node is stored.
 * Here the word has a field of its own, so a word can never be mistaken for an edge.
 */
module TrieNode {

  datatype Option<T> = None | Some(value: T)

  /** One node: its child edges, keyed by character, and the word that ends here, if any. */
  datatype Node = Node(children: map<char, Node>, terminal: Option<string>)

  /** The fresh object `{}` that insert hangs under a missing edge. */
  const Empty: Node := Node(map[], None)

  /**
   * The number of own keys of the node's object (childrenLength): one per child edge,
   * plus one for the sentinel key while a word ends here.
   */
  function KeyCount(n: Node): (k: nat)
    ensures k == 0 <==> n == Empty
  {
    |n.children| + (if n.terminal.Some? then 1 else 0)
  }

  /**
   * The node reached from n by following the characters of s one edge at a time,
   * or None as soon as an edge is missing.
   */
  function Lookup(n: Node, s: string): Option<Node>
    decreases |s|
  {
    if s == [] then Some(n)
    else if s[0] in n.children then Lookup(n.children[s[0]], s[1..])
    else None
  }

  /** The word recorded at the end of path q below n, if the path exists and a word ends there. */
  function TermAt(n: Node, q: string): Option<string>
  {
    match Lookup(n, q)
    case None => None
    case Some(m) => m.terminal
  }

  /** The word recorded at n itself, if any. */
  function Own(n: Node): set<string>
  {
    if n.terminal.Some? then {n.terminal.value} else {}
  }

  /** Every word recorded anywhere in the subtree of n. */
  ghost function Words(n: Node): set<string>
    decreases n
  {
    Own(n) + (set c, w | c in n.children && w in Words(n.children[c]) :: w)
  }

  /** Every word recorded below n is p followed by the path that leads to it. */
  ghost predicate Anchored(n: Node, p: string)
  {
    forall q :: TermAt(n, q).Some? ==> TermAt(n, q) == Some(p + q)
  }

  /**
   * The invariant the engine keeps: a word is recorded only at the end of its own
   * path, and never at the root (insert("") records nothing).
   */
  ghost predicate WellFormed(root: Node)
  {
    forall q :: TermAt(root, q).Some? ==> q != [] && TermAt(root, q) == Some(q)
  }

  /** No node other than the root is an empty object. */
  ghost predicate Minimal(root: Node)
  {
    forall q :: q != [] && Lookup(root, q).Some? ==> Lookup(root, q).value != Empty
  }

  /** Following s and then t is following s + t. */
  lemma {:induction false} LookupAppend(n: Node, s: string, t: string)
    ensures Lookup(n, s + t) == (match Lookup(n, s) case None => None case Some(m) => Lookup(m, t))
    decreases |s|
  {
    if s == [] {
      assert s + t == t;
    } else {
      assert (s + t)[0] == s[0] && (s + t)[1..] == s[1..] + t;
      if s[0] in n.children {
        LookupAppend(n.children[s[0]], s[1..], t);
      }
    }
  }

  /** The walk fails as soon as one edge of s is missing: nothing after it is looked at. */
  lemma LookupMissingEdge(n: Node, s: string, i: nat)
    requires i < |s| && Lookup(n, s[..i]).Some?
    requires s[i] !in Lookup(n, s[..i]).value.children
    ensures Lookup(n, s) == None
  {
    assert s == s[..i] + s[i..];
    LookupAppend(n, s[..i], s[i..]);
  }

  /** A path exists only if each of its prefixes does. */
  lemma LookupPrefix(n: Node, s: string, i: nat)
    requires i <= |s| && Lookup(n, s).Some?
    ensures Lookup(n, s[..i]).Some?
    ensures Lookup(n, s) == Lookup(Lookup(n, s[..i]).value, s[i..])
  {
    assert s == s[..i] + s[i..];
    LookupAppend(n, s[..i], s[i..]);
  }

  /** One step further down: the path s + [c] ends at the child c of the node at s. */
  lemma LookupStep(n: Node, s: string, c: char)
    requires Lookup(n, s).Some?
    ensures Lookup(n, s + [c]) ==
            (if c in Lookup(n, s).value.children then Some(Lookup(n, s).value.children[c]) else None)
  {
    LookupAppend(n, s, [c]);
    assert [c][1..] == [];
  }

  /** Below the node itself, the paths of a node do not depend on the word it records. */
  lemma LookupBelow(n: Node, t: Option<string>, q: string)
    requires q != []
    ensures Lookup(n.(terminal := t), q) == Lookup(n, q)
  {
  }

  /** The words under n are exactly the words recorded at the ends of n's paths. */
  lemma {:induction false} WordsAtPaths(n: Node, w: string)
    ensures w in Words(n) <==> exists q :: TermAt(n, q) == Some(w)
    decreases n
  {
    if w in Words(n) {
      if n.terminal == Some(w) {
        assert TermAt(n, []) == Some(w);
      } else {
        var c :| c in n.children && w in Words(n.children[c]);
        WordsAtPaths(n.children[c], w);
        var q :| TermAt(n.children[c], q) == Some(w);
        assert ([c] + q)[0] == c && ([c] + q)[1..] == q;
        assert TermAt(n, [c] + q) == Some(w);
      }
    }
    if exists q :: TermAt(n, q) == Some(w) {
      var q :| TermAt(n, q) == Some(w);
      if q != [] {
        var c := q[0];
        assert TermAt(n.children[c], q[1..]) == Some(w);
        WordsAtPaths(n.children[c], w);
      }
    }
  }

  /** Below an anchored node, a word is recorded iff it extends the anchor and sits at the rest of its path. */
  lemma AnchoredWords(n: Node, p: string, w: string)
    requires Anchored(n, p)
    ensures w in Words(n) <==> p <= w && TermAt(n, w[|p|..]) == Some(w)
  {
    WordsAtPaths(n, w);
    if w in Words(n) {
      var q :| TermAt(n, q) == Some(w);
      assert w == p + q;
      assert w[|p|..] == q;
    }
    if p <= w && TermAt(n, w[|p|..]) == Some(w) {
      assert TermAt(n, w[|p|..]) == Some(w);
    }
  }

  /** The child under c of a node anchored at p is anchored at p + [c]. */
  lemma AnchoredChild(n: Node, p: string, c: char)
    requires Anchored(n, p) && c in n.children
    ensures Anchored(n.children[c], p + [c])
  {
    forall q | TermAt(n.children[c], q).Some?
      ensures TermAt(n.children[c], q) == Some(p + [c] + q)
    {
      assert ([c] + q)[0] == c && ([c] + q)[1..] == q;
      assert TermAt(n, [c] + q) == TermAt(n.children[c], q);
      assert p + ([c] + q) == p + [c] + q;
    }
  }

  /** In a well-formed tree a word is stored exactly when it is recorded at the end of its own path. */
  lemma StoredAtOwnPath(root: Node, w: string)
    requires WellFormed(root)
    ensures Anchored(root, [])
    ensures w in Words(root) <==> w != [] && TermAt(root, w) == Some(w)
  {
    forall q | TermAt(root, q).Some?
      ensures TermAt(root, q) == Some([] + q)
    {
      assert [] + q == q;
    }
    AnchoredWords(root, [], w);
    assert w[0..] == w;
  }

  /** The node at the end of p holds exactly the stored words that have p as a prefix. */
  lemma SubtreeWords(root: Node, p: string)
    requires WellFormed(root)
    ensures Lookup(root, p).Some? ==> Anchored(Lookup(root, p).value, p)
    ensures Lookup(root, p).Some? ==>
              Words(Lookup(root, p).value) == set w | w in Words(root) && p <= w
    ensures Lookup(root, p).None? ==> forall w :: w in Words(root) ==> !(p <= w)
  {
    match Lookup(root, p)
    case Some(m) =>
      forall q | TermAt(m, q).Some?
        ensures TermAt(m, q) == Some(p + q)
      {
        LookupAppend(root, p, q);
      }
      forall w
        ensures w in Words(m) <==> w in Words(root) && p <= w
      {
        AnchoredWords(m, p, w);
        StoredAtOwnPath(root, w);
        if p <= w {
          assert w == p + w[|p|..];
          LookupAppend(root, p, w[|p|..]);
        }
      }
    case None =>
      forall w | w in Words(root)
        ensures !(p <= w)
      {
        StoredAtOwnPath(root, w);
        if p <= w {
          assert w[..|p|] == p;
          LookupPrefix(root, w, |p|);
        }
      }
  }
}
