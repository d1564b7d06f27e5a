/**
 * What insert and remove do to the tree, as functions from the old root to the new one,
 * and the facts about stored words, well-formedness and minimality that follow.
 * The engine's methods (module TrieEngine) are proved equal to these functions.
 */
module TrieOps {
  import opened TrieNode

  /** The child under c, or the fresh object insert hangs there when the edge is missing. */
  function Child(n: Node, c: char): Node
  {
    if c in n.children then n.children[c] else Empty
  }

  /**
   * What insert does below n for the characters `rest` still to be walked of `word`
   * (trie.js:84-103): each missing edge gets a fresh object, and on the last character
   * the word is recorded in the child. No character to walk changes nothing, which is
   * why insert("") records no word.
   */
  function Put(n: Node, rest: string, word: string): (r: Node)
    ensures n.children.Keys <= r.children.Keys
    ensures rest != [] ==> rest[0] in r.children
    ensures r.terminal == n.terminal
    decreases |rest|
  {
    if rest == [] then n
    else
      var child := Child(n, rest[0]);
      var child' := if |rest| == 1 then child.(terminal := Some(word)) else Put(child, rest[1..], word);
      n.(children := n.children[rest[0] := child'])
  }

  /**
   * The tree n with the node at path s replaced by x. Every write the source makes through
   * a reference to an inner object (`currentObj[char] = {}`, `delete currentParent[char]`)
   * shows in the whole tree as such a replacement.
   */
  function SetAt(n: Node, s: string, x: Node): (r: Node)
    requires Lookup(n, s).Some?
    ensures Lookup(r, s) == Some(x)
    ensures s != [] ==> r.children.Keys == n.children.Keys && r.terminal == n.terminal
    decreases |s|
  {
    if s == [] then x
    else n.(children := n.children[s[0] := SetAt(n.children[s[0]], s[1..], x)])
  }

  /**
   * The pruning walk of cascade removal (trie.js:145-155): the node at s is detached from
   * its parent; while that leaves the parent without any key, the parent is detached
   * from its own parent in turn. The root is never detached.
   */
  function Cut(n: Node, s: string): (r: Node)
    requires s != [] && Lookup(n, s).Some?
    ensures r.children.Keys <= n.children.Keys
    ensures |s| == 1 ==> r.children.Keys == n.children.Keys - {s[0]}
    ensures r.terminal == n.terminal
    decreases |s|
  {
    var c := s[0];
    if |s| == 1 then n.(children := n.children - {c})
    else
      var below := Cut(n.children[c], s[1..]);
      if KeyCount(below) == 0 then n.(children := n.children - {c})
      else n.(children := n.children[c := below])
  }

  /**
   * parent(obj, string, root) (trie.js:218-236) for the node obj at depth `depth` of the
   * path of s: the node one edge above it, whose edge s[depth - 1] leads to obj.
   * The root has no parent: None stands for the source's undefined.
   */
  function Parent(root: Node, s: string, depth: nat): (p: Option<Node>)
    requires depth <= |s|
    ensures depth == 0 ==> p == None
    ensures depth > 0 && Lookup(root, s[..depth]).Some? ==>
              p.Some? && s[depth - 1] in p.value.children &&
              Lookup(root, s[..depth]) == Some(p.value.children[s[depth - 1]])
  {
    if depth == 0 then None
    else
      if Lookup(root, s[..depth]).Some? then
        LookupPrefix(root, s[..depth], depth - 1);
        assert s[..depth][..depth - 1] == s[..depth - 1];
        assert s[..depth] == s[..depth - 1] + [s[depth - 1]];
        LookupStep(root, s[..depth - 1], s[depth - 1]);
        Lookup(root, s[..depth - 1])
      else
        Lookup(root, s[..depth - 1])
  }

  /**
   * has(s) on a string (trie.js:174-178): the path of s exists and the value under the
   * sentinel key at its end is truthy (a non-empty string) and equal to s.
   */
  function Has(root: Node, s: string): (b: bool)
    ensures b ==> s != [] && TermAt(root, s) == Some(s)
    ensures s == [] ==> !b
  {
    match Lookup(root, s)
    case None => false
    case Some(m) => m.terminal == Some(s) && s != []
  }

  /** How remove ended: with a boolean result, or by throwing a TypeError. */
  datatype Outcome = Returned(ok: bool) | TypeError

  datatype Removal = Removal(outcome: Outcome, tree: Node)

  /**
   * `currentParent[string]` names an own key of the parent: its own keys are single
   * characters, so only a one-character string can name one of its edges.
   */
  predicate KeyedBy(p: Node, s: string)
  {
    |s| == 1 && s[0] in p.children
  }

  /**
   * The names every plain object inherits from Object.prototype. Reading one of them off a
   * node (`currentParent[string]`) gives a truthy value although the node has no such key,
   * and deleting it removes nothing.
   */
  const ObjectMembers: set<string> := {
    "constructor", "hasOwnProperty", "isPrototypeOf", "propertyIsEnumerable",
    "toLocaleString", "toString", "valueOf", "__proto__",
    "__defineGetter__", "__defineSetter__", "__lookupGetter__", "__lookupSetter__"
  }

  /**
   * remove(s, all) on a string (trie.js:119-157), branch by branch:
   * - the path of s is absent: false, nothing changes;
   * - s is not a stored word and all is false: false, nothing changes;
   * - otherwise the word s, when recorded at its node, is unmarked first; then
   *   - all is false: false is returned and nothing is pruned;
   *   - the parent is undefined (s is ""): reading `currentParent[string]` throws;
   *   - s names an inherited member of every object: the delete removes nothing, true;
   *   - s is one character: its edge is deleted from the root, true;
   *   - the node still has children: it is emptied; if it is the parent's only key the
   *     emptied node stays in place, true; otherwise the pruning walk runs, true;
   *   - the node has no children: the pruning walk runs, true.
   */
  function Remove(root: Node, s: string, all: bool): (r: Removal)
    ensures Lookup(root, s).None? ==> r == Removal(Returned(false), root)
    ensures !all ==> r.outcome == Returned(false)
    ensures r.outcome == TypeError <==> all && s == []
    ensures r.outcome == Returned(true) <==> all && s != [] && Lookup(root, s).Some?
  {
    match Lookup(root, s)
    case None => Removal(Returned(false), root)
    case Some(m) =>
      if !Has(root, s) && !all && m.terminal != Some(s) then Removal(Returned(false), root)
      else
        var m1 := if m.terminal == Some(s) && s != [] then m.(terminal := None) else m;
        var r1 := SetAt(root, s, m1);
        assert s[..|s|] == s;
        if !all then Removal(Returned(false), r1)
        else if !Has(r1, s) && Parent(r1, s, |s|).None? then Removal(TypeError, r1)
        else
          var p := Parent(r1, s, |s|).value;
          if !Has(r1, s) && s in ObjectMembers then
            Removal(Returned(true), r1)
          else if !Has(r1, s) && KeyedBy(p, s) then
            Removal(Returned(true), SetAt(r1, s[..|s| - 1], p.(children := p.children - {s[0]})))
          else if m1.children != map[] then
            var r2 := SetAt(r1, s, Empty);
            if KeyCount(p) == 1 && s[|s| - 1] in p.children then Removal(Returned(true), r2)
            else Removal(Returned(true), Cut(r2, s))
          else
            Removal(Returned(true), Cut(r1, s))
  }

  /**
   * The cascade removal of s leaves an empty node at s: for an inherited name whose node has
   * no children it returns at trie.js:133 after unmarking s; otherwise, when the node has
   * children and is its parent's only key, it empties the node and returns at trie.js:141.
   */
  predicate EmptiedInPlace(root: Node, s: string)
  {
    |s| >= 2 && Lookup(root, s).Some? &&
    if s in ObjectMembers then Lookup(root, s).value.children == map[]
    else
      Lookup(root, s).value.children != map[] &&
      Lookup(root, s[..|s| - 1]).Some? && KeyCount(Lookup(root, s[..|s| - 1]).value) == 1
  }

  // ---------------------------------------------------------------------------------
  // insert

  /** Insert records `word` at the end of `rest` and changes no other recorded word. */
  lemma {:induction false} PutTermAt(n: Node, rest: string, word: string, q: string)
    ensures TermAt(Put(n, rest, word), q) == if q == rest && rest != [] then Some(word) else TermAt(n, q)
    decreases |rest|
  {
    if rest != [] && q != [] && q[0] == rest[0] {
      var c := rest[0];
      var child := Child(n, c);
      assert TermAt(n, q) == TermAt(child, q[1..]);
      if |rest| == 1 {
        if q[1..] != [] {
          LookupBelow(child, Some(word), q[1..]);
        } else {
          assert q == [c] == rest;
          assert Lookup(Put(n, rest, word), q) == Lookup(child.(terminal := Some(word)), []);
        }
      } else {
        PutTermAt(child, rest[1..], word, q[1..]);
        assert q == rest <==> q[1..] == rest[1..] by {
          if q[1..] == rest[1..] { assert q == [c] + q[1..] && rest == [c] + rest[1..]; }
        }
      }
    }
  }

  /** Insert only adds edges: every path that existed still exists, and the path of the word now does too. */
  lemma {:induction false} PutKeepsPaths(n: Node, rest: string, word: string, q: string)
    ensures Lookup(Put(n, rest, word), q).Some? <==> Lookup(n, q).Some? || q <= rest
    decreases |rest|
  {
    if rest != [] && q != [] {
      var c := rest[0];
      var child := Child(n, c);
      if q[0] == c {
        assert q <= rest <==> q[1..] <= rest[1..];
        if |rest| == 1 {
          if q[1..] != [] { LookupBelow(child, Some(word), q[1..]); }
        } else {
          PutKeepsPaths(child, rest[1..], word, q[1..]);
        }
      }
    }
  }

  /** Inserting the same word twice builds the same tree as inserting it once. */
  lemma {:induction false} PutIdempotent(n: Node, rest: string, word: string)
    ensures Put(Put(n, rest, word), rest, word) == Put(n, rest, word)
    decreases |rest|
  {
    if rest != [] {
      var c := rest[0];
      var once := Put(n, rest, word);
      if |rest| > 1 {
        PutIdempotent(Child(n, c), rest[1..], word);
      }
      assert Child(once, c) == once.children[c];
      assert once.children[c := once.children[c]] == once.children;
    }
  }

  /** insert(s) keeps the tree well-formed and adds exactly the word s, unless s is "". */
  lemma InsertWords(root: Node, s: string)
    requires WellFormed(root)
    ensures WellFormed(Put(root, s, s))
    ensures Words(Put(root, s, s)) == Words(root) + (if s == [] then {} else {s})
  {
    var r := Put(root, s, s);
    forall q | TermAt(r, q).Some?
      ensures q != [] && TermAt(r, q) == Some(q)
    {
      PutTermAt(root, s, s, q);
    }
    forall w
      ensures w in Words(r) <==> w in Words(root) || (w == s && s != [])
    {
      StoredAtOwnPath(r, w);
      StoredAtOwnPath(root, w);
      PutTermAt(root, s, s, w);
    }
  }

  /** A subtree of a tree without empty nodes has none either. */
  lemma MinimalChild(n: Node, c: char)
    requires Minimal(n) && c in n.children
    ensures Minimal(n.children[c])
  {
    forall q | q != [] && Lookup(n.children[c], q).Some?
      ensures Lookup(n.children[c], q).value != Empty
    {
      assert ([c] + q)[0] == c && ([c] + q)[1..] == q;
      assert Lookup(n, [c] + q) == Lookup(n.children[c], q);
    }
  }

  /** Insert never leaves an empty node: every node it creates lies above the word or holds it. */
  lemma {:induction false} PutMinimal(n: Node, rest: string, word: string)
    requires Minimal(n)
    ensures Minimal(Put(n, rest, word))
    decreases |rest|
  {
    if rest != [] {
      var c := rest[0];
      var child := Child(n, c);
      if c in n.children { MinimalChild(n, c); }
      var child' := if |rest| == 1 then child.(terminal := Some(word)) else Put(child, rest[1..], word);
      if |rest| > 1 {
        PutMinimal(child, rest[1..], word);
        assert rest[1] in child'.children;
      }
      var r := Put(n, rest, word);
      forall q | q != [] && Lookup(r, q).Some?
        ensures Lookup(r, q).value != Empty
      {
        if q[0] == c {
          assert Lookup(r, q) == Lookup(child', q[1..]);
          if q[1..] != [] && |rest| == 1 {
            assert Lookup(child', q[1..]) == Lookup(child, q[1..]);
          }
        } else {
          assert Lookup(r, q) == Lookup(n, q);
        }
      }
    }
  }

  // ---------------------------------------------------------------------------------
  // writes through a reference, and the pruning walk

  /** Replacing the node at s changes the recorded words at and below s only. */
  lemma {:induction false} SetAtTermAt(n: Node, s: string, x: Node, q: string)
    requires Lookup(n, s).Some?
    ensures TermAt(SetAt(n, s, x), q) == if s <= q then TermAt(x, q[|s|..]) else TermAt(n, q)
    decreases |s|
  {
    if s != [] && q != [] && q[0] == s[0] {
      SetAtTermAt(n.children[s[0]], s[1..], x, q[1..]);
      assert s <= q <==> s[1..] <= q[1..];
      if s <= q {
        assert q[|s|..] == q[1..][|s| - 1..];
      }
    }
  }

  /** Writing a child of the node at p is writing the node at p with that child replaced. */
  lemma {:induction false} SetAtChild(n: Node, p: string, x: Node, c: char, y: Node)
    requires Lookup(n, p).Some? && c in x.children
    requires Lookup(SetAt(n, p, x), p + [c]).Some?
    ensures SetAt(SetAt(n, p, x), p + [c], y) == SetAt(n, p, x.(children := x.children[c := y]))
    decreases |p|
  {
    if p == [] {
      assert [] + [c] == [c];
    } else {
      var d := p[0];
      assert (p + [c])[0] == d && (p + [c])[1..] == p[1..] + [c];
      var inner := SetAt(n.children[d], p[1..], x);
      LookupStep(inner, p[1..], c);
      SetAtChild(n.children[d], p[1..], x, c, y);
    }
  }

  /**
   * One iteration of insert's walk, at the node cur of path p with `rest` still to walk:
   * hanging the child (a fresh object when the edge is missing) and then writing the rest
   * of the word below it builds the same tree as Put does from cur.
   */
  lemma PutDescend(t: Node, p: string, cur: Node, rest: string, word: string)
    requires Lookup(t, p) == Some(cur) && rest != []
    ensures var c := rest[0];
            var cur1 := cur.(children := cur.children[c := Child(cur, c)]);
            var t1 := SetAt(t, p, cur1);
            && (c in cur.children ==> t1 == t)
            && Lookup(t1, p + [c]) == Some(Child(cur, c))
            && (|rest| == 1 ==>
                  SetAt(t1, p + [c], Child(cur, c).(terminal := Some(word))) == SetAt(t, p, Put(cur, rest, word)))
            && (|rest| > 1 ==>
                  SetAt(t1, p + [c], Put(Child(cur, c), rest[1..], word)) == SetAt(t, p, Put(cur, rest, word)))
  {
    var c := rest[0];
    var cur1 := cur.(children := cur.children[c := Child(cur, c)]);
    if c in cur.children {
      assert cur.children[c := cur.children[c]] == cur.children;
      SetAtSame(t, p);
    }
    LookupStep(SetAt(t, p, cur1), p, c);
    var child' := if |rest| == 1 then Child(cur, c).(terminal := Some(word)) else Put(Child(cur, c), rest[1..], word);
    SetAtChild(t, p, cur1, c, child');
    assert cur1.children[c := child'] == cur.children[c := child'];
  }

  /** Writing back the node that is already at p changes nothing. */
  lemma {:induction false} SetAtSame(n: Node, p: string)
    requires Lookup(n, p).Some?
    ensures SetAt(n, p, Lookup(n, p).value) == n
    decreases |p|
  {
    if p != [] {
      SetAtSame(n.children[p[0]], p[1..]);
      assert n.children[p[0] := n.children[p[0]]] == n.children;
    }
  }

  /** The pruning walk takes away every word recorded at or below s and no other. */
  lemma {:induction false} CutTermAt(n: Node, s: string, q: string)
    requires s != [] && Lookup(n, s).Some?
    ensures TermAt(Cut(n, s), q) == if s <= q then None else TermAt(n, q)
    decreases |s|
  {
    var c := s[0];
    if q != [] && q[0] == c && |s| > 1 {
      CutTermAt(n.children[c], s[1..], q[1..]);
      assert s <= q <==> s[1..] <= q[1..];
    }
  }

  /** What the pruning walk does to the node at s does not depend on what that node holds. */
  lemma {:induction false} CutIgnoresTarget(n: Node, s: string, x: Node)
    requires s != [] && Lookup(n, s).Some?
    ensures Cut(SetAt(n, s, x), s) == Cut(n, s)
    decreases |s|
  {
    var c := s[0];
    if |s| > 1 {
      CutIgnoresTarget(n.children[c], s[1..], x);
    } else {
      assert n.children[c := x] - {c} == n.children - {c};
    }
  }

  /**
   * One step of the pruning loop, seen from the top: detaching the last edge of t from
   * its parent p either ends the walk (p keeps a key, or p is the root) or leaves p
   * empty, and then the walk goes on exactly as if t had stopped one character earlier.
   */
  lemma {:induction false} CutStep(n: Node, t: string)
    requires |t| >= 1 && Lookup(n, t).Some?
    ensures Lookup(n, t[..|t| - 1]).Some?
    ensures var p := Lookup(n, t[..|t| - 1]).value;
            var p' := p.(children := p.children - {t[|t| - 1]});
            if KeyCount(p') >= 1 || |t| == 1 then Cut(n, t) == SetAt(n, t[..|t| - 1], p')
            else Cut(n, t) == Cut(n, t[..|t| - 1])
    decreases |t|
  {
    LookupPrefix(n, t, |t| - 1);
    if |t| > 1 {
      var c := t[0];
      var child := n.children[c];
      var u := t[1..];
      assert t[..|t| - 1] == [c] + u[..|u| - 1];
      assert ([c] + u[..|u| - 1])[1..] == u[..|u| - 1];
      CutStep(child, u);
      assert Lookup(n, t[..|t| - 1]) == Lookup(child, u[..|u| - 1]);
    }
  }

  /**
   * One iteration of the pruning loop at index i of s, as the loop sees it: parent gives the
   * node at s[..i]; deleting the edge s[i] from it either completes the walk (it keeps a key,
   * or it is the root) or leaves a tree on which the walk continues from s[..i].
   */
  lemma PruneStep(n: Node, s: string, i: nat)
    requires i < |s| && Lookup(n, s[..i + 1]).Some?
    ensures Lookup(n, s[..i]).Some? && Parent(n, s, i + 1) == Lookup(n, s[..i])
    ensures s[i] in Lookup(n, s[..i]).value.children
    ensures var p := Lookup(n, s[..i]).value;
            var d := p.(children := p.children - {s[i]});
            if KeyCount(d) >= 1 || i == 0 then Cut(n, s[..i + 1]) == SetAt(n, s[..i], d)
            else Lookup(SetAt(n, s[..i], d), s[..i]).Some? && Cut(SetAt(n, s[..i], d), s[..i]) == Cut(n, s[..i + 1])
  {
    assert s[..i + 1][..i] == s[..i];
    CutStep(n, s[..i + 1]);
    var p := Lookup(n, s[..i]).value;
    var d := p.(children := p.children - {s[i]});
    if i > 0 {
      CutIgnoresTarget(n, s[..i], d);
    }
  }

  /** The pruning walk leaves no empty node behind in a tree that had none. */
  lemma {:induction false} CutMinimal(n: Node, s: string)
    requires s != [] && Lookup(n, s).Some? && Minimal(n)
    ensures Minimal(Cut(n, s))
    decreases |s|
  {
    var c := s[0];
    var r := Cut(n, s);
    if |s| > 1 {
      MinimalChild(n, c);
      CutMinimal(n.children[c], s[1..]);
    }
    forall q | q != [] && Lookup(r, q).Some?
      ensures Lookup(r, q).value != Empty
    {
      if q[0] != c {
        assert Lookup(r, q) == Lookup(n, q);
      } else {
        var below := Cut(n.children[c], s[1..]);
        assert Lookup(r, q) == Lookup(below, q[1..]);
      }
    }
  }

  /** Some node on the path of s at a depth in [lo, |s|) has a key besides the edge the walk takes. */
  ghost predicate Branches(n: Node, s: string, lo: nat)
  {
    exists j :: lo <= j < |s| && Lookup(n, s[..j]).Some? && KeyCount(Lookup(n, s[..j]).value) >= 2
  }

  /** Seen from the child under s[0], the depths along s shift by one. */
  lemma BranchesShift(n: Node, s: string, lo: nat)
    requires |s| >= 1 && s[0] in n.children && lo >= 1
    ensures Branches(n, s, lo) <==> Branches(n.children[s[0]], s[1..], lo - 1)
  {
    var child := n.children[s[0]];
    if Branches(n, s, lo) {
      var j :| lo <= j < |s| && Lookup(n, s[..j]).Some? && KeyCount(Lookup(n, s[..j]).value) >= 2;
      assert s[..j][0] == s[0] && s[..j][1..] == s[1..][..j - 1];
      assert Lookup(child, s[1..][..j - 1]) == Lookup(n, s[..j]);
    }
    if Branches(child, s[1..], lo - 1) {
      var j :| lo - 1 <= j < |s| - 1 && Lookup(child, s[1..][..j]).Some? &&
               KeyCount(Lookup(child, s[1..][..j]).value) >= 2;
      assert s[..j + 1][0] == s[0] && s[..j + 1][1..] == s[1..][..j];
      assert Lookup(n, s[..j + 1]) == Lookup(child, s[1..][..j]);
    }
  }

  /** Depth 0 of the path is the node itself. */
  lemma BranchesHead(n: Node, s: string)
    ensures Branches(n, s, 0) <==> (|s| >= 1 && KeyCount(n) >= 2) || Branches(n, s, 1)
  {
    assert s[..0] == [];
  }

  /** The walk started at n empties n itself exactly when no node on the path branches off. */
  lemma {:induction false} CutEmpties(n: Node, s: string)
    requires s != [] && Lookup(n, s).Some?
    ensures KeyCount(Cut(n, s)) == 0 <==> !Branches(n, s, 0)
    decreases |s|
  {
    var c := s[0];
    BranchesHead(n, s);
    if |s| > 1 {
      CutEmpties(n.children[c], s[1..]);
      BranchesShift(n, s, 1);
    }
  }

  /**
   * Where the pruning walk stops: the node at depth k + 1 of the path of s is still there
   * after the walk exactly when some node at that depth or below (above the target itself)
   * keeps a key besides the edge the walk deletes. So every emptied ancestor is detached,
   * and the walk ends at the first ancestor with another key.
   */
  lemma {:induction false} CutSurvivors(n: Node, s: string, k: nat)
    requires Lookup(n, s).Some? && k < |s|
    ensures Lookup(Cut(n, s), s[..k + 1]).Some? <==> Branches(n, s, k + 1)
    decreases |s|
  {
    var c := s[0];
    var child := n.children[c];
    assert s[..k + 1][0] == c && s[..k + 1][1..] == s[1..][..k];
    if |s| == 1 {
      assert !Branches(n, s, k + 1);
    } else {
      BranchesShift(n, s, k + 1);
      var below := Cut(child, s[1..]);
      CutEmpties(child, s[1..]);
      if k == 0 {
        assert s[1..][..0] == [];
      } else {
        CutSurvivors(child, s[1..], k - 1);
      }
    }
  }

  // ---------------------------------------------------------------------------------
  // has and remove

  /** has is exact membership: true iff s is a stored word; never true for "". */
  lemma HasIsMembership(root: Node, s: string)
    requires WellFormed(root)
    ensures Has(root, s) <==> s in Words(root)
    ensures !Has(root, [])
  {
    StoredAtOwnPath(root, s);
  }

  /** The new tree records exactly the old words that do not extend s. */
  lemma DropsPrefix(root: Node, t: Node, s: string)
    requires WellFormed(root)
    requires forall q :: TermAt(t, q) == if s <= q then None else TermAt(root, q)
    ensures WellFormed(t)
    ensures Words(t) == Words(root) - (set w | w in Words(root) && s <= w)
  {
    forall w
      ensures w in Words(t) <==> w in Words(root) && !(s <= w)
    {
      StoredAtOwnPath(root, w);
      StoredAtOwnPath(t, w);
    }
  }

  /** Unmarking the node of s: the word s is gone, every other word stays. */
  lemma UnmarkWord(root: Node, s: string, m: Node)
    requires WellFormed(root) && Lookup(root, s) == Some(m)
    ensures var t := SetAt(root, s, if m.terminal == Some(s) && s != [] then m.(terminal := None) else m);
            && (forall q :: TermAt(t, q) == if q == s then None else TermAt(root, q))
            && WellFormed(t) && Words(t) == Words(root) - {s}
  {
    var m1 := if m.terminal == Some(s) && s != [] then m.(terminal := None) else m;
    var t := SetAt(root, s, m1);
    forall q
      ensures TermAt(t, q) == if q == s then None else TermAt(root, q)
    {
      UnmarkTermAt(root, s, m, q);
    }
    forall w
      ensures w in Words(t) <==> w in Words(root) && w != s
    {
      StoredAtOwnPath(root, w);
      StoredAtOwnPath(t, w);
    }
  }

  /** Unmarking the node of s changes what is recorded at s and nowhere else. */
  lemma UnmarkTermAt(root: Node, s: string, m: Node, q: string)
    requires WellFormed(root) && Lookup(root, s) == Some(m)
    ensures TermAt(SetAt(root, s, if m.terminal == Some(s) && s != [] then m.(terminal := None) else m), q) ==
            if q == s then None else TermAt(root, q)
  {
    var m1 := if m.terminal == Some(s) && s != [] then m.(terminal := None) else m;
    SetAtTermAt(root, s, m1, q);
    if s <= q {
      assert q == s + q[|s|..];
      LookupAppend(root, s, q[|s|..]);
      if q[|s|..] != [] {
        assert Lookup(m1, q[|s|..]) == Lookup(m, q[|s|..]);
      } else {
        assert q == s;
        StoredAtOwnPath(root, s);
      }
    }
  }

  /**
   * remove(s) without cascade: the result is always false; the word s is no longer stored
   * and every other word still is; when s was not stored, nothing changes at all.
   */
  lemma RemoveWordWords(root: Node, s: string)
    requires WellFormed(root)
    ensures Remove(root, s, false).outcome == Returned(false)
    ensures WellFormed(Remove(root, s, false).tree)
    ensures Words(Remove(root, s, false).tree) == Words(root) - {s}
    ensures s !in Words(root) ==> Remove(root, s, false).tree == root
  {
    HasIsMembership(root, s);
    match Lookup(root, s)
    case None =>
      StoredAtOwnPath(root, s);
    case Some(m) =>
      StoredAtOwnPath(root, s);
      if !Has(root, s) && m.terminal != Some(s) {
      } else {
        UnmarkWord(root, s, m);
      }
  }

  /**
   * Without cascade a stored word is only unmarked: its node stays in the tree with the
   * same children, so a word that had no longer words below it leaves an empty node.
   */
  lemma RemoveWordKeepsNode(root: Node, s: string)
    requires WellFormed(root) && s in Words(root)
    ensures Lookup(root, s).Some?
    ensures Lookup(Remove(root, s, false).tree, s) == Some(Lookup(root, s).value.(terminal := None))
  {
    StoredAtOwnPath(root, s);
  }

  /**
   * The trees the cascade removal of a non-empty s can leave: the pruning walk from the
   * unmarked tree, the unmarked tree with the node at s emptied, or the walk from there.
   * The one-character branch (trie.js:130-133) is the walk's first and last step.
   */
  lemma CascadeShape(root: Node, s: string, m: Node)
    requires s != [] && Lookup(root, s) == Some(m)
    ensures var r1 := SetAt(root, s, if m.terminal == Some(s) then m.(terminal := None) else m);
            var t := Remove(root, s, true).tree;
            if s in ObjectMembers then t == r1
            else t == Cut(r1, s) || t == SetAt(r1, s, Empty) || t == Cut(SetAt(r1, s, Empty), s)
  {
    var m1 := if m.terminal == Some(s) then m.(terminal := None) else m;
    var r1 := SetAt(root, s, m1);
    assert s[..|s|] == s;
    var p := Parent(r1, s, |s|).value;
    if !Has(r1, s) && KeyedBy(p, s) {
      assert s[..|s| - 1] == [];
    }
  }

  /**
   * Every tree the cascade removal of a non-empty s can leave records no word extending s,
   * and all others; for an inherited name only s itself is unrecorded.
   */
  lemma CascadeTermAt(root: Node, s: string, m: Node)
    requires WellFormed(root) && s != [] && Lookup(root, s) == Some(m)
    ensures s !in ObjectMembers ==>
              forall q :: TermAt(Remove(root, s, true).tree, q) == if s <= q then None else TermAt(root, q)
    ensures s in ObjectMembers ==>
              forall q :: TermAt(Remove(root, s, true).tree, q) == if q == s then None else TermAt(root, q)
  {
    var m1 := if m.terminal == Some(s) then m.(terminal := None) else m;
    var r1 := SetAt(root, s, m1);
    UnmarkWord(root, s, m);
    CascadeShape(root, s, m);
    var t := Remove(root, s, true).tree;
    forall q | s !in ObjectMembers
      ensures TermAt(t, q) == if s <= q then None else TermAt(root, q)
    {
      CutTermAt(r1, s, q);
      SetAtTermAt(r1, s, Empty, q);
      assert Lookup(SetAt(r1, s, Empty), s).Some?;
      CutTermAt(SetAt(r1, s, Empty), s, q);
    }
  }

  /**
   * remove(s, true): "" throws and changes nothing; otherwise the result is whether the
   * path of s existed, and exactly the stored words having s as a prefix are removed,
   * except for a name every object inherits, where only s itself is.
   */
  lemma RemoveCascadeWords(root: Node, s: string)
    requires WellFormed(root)
    ensures s == [] ==> Remove(root, s, true) == Removal(TypeError, root)
    ensures s != [] ==> Remove(root, s, true).outcome == Returned(Lookup(root, s).Some?)
    ensures Lookup(root, s).None? ==> Remove(root, s, true).tree == root
    ensures WellFormed(Remove(root, s, true).tree)
    ensures s != [] && s !in ObjectMembers ==>
              Words(Remove(root, s, true).tree) == Words(root) - (set w | w in Words(root) && s <= w)
    ensures s in ObjectMembers ==> Words(Remove(root, s, true).tree) == Words(root) - {s}
  {
    StoredAtOwnPath(root, s);
    match Lookup(root, s)
    case None =>
      SubtreeWords(root, s);
    case Some(m) =>
      if s == [] {
        assert TermAt(root, []) == None;
      } else {
        var m1 := if m.terminal == Some(s) && s != [] then m.(terminal := None) else m;
        assert s[..|s|] == s;
        assert Parent(SetAt(root, s, m1), s, |s|).Some?;
        if s in ObjectMembers {
          RemoveInherited(root, s);
          RemoveWordWords(root, s);
        } else {
          CascadeTermAt(root, s, m);
          DropsPrefix(root, Remove(root, s, true).tree, s);
        }
      }
  }

  /**
   * For a name every object inherits, remove(s, true) takes the branch at trie.js:130-133:
   * it unmarks s exactly as remove(s) does, prunes nothing, and returns true.
   */
  lemma RemoveInherited(root: Node, s: string)
    requires s in ObjectMembers && Lookup(root, s).Some?
    ensures Remove(root, s, true) == Removal(Returned(true), Remove(root, s, false).tree)
  {
    assert s != [];
    CascadeShape(root, s, Lookup(root, s).value);
    UnmarkedTree(root, s);
  }

  /** Whenever the path of s exists, remove(s) leaves the tree with only the word at s cleared. */
  lemma UnmarkedTree(root: Node, s: string)
    requires Lookup(root, s).Some?
    ensures var m := Lookup(root, s).value;
            Remove(root, s, false).tree == SetAt(root, s, if m.terminal == Some(s) && s != [] then m.(terminal := None) else m)
  {
    SetAtSame(root, s);
  }

  /**
   * On every path but the early return at trie.js:141 (and "", which throws), cascade
   * removal leaves no empty node in a tree that had none: the pruning stops at the first
   * ancestor that keeps another key.
   */
  lemma RemoveCascadeMinimal(root: Node, s: string)
    requires WellFormed(root) && Minimal(root) && s != []
    requires !EmptiedInPlace(root, s)
    ensures Minimal(Remove(root, s, true).tree)
  {
    match Lookup(root, s)
    case None =>
    case Some(m) =>
      var m1 := if m.terminal == Some(s) && s != [] then m.(terminal := None) else m;
      var r1 := SetAt(root, s, m1);
      if s in ObjectMembers {
        CascadeShape(root, s, m);
        UnmarkMinimal(root, s, m);
        return;
      }
      assert s[..|s|] == s;
      var p := Parent(r1, s, |s|).value;
      CutIgnoresTarget(root, s, m1);
      CutMinimal(root, s);
      HasIsMembership(root, s);
      if !Has(r1, s) && KeyedBy(p, s) {
        assert s[..|s| - 1] == [];
      } else if m1.children != map[] {
        CutIgnoresTarget(r1, s, Empty);
        SetAtParent(root, s, m1);
      }
  }

  /** Unmarking a node that keeps children leaves a minimal tree minimal. */
  lemma UnmarkMinimal(root: Node, s: string, m: Node)
    requires Minimal(root) && s != [] && Lookup(root, s) == Some(m) && m.children != map[]
    ensures Minimal(SetAt(root, s, if m.terminal == Some(s) then m.(terminal := None) else m))
  {
    var m1 := if m.terminal == Some(s) then m.(terminal := None) else m;
    MinimalAt(root, s);
    forall q | q != [] && Lookup(m1, q).Some?
      ensures Lookup(m1, q).value != Empty
    {
      LookupBelow(m, None, q);
    }
    SetAtMinimal(root, s, m1);
  }

  /** Below a node of a minimal tree there is no empty node either. */
  lemma MinimalAt(root: Node, s: string)
    requires Minimal(root) && Lookup(root, s).Some?
    ensures Minimal(Lookup(root, s).value)
  {
    forall q | q != [] && Lookup(Lookup(root, s).value, q).Some?
      ensures Lookup(Lookup(root, s).value, q).value != Empty
    {
      LookupAppend(root, s, q);
    }
  }

  /** Writing a non-empty node with no empty node below it keeps a minimal tree minimal. */
  lemma {:induction false} SetAtMinimal(n: Node, s: string, x: Node)
    requires Minimal(n) && Lookup(n, s).Some? && Minimal(x) && (s != [] ==> x != Empty)
    ensures Minimal(SetAt(n, s, x))
    decreases |s|
  {
    if s != [] {
      var c := s[0];
      var child := n.children[c];
      MinimalChild(n, c);
      SetAtMinimal(child, s[1..], x);
      var below := SetAt(child, s[1..], x);
      var r := SetAt(n, s, x);
      forall q | q != [] && Lookup(r, q).Some?
        ensures Lookup(r, q).value != Empty
      {
        if q[0] != c {
          assert Lookup(r, q) == Lookup(n, q);
        } else {
          assert Lookup(r, q) == Lookup(below, q[1..]);
          if q[1..] == [] && s[1..] != [] {
            assert s[1..][0] in below.children;
          }
        }
      }
    }
  }

  /** Replacing the node at s leaves its parent with the same keys. */
  lemma SetAtParent(root: Node, s: string, x: Node)
    requires s != [] && Lookup(root, s).Some?
    ensures Lookup(root, s[..|s| - 1]).Some?
    ensures Lookup(SetAt(root, s, x), s[..|s| - 1]).Some?
    ensures KeyCount(Lookup(SetAt(root, s, x), s[..|s| - 1]).value) == KeyCount(Lookup(root, s[..|s| - 1]).value)
  {
    LookupPrefix(root, s, |s| - 1);
    LookupPrefix(SetAt(root, s, x), s, |s| - 1);
    SetAtKeys(root, s, x, |s| - 1);
  }

  /** Above the replaced node, every node on the path keeps its keys. */
  lemma {:induction false} SetAtKeys(root: Node, s: string, x: Node, k: nat)
    requires Lookup(root, s).Some? && k < |s|
    ensures Lookup(root, s[..k]).Some? && Lookup(SetAt(root, s, x), s[..k]).Some?
    ensures Lookup(SetAt(root, s, x), s[..k]).value.children.Keys == Lookup(root, s[..k]).value.children.Keys
    ensures Lookup(SetAt(root, s, x), s[..k]).value.terminal == Lookup(root, s[..k]).value.terminal
    decreases k
  {
    LookupPrefix(root, s, k);
    LookupPrefix(SetAt(root, s, x), s, k);
    if k > 0 {
      var c := s[0];
      SetAtKeys(root.children[c], s[1..], x, k - 1);
      assert s[..k][1..] == s[1..][..k - 1];
    }
  }

  /** The early return at trie.js:141 leaves the emptied node at s in the tree. */
  lemma RemoveCascadeLeavesEmpty(root: Node, s: string)
    requires WellFormed(root) && EmptiedInPlace(root, s)
    ensures Remove(root, s, true).outcome == Returned(true)
    ensures Lookup(Remove(root, s, true).tree, s) == Some(Empty)
    ensures !Minimal(Remove(root, s, true).tree)
  {
    var m := Lookup(root, s).value;
    var m1 := if m.terminal == Some(s) && s != [] then m.(terminal := None) else m;
    if s in ObjectMembers {
      RemoveInherited(root, s);
      StoredAtOwnPath(root, s);
      return;
    }
    SetAtParent(root, s, m1);
    UnmarkWord(root, s, m);
    HasIsMembership(SetAt(root, s, m1), s);
    assert s[..|s|] == s;
    var p := Parent(SetAt(root, s, m1), s, |s|).value;
    assert Lookup(SetAt(root, s, m1), s[..|s| - 1]) == Some(p);
  }
}
