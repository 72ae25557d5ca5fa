/**
 * The Anatree's node, shared by all three versions of the structure, with the
 * invariants every version keeps and the recursions the versions have in
 * common (exact descent, insertion, sub-anagram search, fixed-length keys).
 *
 * A node either is NIL (no symbol, no children) or carries a symbol and two
 * children: the "false" child for words without the symbol, the "true" child
 * for words that contain it. A word is stored on the node where its key runs
 * out.
 */
module Nodes {
  import opened Words

  datatype Option<T> = None | Some(value: T)

  /** A node; `Nil` stands for the C++ node whose symbol is the sentinel. */
  datatype Node =
    | Nil(words: set<Word>)
    | Inner(sym: Sym, f: Node, t: Node, words: set<Word>)

  /** Every word stored in the subtree. */
  ghost function AllWords(n: Node): set<Word>
  {
    match n
    case Nil(ws) => ws
    case Inner(_, f, t, ws) => ws + AllWords(f) + AllWords(t)
  }

  /** The words held by the NIL nodes of the subtree. */
  ghost function NilWords(n: Node): set<Word>
  {
    match n
    case Nil(ws) => ws
    case Inner(_, f, t, _) => NilWords(f) + NilWords(t)
  }

  /** Words on NIL nodes are stored words. */
  lemma {:induction false} NilWordsStored(n: Node)
    ensures NilWords(n) <= AllWords(n)
  {
    match n
    case Nil(_) =>
    case Inner(_, f, t, _) =>
      NilWordsStored(f);
      NilWordsStored(t);
  }

  /** Every symbol carried by a node of the subtree. */
  ghost function Syms(n: Node): set<Sym>
  {
    match n
    case Nil(_) => {}
    case Inner(s, f, t, _) => {s} + Syms(f) + Syms(t)
  }

  /** Number of nodes of the subtree, NIL nodes included. */
  ghost function Count(n: Node): nat
  {
    match n
    case Nil(_) => 1
    case Inner(_, f, t, _) => 1 + Count(f) + Count(t)
  }

  /** Number of non-NIL nodes of the subtree. */
  ghost function InnerCount(n: Node): nat
  {
    match n
    case Nil(_) => 0
    case Inner(_, f, t, _) => 1 + InnerCount(f) + InnerCount(t)
  }

  /** Every non-NIL node has two children and every NIL node none: the node count is odd. */
  lemma {:induction false} CountIsTwiceInnerPlusOne(n: Node)
    ensures Count(n) == 2 * InnerCount(n) + 1
  {
    match n
    case Nil(_) =>
    case Inner(_, f, t, _) =>
      CountIsTwiceInnerPlusOne(f);
      CountIsTwiceInnerPlusOne(t);
  }

  /**
   * Symbol order along paths: every symbol below the false edge sorts strictly
   * after the node's symbol, every symbol below the true edge is not before it
   * (it is equal for a repeated letter).
   */
  ghost predicate Ordered(cmp: Comparator, n: Node)
  {
    match n
    case Nil(_) => true
    case Inner(s, f, t, _) =>
      && (forall x :: x in Syms(f) ==> Before(cmp, s, x))
      && (forall x :: x in Syms(t) ==> !Before(cmp, x, s))
      && Ordered(cmp, f)
      && Ordered(cmp, t)
  }

  /**
   * Terminal placement: the subtree is reached after consuming `prefix` of a
   * key; each word on a node has exactly the symbols consumed on the way to
   * it as its key. A false child never holds words of its own: those would
   * have run out of key on its parent.
   */
  ghost predicate Placed(cmp: Comparator, n: Node, prefix: Word)
  {
    && (forall w {:trigger w in n.words} :: w in n.words ==> Key(cmp, w) == prefix)
    && match n
       case Nil(_) => true
       case Inner(s, f, t, _) =>
         && f.words == {}
         && Placed(cmp, f, prefix)
         && Placed(cmp, t, prefix + [s])
  }

  /** The invariant of a whole tree. */
  ghost predicate Valid(cmp: Comparator, n: Node)
  {
    Ordered(cmp, n) && Placed(cmp, n, []) && NIL !in Syms(n)
  }

  /** In an ordered subtree no symbol sorts before the symbol at its top. */
  lemma OrderedBound(cmp: Comparator, n: Node)
    requires n.Inner? && Ordered(cmp, n)
    ensures forall x :: x in Syms(n) ==> !Before(cmp, x, n.sym)
  {
    forall x | x in Syms(n) ensures !Before(cmp, x, n.sym) {
      BeforeIsStrictTotalOrder(cmp, n.sym, x, n.sym);
    }
  }

  /**
   * Where a stored word sits: its key extends the prefix, the next symbol is
   * one of the subtree's, and it is longer than the prefix unless the word is
   * on the top node.
   */
  lemma {:induction false} KeyShape(cmp: Comparator, n: Node, prefix: Word, w: Word)
    requires Placed(cmp, n, prefix)
    requires w in AllWords(n)
    ensures var key := Key(cmp, w);
      && |prefix| <= |key|
      && key[..|prefix|] == prefix
      && (|prefix| < |key| ==> key[|prefix|] in Syms(n))
      && (w !in n.words ==> |prefix| < |key|)
  {
    var key := Key(cmp, w);
    var k := |prefix|;
    if n.Inner? && w !in n.words {
      var s, f, t := n.sym, n.f, n.t;
      assert Syms(f) <= Syms(n) && Syms(t) <= Syms(n);
      if w in AllWords(f) {
        KeyShape(cmp, f, prefix, w);
      } else {
        KeyShape(cmp, t, prefix + [s], w);
        assert key[..k + 1] == prefix + [s];
        assert key[..k] == key[..k + 1][..k];
        assert key[k] == s;
      }
    }
  }

  /**
   * Which part of a non-NIL node holds a stored word is decided by its key
   * past the prefix: nothing left (the node itself), the node's symbol next
   * (the true subtree) or a symbol after it next (the false subtree).
   */
  lemma Branch(cmp: Comparator, n: Node, prefix: Word, v: Word)
    requires n.Inner? && Placed(cmp, n, prefix) && Ordered(cmp, n)
    requires v in AllWords(n)
    ensures var key := Key(cmp, v);
      && |prefix| <= |key|
      && key[..|prefix|] == prefix
      && (|prefix| < |key| ==> key[|prefix|] in Syms(n) && !Before(cmp, key[|prefix|], n.sym))
      && (v in n.words <==> |key| == |prefix|)
      && (v in AllWords(n.f) <==> |prefix| < |key| && Before(cmp, n.sym, key[|prefix|]))
      && (v in AllWords(n.t) <==> |prefix| < |key| && key[|prefix|] == n.sym)
  {
    var key := Key(cmp, v);
    var k := |prefix|;
    KeyShape(cmp, n, prefix, v);
    OrderedBound(cmp, n);
    assert v in n.words ==> |key| == k;
    assert v in AllWords(n.f) ==> k < |key| && Before(cmp, n.sym, key[k]) by {
      if v in AllWords(n.f) {
        KeyShape(cmp, n.f, prefix, v);
        assert key[k] in Syms(n.f);
      }
    }
    assert v in AllWords(n.t) ==> k < |key| && key[k] == n.sym by {
      if v in AllWords(n.t) {
        KeyShape(cmp, n.t, prefix + [n.sym], v);
        assert key[..k + 1] == prefix + [n.sym];
        assert key[k] == key[..k + 1][k];
      }
    }
    assert v in n.words || v in AllWords(n.f) || v in AllWords(n.t);
    if k < |key| && Before(cmp, n.sym, key[k]) {
      assert key[k] != n.sym;
      assert v !in n.words && v !in AllWords(n.t);
    }
    if k < |key| && key[k] == n.sym {
      assert !Before(cmp, n.sym, key[k]);
      assert v !in n.words && v !in AllWords(n.f);
    }
  }

  /**
   * `deep_copy`: a fresh node for every node of the subtree, with the same
   * symbol and word set; the copy is the same tree.
   */
  function DeepCopy(p: Node): (r: Node)
    ensures r == p
  {
    match p
    case Nil(ws) => Nil(ws)
    case Inner(s, f, t, ws) => Inner(s, DeepCopy(f), DeepCopy(t), ws)
  }

  // ---------------------------------------------------------------------------
  // Exact descent: find_node / anagrams_of

  /**
   * `find_node__rec`: follows the key from position `i`; a key symbol before the
   * node's symbol, or a NIL node with key left, means no node for this key.
   */
  function FindNode(cmp: Comparator, n: Node, key: Word, i: nat): (r: Option<Node>)
    requires i <= |key|
    ensures r.Some? ==> r.value.words <= AllWords(n)
  {
    if i == |key| then
      Some(n)
    else
      match n
      case Nil(_) => None
      case Inner(s, f, t, _) =>
        if Before(cmp, key[i], s) then None
        else if Before(cmp, s, key[i]) then FindNode(cmp, f, key, i)
        else FindNode(cmp, t, key, i + 1)
  }

  /** The words on the node the descent finds, or none. */
  function WordsFound(r: Option<Node>): set<Word>
  {
    match r
    case Some(m) => m.words
    case None => {}
  }

  /** Every word on the node the descent finds has the whole key as its key. */
  lemma {:induction false} FindNodeSound(cmp: Comparator, n: Node, key: Word, i: nat, v: Word)
    requires i <= |key| && Placed(cmp, n, key[..i])
    requires v in WordsFound(FindNode(cmp, n, key, i))
    ensures Key(cmp, v) == key
  {
    if i < |key| {
      match n
      case Nil(_) =>
      case Inner(s, f, t, _) =>
        if Before(cmp, key[i], s) {
        } else if Before(cmp, s, key[i]) {
          FindNodeSound(cmp, f, key, i, v);
        } else {
          assert key[..i + 1] == key[..i] + [s];
          FindNodeSound(cmp, t, key, i + 1, v);
        }
    }
  }

  /** The descent by a stored word's key finds the node holding that word. */
  lemma {:induction false} FindNodeComplete(cmp: Comparator, n: Node, key: Word, i: nat, v: Word)
    requires i <= |key| && Placed(cmp, n, key[..i]) && Ordered(cmp, n)
    requires v in AllWords(n) && Key(cmp, v) == key
    ensures v in WordsFound(FindNode(cmp, n, key, i))
  {
    if i == |key| {
      KeyShape(cmp, n, key[..i], v);
    } else {
      match n
      case Nil(ws) =>
        assert false;
      case Inner(s, f, t, ws) =>
        Branch(cmp, n, key[..i], v);
        if v in AllWords(f) {
          assert Before(cmp, s, key[i]) && !Before(cmp, key[i], s);
          assert FindNode(cmp, n, key, i) == FindNode(cmp, f, key, i);
          FindNodeComplete(cmp, f, key, i, v);
        } else {
          assert v in AllWords(t);
          assert key[i] == s;
          assert !Before(cmp, s, key[i]) && !Before(cmp, key[i], s);
          assert FindNode(cmp, n, key, i) == FindNode(cmp, t, key, i + 1);
          assert key[..i + 1] == key[..i] + [s];
          FindNodeComplete(cmp, t, key, i + 1, v);
        }
    }
  }

  /** In a valid tree the node found for `w`'s key holds exactly the stored anagrams of `w`. */
  lemma FindNodeAnagrams(cmp: Comparator, n: Node, w: Word)
    requires Valid(cmp, n)
    ensures WordsFound(FindNode(cmp, n, Key(cmp, w), 0))
         == set v | v in AllWords(n) && multiset(v) == multiset(w)
  {
    var key := Key(cmp, w);
    assert key[..0] == [];
    var found := WordsFound(FindNode(cmp, n, key, 0));
    forall v | v in found ensures v in AllWords(n) && multiset(v) == multiset(w) {
      FindNodeSound(cmp, n, key, 0, v);
      SameKeyIffAnagram(cmp, v, w);
    }
    forall v | v in AllWords(n) && multiset(v) == multiset(w) ensures v in found {
      SameKeyIffAnagram(cmp, v, w);
      FindNodeComplete(cmp, n, key, 0, v);
    }
  }

  /**
   * `anagrams_of__rec` of the two earlier versions: the same descent, returning
   * the word set directly; it agrees with the node `find_node__rec` finds.
   */
  function AnagramsOfRec(cmp: Comparator, n: Node, key: Word, i: nat): (r: set<Word>)
    requires i <= |key|
    ensures r == WordsFound(FindNode(cmp, n, key, i))
  {
    if i == |key| then
      n.words
    else
      match n
      case Nil(_) => {}
      case Inner(s, f, t, _) =>
        if Before(cmp, key[i], s) then {}
        else if Before(cmp, s, key[i]) then AnagramsOfRec(cmp, f, key, i)
        else AnagramsOfRec(cmp, t, key, i + 1)
  }

  // ---------------------------------------------------------------------------
  // Insertion: insert__rec of the two later versions

  /**
   * What one step of `insert__rec` hands back: the new subtree root, whether the
   * word was not yet on its node (the size counter grows by one), and how many
   * nodes were allocated (the tree-size counter grows by that much).
   */
  datatype Inserted = Inserted(node: Node, added: bool, grown: nat)

  /** The symbols of `key` from position `i` on. */
  ghost function SymsFrom(key: Word, i: nat): set<Sym>
    requires i <= |key|
  {
    set j | i <= j < |key| :: key[j]
  }

  /**
   * `insert__rec`: places `w`, whose key is `key`, below `p`, the first `i`
   * symbols of the key being consumed. A NIL node is given the next key symbol
   * and two NIL children; a key symbol before the node's symbol splices a new
   * node above it, which takes over its words; a symbol after it follows the
   * false edge; an equal one the true edge.
   */
  function InsertRec(cmp: Comparator, p: Node, w: Word, key: Word, i: nat): (r: Inserted)
    requires i <= |key|
    ensures i < |key| ==> r.node.words == p.words
    decreases |key| - i, p
  {
    if i == |key| then
      Inserted(p.(words := p.words + {w}), w !in p.words, 0)
    else
      match p
      case Nil(ws) =>
        var rt := InsertRec(cmp, Nil({}), w, key, i + 1);
        Inserted(Inner(key[i], Nil({}), rt.node, ws), rt.added, rt.grown + 2)
      case Inner(s, f, t, ws) =>
        if Before(cmp, key[i], s) then
          var rt := InsertRec(cmp, Nil({}), w, key, i + 1);
          Inserted(Inner(key[i], p.(words := {}), rt.node, ws), rt.added, rt.grown + 2)
        else if Before(cmp, s, key[i]) then
          var rf := InsertRec(cmp, f, w, key, i);
          Inserted(Inner(s, rf.node, t, ws), rf.added, rf.grown)
        else
          var rt := InsertRec(cmp, t, w, key, i + 1);
          Inserted(Inner(s, f, rt.node, ws), rt.added, rt.grown)
  }

  /** After insertion the subtree stores exactly the words it stored before, and `w`. */
  lemma {:induction false} InsertStoresWord(cmp: Comparator, p: Node, w: Word, key: Word, i: nat)
    requires i <= |key|
    ensures AllWords(InsertRec(cmp, p, w, key, i).node) == AllWords(p) + {w}
    decreases |key| - i, p
  {
    if i < |key| {
      match p
      case Nil(ws) =>
        InsertStoresWord(cmp, Nil({}), w, key, i + 1);
      case Inner(s, f, t, ws) =>
        if Before(cmp, key[i], s) {
          InsertStoresWord(cmp, Nil({}), w, key, i + 1);
        } else if Before(cmp, s, key[i]) {
          InsertStoresWord(cmp, f, w, key, i);
        } else {
          InsertStoresWord(cmp, t, w, key, i + 1);
        }
    }
  }

  /** The tree-size counter's increment is exactly the number of nodes the insertion adds. */
  lemma {:induction false} InsertCountsNodes(cmp: Comparator, p: Node, w: Word, key: Word, i: nat)
    requires i <= |key|
    ensures var r := InsertRec(cmp, p, w, key, i); Count(r.node) == Count(p) + r.grown
    decreases |key| - i, p
  {
    if i < |key| {
      match p
      case Nil(ws) =>
        InsertCountsNodes(cmp, Nil({}), w, key, i + 1);
      case Inner(s, f, t, ws) =>
        if Before(cmp, key[i], s) {
          InsertCountsNodes(cmp, Nil({}), w, key, i + 1);
        } else if Before(cmp, s, key[i]) {
          InsertCountsNodes(cmp, f, w, key, i);
        } else {
          InsertCountsNodes(cmp, t, w, key, i + 1);
        }
    }
  }

  /** Insertion introduces no symbol that is not among the unconsumed symbols of the key. */
  lemma {:induction false} InsertSyms(cmp: Comparator, p: Node, w: Word, key: Word, i: nat)
    requires i <= |key|
    ensures Syms(InsertRec(cmp, p, w, key, i).node) <= Syms(p) + SymsFrom(key, i)
    decreases |key| - i, p
  {
    if i < |key| {
      assert SymsFrom(key, i) == {key[i]} + SymsFrom(key, i + 1);
      match p
      case Nil(ws) =>
        InsertSyms(cmp, Nil({}), w, key, i + 1);
      case Inner(s, f, t, ws) =>
        if Before(cmp, key[i], s) {
          InsertSyms(cmp, Nil({}), w, key, i + 1);
        } else if Before(cmp, s, key[i]) {
          InsertSyms(cmp, f, w, key, i);
        } else {
          InsertSyms(cmp, t, w, key, i + 1);
        }
    }
  }

  /** Insertion of a sorted key keeps the symbol order along every path. */
  lemma {:induction false} InsertKeepsOrdered(cmp: Comparator, p: Node, w: Word, key: Word, i: nat)
    requires i <= |key| && Sorted(cmp, key) && Ordered(cmp, p)
    ensures Ordered(cmp, InsertRec(cmp, p, w, key, i).node)
    decreases |key| - i, p
  {
    if i < |key| {
      var c := key[i];
      match p
      case Nil(ws) =>
        var rt := InsertRec(cmp, Nil({}), w, key, i + 1);
        InsertKeepsOrdered(cmp, Nil({}), w, key, i + 1);
        InsertSyms(cmp, Nil({}), w, key, i + 1);
        assert Syms(rt.node) <= SymsFrom(key, i);
        assert forall x :: x in Syms(rt.node) ==> !Before(cmp, x, c);
        assert Ordered(cmp, Inner(c, Nil({}), rt.node, ws));
      case Inner(s, f, t, ws) =>
        if Before(cmp, c, s) {
          var rt := InsertRec(cmp, Nil({}), w, key, i + 1);
          InsertKeepsOrdered(cmp, Nil({}), w, key, i + 1);
          InsertSyms(cmp, Nil({}), w, key, i + 1);
          assert Syms(rt.node) <= SymsFrom(key, i);
          assert forall x :: x in Syms(rt.node) ==> !Before(cmp, x, c);
          OrderedBound(cmp, p);
          forall x | x in Syms(p.(words := {})) ensures Before(cmp, c, x) {
            BeforeIsStrictTotalOrder(cmp, c, s, x);
          }
          assert Ordered(cmp, Inner(c, p.(words := {}), rt.node, ws));
        } else if Before(cmp, s, c) {
          var rf := InsertRec(cmp, f, w, key, i);
          InsertKeepsOrdered(cmp, f, w, key, i);
          InsertSyms(cmp, f, w, key, i);
          forall x | x in SymsFrom(key, i) ensures Before(cmp, s, x) {
            BeforeIsStrictTotalOrder(cmp, s, c, x);
          }
          assert forall x :: x in Syms(rf.node) ==> Before(cmp, s, x);
          assert Ordered(cmp, Inner(s, rf.node, t, ws));
        } else {
          var rt := InsertRec(cmp, t, w, key, i + 1);
          InsertKeepsOrdered(cmp, t, w, key, i + 1);
          InsertSyms(cmp, t, w, key, i + 1);
          assert c == s by { BeforeIsStrictTotalOrder(cmp, s, c, s); }
          assert Syms(rt.node) <= Syms(t) + SymsFrom(key, i);
          assert Ordered(cmp, Inner(s, f, rt.node, ws));
        }
    }
  }

  /** Insertion under `w`'s own key keeps every word on the node where its key runs out. */
  lemma {:induction false} InsertKeepsPlaced(cmp: Comparator, p: Node, w: Word, key: Word, i: nat)
    requires i <= |key| && key == Key(cmp, w) && Placed(cmp, p, key[..i])
    ensures Placed(cmp, InsertRec(cmp, p, w, key, i).node, key[..i])
    decreases |key| - i, p
  {
    var prefix := key[..i];
    if i == |key| {
      assert prefix == key;
      assert forall v :: v in p.words + {w} ==> Key(cmp, v) == prefix;
    } else {
      var c := key[i];
      assert key[..i + 1] == prefix + [c];
      match p
      case Nil(ws) =>
        var rt := InsertRec(cmp, Nil({}), w, key, i + 1);
        InsertKeepsPlaced(cmp, Nil({}), w, key, i + 1);
        assert Placed(cmp, Inner(c, Nil({}), rt.node, ws), prefix);
      case Inner(s, f, t, ws) =>
        if Before(cmp, c, s) {
          var rt := InsertRec(cmp, Nil({}), w, key, i + 1);
          InsertKeepsPlaced(cmp, Nil({}), w, key, i + 1);
          assert Placed(cmp, Inner(s, f, t, {}), prefix);
          assert Placed(cmp, Inner(c, Inner(s, f, t, {}), rt.node, ws), prefix);
        } else if Before(cmp, s, c) {
          var rf := InsertRec(cmp, f, w, key, i);
          InsertKeepsPlaced(cmp, f, w, key, i);
          assert Placed(cmp, Inner(s, rf.node, t, ws), prefix);
        } else {
          var rt := InsertRec(cmp, t, w, key, i + 1);
          assert c == s by { BeforeIsStrictTotalOrder(cmp, s, c, s); }
          InsertKeepsPlaced(cmp, t, w, key, i + 1);
          assert Placed(cmp, Inner(s, f, rt.node, ws), prefix);
        }
    }
  }

  /** Insertion adds no symbol outside the key, so a sentinel-free tree stays so. */
  lemma InsertKeepsNilFree(cmp: Comparator, p: Node, w: Word, key: Word, i: nat)
    requires i <= |key| && NIL !in key && NIL !in Syms(p)
    ensures NIL !in Syms(InsertRec(cmp, p, w, key, i).node)
  {
    InsertSyms(cmp, p, w, key, i);
  }

  /** The word counter grows exactly when the word was not stored anywhere in the subtree before. */
  lemma {:induction false} InsertAddsNew(cmp: Comparator, p: Node, w: Word, key: Word, i: nat)
    requires i <= |key| && key == Key(cmp, w)
    requires Placed(cmp, p, key[..i]) && Ordered(cmp, p)
    ensures InsertRec(cmp, p, w, key, i).added <==> w !in AllWords(p)
    decreases |key| - i, p
  {
    if i == |key| {
      if w in AllWords(p) {
        KeyShape(cmp, p, key[..i], w);
      }
    } else {
      assert key[..i + 1] == key[..i] + [key[i]];
      match p
      case Nil(ws) =>
        InsertAddsNew(cmp, Nil({}), w, key, i + 1);
      case Inner(s, f, t, ws) =>
        if w in AllWords(p) {
          Branch(cmp, p, key[..i], w);
        }
        if Before(cmp, key[i], s) {
          InsertAddsNew(cmp, Nil({}), w, key, i + 1);
        } else if Before(cmp, s, key[i]) {
          InsertAddsNew(cmp, f, w, key, i);
        } else {
          InsertAddsNew(cmp, t, w, key, i + 1);
        }
    }
  }

  /**
   * Insertion follows the same path as the exact descent: when the word is
   * already on the node the descent finds, nothing changes.
   */
  lemma {:induction false} InsertFoundUnchanged(cmp: Comparator, p: Node, w: Word, key: Word, i: nat)
    requires i <= |key|
    requires w in WordsFound(FindNode(cmp, p, key, i))
    ensures InsertRec(cmp, p, w, key, i) == Inserted(p, false, 0)
    decreases |key| - i, p
  {
    if i == |key| {
      assert p.words + {w} == p.words;
    } else {
      match p
      case Nil(_) =>
      case Inner(s, f, t, ws) =>
        if Before(cmp, s, key[i]) {
          InsertFoundUnchanged(cmp, f, w, key, i);
        } else if !Before(cmp, key[i], s) {
          InsertFoundUnchanged(cmp, t, w, key, i + 1);
        }
    }
  }

  /** Inserting a word that is already stored leaves the subtree and both counters as they were. */
  lemma InsertExistingUnchanged(cmp: Comparator, p: Node, w: Word, key: Word, i: nat)
    requires i <= |key| && key == Key(cmp, w)
    requires Placed(cmp, p, key[..i]) && Ordered(cmp, p)
    requires w in AllWords(p)
    ensures InsertRec(cmp, p, w, key, i) == Inserted(p, false, 0)
  {
    FindNodeComplete(cmp, p, key, i, w);
    InsertFoundUnchanged(cmp, p, w, key, i);
  }

  /**
   * `insert(w)` on a valid tree: the tree stays valid and stores `w` besides
   * its old words, `grown` counts the nodes added, `added` reports exactly a
   * new word, and a stored word leaves everything as it was.
   */
  lemma InsertValid(cmp: Comparator, p: Node, w: Word)
    requires Valid(cmp, p) && NIL !in w
    ensures var r := InsertRec(cmp, p, w, SortedWord(cmp, w), 0);
      && Valid(cmp, r.node)
      && AllWords(r.node) == AllWords(p) + {w}
      && Count(r.node) == Count(p) + r.grown
      && (r.added <==> w !in AllWords(p))
      && (w in AllWords(p) ==> r == Inserted(p, false, 0))
  {
    var key := SortedWord(cmp, w);
    SortedWordIsKey(cmp, w);
    KeyNilFree(cmp, w);
    assert key[..0] == [];
    InsertStoresWord(cmp, p, w, key, 0);
    InsertCountsNodes(cmp, p, w, key, 0);
    InsertKeepsOrdered(cmp, p, w, key, 0);
    InsertKeepsPlaced(cmp, p, w, key, 0);
    InsertKeepsNilFree(cmp, p, w, key, 0);
    InsertAddsNew(cmp, p, w, key, 0);
    if w in AllWords(p) {
      InsertExistingUnchanged(cmp, p, w, key, 0);
    }
  }

  /** The root left by inserting the words of `ws`, first to last, below `n`. */
  ghost function InsertWords(cmp: Comparator, n: Node, ws: seq<Word>): Node
    decreases |ws|
  {
    if ws == [] then n
    else
      var last := ws[|ws| - 1];
      InsertRec(cmp, InsertWords(cmp, n, ws[..|ws| - 1]), last, SortedWord(cmp, last), 0).node
  }

  /** Inserting one more word of the sequence inserts it into the tree the earlier words left. */
  lemma InsertWordsStep(cmp: Comparator, n: Node, ws: seq<Word>, k: nat)
    requires k < |ws|
    ensures InsertWords(cmp, n, ws[..k + 1])
         == InsertRec(cmp, InsertWords(cmp, n, ws[..k]), ws[k], SortedWord(cmp, ws[k]), 0).node
  {
    assert ws[..k + 1][..k] == ws[..k];
  }

  /**
   * The first word stored in an empty tree allocates two nodes per symbol,
   * so the tree then has `2 * |w| + 1` nodes.
   */
  lemma FirstWordNodes(cmp: Comparator, w: Word)
    ensures Count(InsertWords(cmp, Nil({}), [w])) == 2 * |w| + 1
  {
    var key := SortedWord(cmp, w);
    assert [w][..0] == [];
    InsertCountsNodes(cmp, Nil({}), w, key, 0);
    InsertFreshGrowth(cmp, {}, w, key, 0);
  }

  /** A key inserted below a NIL node allocates two nodes for each of its remaining symbols. */
  lemma {:induction false} InsertFreshGrowth(cmp: Comparator, ws: set<Word>, w: Word, key: Word, i: nat)
    requires i <= |key|
    ensures InsertRec(cmp, Nil(ws), w, key, i).grown == 2 * (|key| - i)
    decreases |key| - i
  {
    if i < |key| {
      var rt := InsertRec(cmp, Nil({}), w, key, i + 1);
      assert InsertRec(cmp, Nil(ws), w, key, i).grown == rt.grown + 2;
      InsertFreshGrowth(cmp, {}, w, key, i + 1);
    }
  }

  // ---------------------------------------------------------------------------
  // Sub-anagram search: subanagrams_of__rec

  /**
   * The words every version's `subanagrams_of__rec` collects below `n` for the
   * key from position `i`: the node's own words, then, while key symbols sort
   * before the node's symbol, the same node with those symbols skipped; a node
   * symbol before the key symbol continues on the false edge with the same
   * key; an equal one consumes the symbol on both edges.
   */
  function Subanagrams(cmp: Comparator, n: Node, key: Word, i: nat): (r: set<Word>)
    requires i <= |key|
    ensures n.words <= r
    decreases |key| - i, n
  {
    if i == |key| then
      n.words
    else
      match n
      case Nil(ws) => ws
      case Inner(s, f, t, ws) =>
        if Before(cmp, key[i], s) then Subanagrams(cmp, n, key, i + 1)
        else if Before(cmp, s, key[i]) then ws + Subanagrams(cmp, f, key, i)
        else ws + Subanagrams(cmp, f, key, i + 1) + Subanagrams(cmp, t, key, i + 1)
  }

  /** The search only ever reports words stored in the subtree. */
  lemma {:induction false} SubanagramsStored(cmp: Comparator, n: Node, key: Word, i: nat)
    requires i <= |key|
    ensures Subanagrams(cmp, n, key, i) <= AllWords(n)
    decreases |key| - i, n
  {
    if i < |key| && n.Inner? {
      if Before(cmp, key[i], n.sym) {
        SubanagramsStored(cmp, n, key, i + 1);
      } else if Before(cmp, n.sym, key[i]) {
        SubanagramsStored(cmp, n.f, key, i);
      } else {
        SubanagramsStored(cmp, n.f, key, i + 1);
        SubanagramsStored(cmp, n.t, key, i + 1);
      }
    }
  }

  /** A stored word is its prefix's symbols plus the rest of its key. */
  lemma KeySplit(cmp: Comparator, n: Node, prefix: Word, v: Word)
    requires Placed(cmp, n, prefix) && v in AllWords(n)
    ensures |prefix| <= |Key(cmp, v)|
    ensures multiset(v) == multiset(prefix) + multiset(Key(cmp, v)[|prefix|..])
  {
    var kv := Key(cmp, v);
    KeyShape(cmp, n, prefix, v);
    assert kv == prefix + kv[|prefix|..];
  }

  /** A symbol before some position of a sorted word does not occur from that position on. */
  lemma SortedTailAbove(cmp: Comparator, s: Word, k: nat, x: Sym)
    requires Sorted(cmp, s) && k < |s| && Before(cmp, x, s[k])
    ensures x !in multiset(s[k..])
  {
    forall j | 0 <= j < |s[k..]| ensures s[k..][j] != x {
      assert s[k..][j] == s[k + j];
      BeforeIsStrictTotalOrder(cmp, x, s[k], s[k + j]);
    }
  }

  /** A symbol `v` has no more often than `p` does not change whether `v` fits into `p` plus `k`. */
  lemma FitsWithout(v: multiset<Sym>, p: multiset<Sym>, k: multiset<Sym>, x: Sym)
    requires v[x] == p[x]
    ensures v <= p + k + multiset{x} <==> v <= p + k
  {
    if v <= p + k + multiset{x} {
      forall y ensures v[y] <= (p + k)[y] {
        if y == x {
        } else {
          assert (p + k + multiset{x})[y] == (p + k)[y];
        }
      }
    }
  }

  /** A symbol `v` has more often than `p`, and `k` lacks, keeps `v` from fitting into `p` plus `k`. */
  lemma FitsNotWith(v: multiset<Sym>, p: multiset<Sym>, k: multiset<Sym>, x: Sym)
    requires v[x] > p[x] && k[x] == 0
    ensures !(v <= p + k)
  {
    assert (p + k)[x] == p[x];
  }

  /**
   * What the search finds: with the key sorted and the subtree placed after
   * `prefix`, a stored word is reported exactly when its symbols fit into the
   * prefix plus the unconsumed key symbols.
   */
  lemma {:induction false} SubanagramsMember(cmp: Comparator, n: Node, prefix: Word, key: Word, i: nat, v: Word)
    requires i <= |key| && Sorted(cmp, key)
    requires Placed(cmp, n, prefix) && Ordered(cmp, n)
    requires v in AllWords(n)
    ensures v in Subanagrams(cmp, n, key, i)
        <==> multiset(v) <= multiset(prefix) + multiset(key[i..])
    decreases |key| - i, n, 1
  {
    KeySplit(cmp, n, prefix, v);
    if n.Nil? || v in n.words {
      KeyShape(cmp, n, prefix, v);
      assert Key(cmp, v)[|prefix|..] == [];
    } else if i == |key| {
      Branch(cmp, n, prefix, v);
      assert key[i..] == [];
      FitsNotWith(multiset(v), multiset(prefix), multiset{}, Key(cmp, v)[|prefix|]);
    } else if Before(cmp, key[i], n.sym) {
      SubanagramsSkip(cmp, n, prefix, key, i, v);
    } else if Before(cmp, n.sym, key[i]) {
      SubanagramsAhead(cmp, n, prefix, key, i, v);
    } else {
      SubanagramsMatch(cmp, n, prefix, key, i, v);
    }
  }

  /** SubanagramsMember when the key symbol sorts before the node's symbol: it is skipped. */
  lemma {:induction false} SubanagramsSkip(cmp: Comparator, n: Node, prefix: Word, key: Word, i: nat, v: Word)
    requires i < |key| && Sorted(cmp, key)
    requires Placed(cmp, n, prefix) && Ordered(cmp, n)
    requires n.Inner? && v in AllWords(n) && v !in n.words
    requires Before(cmp, key[i], n.sym)
    ensures v in Subanagrams(cmp, n, key, i)
        <==> multiset(v) <= multiset(prefix) + multiset(key[i..])
    decreases |key| - i, n, 0
  {
    var k, kv := |prefix|, Key(cmp, v);
    KeySplit(cmp, n, prefix, v);
    Branch(cmp, n, prefix, v);
    BeforeIsStrictTotalOrder(cmp, key[i], n.sym, kv[k]);
    SortedTailAbove(cmp, kv, k, key[i]);
    assert key[i..] == [key[i]] + key[i + 1..];
    SubanagramsMember(cmp, n, prefix, key, i + 1, v);
    FitsWithout(multiset(v), multiset(prefix), multiset(key[i + 1..]), key[i]);
  }

  /** SubanagramsMember when the node's symbol sorts before the key symbol: the false edge is followed. */
  lemma {:induction false} SubanagramsAhead(cmp: Comparator, n: Node, prefix: Word, key: Word, i: nat, v: Word)
    requires i < |key| && Sorted(cmp, key)
    requires Placed(cmp, n, prefix) && Ordered(cmp, n)
    requires n.Inner? && v in AllWords(n) && v !in n.words
    requires Before(cmp, n.sym, key[i])
    ensures v in Subanagrams(cmp, n, key, i)
        <==> multiset(v) <= multiset(prefix) + multiset(key[i..])
    decreases |key| - i, n, 0
  {
    var k, kv := |prefix|, Key(cmp, v);
    Branch(cmp, n, prefix, v);
    SubanagramsStored(cmp, n.f, key, i);
    if v in AllWords(n.f) {
      SubanagramsMember(cmp, n.f, prefix, key, i, v);
    } else {
      KeySplit(cmp, n, prefix, v);
      assert kv[k..][0] == n.sym;
      SortedTailAbove(cmp, key, i, n.sym);
      FitsNotWith(multiset(v), multiset(prefix), multiset(key[i..]), n.sym);
    }
  }

  /** SubanagramsMember when the key symbol is the node's symbol: both edges are followed. */
  lemma {:induction false} SubanagramsMatch(cmp: Comparator, n: Node, prefix: Word, key: Word, i: nat, v: Word)
    requires i < |key| && Sorted(cmp, key)
    requires Placed(cmp, n, prefix) && Ordered(cmp, n)
    requires n.Inner? && v in AllWords(n) && v !in n.words
    requires key[i] == n.sym
    ensures v in Subanagrams(cmp, n, key, i)
        <==> multiset(v) <= multiset(prefix) + multiset(key[i..])
    decreases |key| - i, n, 0
  {
    var s, k, kv := n.sym, |prefix|, Key(cmp, v);
    Branch(cmp, n, prefix, v);
    SubanagramsStored(cmp, n.f, key, i + 1);
    SubanagramsStored(cmp, n.t, key, i + 1);
    assert key[i..] == [s] + key[i + 1..];
    if v in AllWords(n.f) {
      KeySplit(cmp, n, prefix, v);
      SortedTailAbove(cmp, kv, k, s);
      SubanagramsMember(cmp, n.f, prefix, key, i + 1, v);
      FitsWithout(multiset(v), multiset(prefix), multiset(key[i + 1..]), s);
    } else {
      SubanagramsMember(cmp, n.t, prefix + [s], key, i + 1, v);
      assert multiset(prefix + [s]) + multiset(key[i + 1..]) == multiset(prefix) + multiset(key[i..]);
    }
  }

  /**
   * `subanagrams_of(w)` on a valid tree: exactly the stored words whose
   * symbols, counted with repetition, all occur in `w`.
   */
  lemma SubanagramsOfWord(cmp: Comparator, n: Node, w: Word)
    requires Valid(cmp, n)
    ensures Subanagrams(cmp, n, Key(cmp, w), 0)
         == set v | v in AllWords(n) && multiset(v) <= multiset(w)
  {
    var key := Key(cmp, w);
    SubanagramsStored(cmp, n, key, 0);
    assert key[0..] == key;
    forall v | v in AllWords(n)
      ensures v in Subanagrams(cmp, n, key, 0) <==> multiset(v) <= multiset(w)
    {
      SubanagramsMember(cmp, n, [], key, 0, v);
    }
  }

  /**
   * `subanagrams_of__rec` of the two earlier versions, returning a fresh set:
   * an exhausted key or a NIL node gives the node's words; key symbols before
   * the node's symbol are skipped by a loop and the search restarts on the
   * same node; otherwise the node's words are merged with the false child's
   * results and, on a matching symbol, the true child's.
   */
  method SubanagramsRec(cmp: Comparator, p: Node, key: Word, i: nat) returns (r: set<Word>)
    requires i <= |key|
    ensures r == Subanagrams(cmp, p, key, i)
    decreases |key| - i, p
  {
    if i == |key| || p.Nil? {
      return p.words;
    }
    if Before(cmp, key[i], p.sym) {
      var j := i;
      while j < |key| && Before(cmp, key[j], p.sym)
        invariant i <= j <= |key|
        invariant j == i ==> j < |key| && Before(cmp, key[j], p.sym)
        invariant Subanagrams(cmp, p, key, j) == Subanagrams(cmp, p, key, i)
      {
        j := j + 1;
      }
      r := SubanagramsRec(cmp, p, key, j);
      return;
    }
    if Before(cmp, p.sym, key[i]) {
      var recFalse := SubanagramsRec(cmp, p.f, key, i);
      return p.words + recFalse;
    }
    var recFalse := SubanagramsRec(cmp, p.f, key, i + 1);
    var recTrue := SubanagramsRec(cmp, p.t, key, i + 1);
    r := p.words + recFalse + recTrue;
  }

  // ---------------------------------------------------------------------------
  // Representatives of one length: keys(len)

  /**
   * `r` represents the words of `ws` that have length `len`: it holds such
   * words only, one anagram of each of them, and no two anagrams.
   */
  ghost predicate Representatives(r: set<Word>, ws: set<Word>, len: nat)
  {
    && r <= ws
    && (forall v :: v in r ==> |v| == len)
    && (forall v :: v in ws && |v| == len ==> exists u :: u in r && multiset(u) == multiset(v))
    && (forall u, v :: u in r && v in r && multiset(u) == multiset(v) ==> u == v)
  }

  /** At the depth of `len` true edges, any one word of the node represents the whole subtree. */
  lemma RepresentativesHere(cmp: Comparator, p: Node, prefix: Word, w: Word)
    requires Placed(cmp, p, prefix) && w in p.words
    ensures Representatives({w}, AllWords(p), |prefix|)
  {
    KeyLength(cmp, w);
    forall v | v in AllWords(p) && |v| == |prefix|
      ensures multiset(w) == multiset(v)
    {
      KeyShape(cmp, p, prefix, v);
      KeyLength(cmp, v);
      SameKeyIffAnagram(cmp, w, v);
    }
  }

  /** At the depth of `len` true edges, a node without words has no word of that length below it. */
  lemma RepresentativesNone(cmp: Comparator, p: Node, prefix: Word)
    requires Placed(cmp, p, prefix) && p.words == {}
    ensures Representatives({}, AllWords(p), |prefix|)
  {
    forall v | v in AllWords(p) ensures |v| != |prefix| {
      KeyShape(cmp, p, prefix, v);
      KeyLength(cmp, v);
    }
  }

  /** A NIL node above the depth of `len` true edges holds no word of that length. */
  lemma RepresentativesNil(cmp: Comparator, ws: set<Word>, prefix: Word, len: nat)
    requires Placed(cmp, Nil(ws), prefix) && |prefix| < len
    ensures Representatives({}, ws, len)
  {
    forall v | v in ws ensures |v| != len {
      KeyLength(cmp, v);
    }
  }

  /** A word below the true edge is never an anagram of a word below the false edge. */
  lemma BranchesApart(cmp: Comparator, p: Node, prefix: Word, u: Word, v: Word)
    requires p.Inner? && Placed(cmp, p, prefix) && Ordered(cmp, p)
    requires u in AllWords(p.t) && v in AllWords(p.f)
    ensures multiset(u) != multiset(v)
  {
    Branch(cmp, p, prefix, u);
    Branch(cmp, p, prefix, v);
    SameKeyIffAnagram(cmp, u, v);
  }

  /**
   * Above the depth of `len` true edges the representatives of the two
   * subtrees together represent the node: its own words are too short, and a
   * word below the true edge is never an anagram of one below the false edge.
   */
  lemma RepresentativesMerge(cmp: Comparator, p: Node, prefix: Word, len: nat, rt: set<Word>, rf: set<Word>)
    requires p.Inner? && Placed(cmp, p, prefix) && Ordered(cmp, p) && |prefix| < len
    requires Representatives(rt, AllWords(p.t), len) && Representatives(rf, AllWords(p.f), len)
    ensures Representatives(rt + rf, AllWords(p), len)
  {
    forall v | v in p.words ensures |v| != len {
      KeyLength(cmp, v);
    }
    forall u, v | u in AllWords(p.t) && v in AllWords(p.f) ensures multiset(u) != multiset(v) {
      BranchesApart(cmp, p, prefix, u, v);
    }
    RepresentativesUnion(p.words, AllWords(p.f), AllWords(p.t), len, rf, rt);
  }

  /**
   * Representatives of two word sets with no anagram in common, together,
   * represent their union with words of other lengths.
   */
  lemma RepresentativesUnion(short: set<Word>, a: set<Word>, b: set<Word>, len: nat, ra: set<Word>, rb: set<Word>)
    requires forall v :: v in short ==> |v| != len
    requires forall u, v :: u in b && v in a ==> multiset(u) != multiset(v)
    requires Representatives(ra, a, len) && Representatives(rb, b, len)
    ensures Representatives(rb + ra, short + a + b, len)
  {
    forall v | v in short + a + b && |v| == len ensures exists u :: u in rb + ra && multiset(u) == multiset(v) {
      if v in a {
        var u :| u in ra && multiset(u) == multiset(v);
        assert u in rb + ra;
      } else {
        var u :| u in rb && multiset(u) == multiset(v);
        assert u in rb + ra;
      }
    }
    forall u, v | u in rb + ra && v in rb + ra && u != v ensures multiset(u) != multiset(v) {
      if u in rb && v in ra {
        assert u in b && v in a;
      } else if u in ra && v in rb {
        assert v in b && u in a;
      }
    }
  }

  /**
   * `keys__rec(len, p, true_edges)`: one word, if any, from every node reached
   * by exactly `len` true edges; a branch that reaches NIL earlier contributes
   * nothing. `prefix` is the key consumed on the way to `p`.
   */
  method KeysOfLength(cmp: Comparator, len: nat, p: Node, trueEdges: nat, ghost prefix: Word) returns (r: set<Word>)
    requires trueEdges == |prefix| <= len
    requires Placed(cmp, p, prefix) && Ordered(cmp, p)
    ensures Representatives(r, AllWords(p), len)
    decreases p
  {
    if len == trueEdges {
      r := {};
      if |p.words| > 0 {
        var w :| w in p.words;
        r := {w};
        RepresentativesHere(cmp, p, prefix, w);
      } else {
        RepresentativesNone(cmp, p, prefix);
      }
      return;
    }
    match p
    case Nil(ws) =>
      r := {};
      RepresentativesNil(cmp, ws, prefix, len);
    case Inner(s, f, t, ws) =>
      var recTrue := KeysOfLength(cmp, len, t, trueEdges + 1, prefix + [s]);
      var recFalse := KeysOfLength(cmp, len, f, trueEdges, prefix);
      r := recTrue + recFalse;
      RepresentativesMerge(cmp, p, prefix, len, recTrue, recFalse);
  }
}
