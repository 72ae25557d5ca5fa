/**
 * The earliest Anatree, `src/anatree.h`: symbols ordered by the built-in `<`,
 * no word counter, a node counter that a splice raises by one only, and a
 * `keys()` that takes one word from every NIL node that holds words, without
 * pruning.
 */
module AnatreeV1 {
  import opened Words
  import opened Nodes

  /** What one step of this version's `insert__rec` hands back: the new subtree and the nodes it counts. */
  datatype Grown = Grown(node: Node, grown: nat)

  /**
   * `insert__rec` of the earliest version: the same tree as the later
   * versions, but a splice, which allocates the new node and its NIL true
   * child, adds one to the node counter.
   */
  function InsertRecV1(p: Node, w: Word, key: Word, i: nat): (r: Grown)
    requires i <= |key|
    ensures i < |key| ==> r.node.words == p.words
    ensures r.grown <= 2 * (|key| - i)
    decreases |key| - i, p
  {
    if i == |key| then
      Grown(p.(words := p.words + {w}), 0)
    else
      match p
      case Nil(ws) =>
        var rt := InsertRecV1(Nil({}), w, key, i + 1);
        Grown(Inner(key[i], Nil({}), rt.node, ws), rt.grown + 2)
      case Inner(s, f, t, ws) =>
        if key[i] < s then
          var rt := InsertRecV1(Nil({}), w, key, i + 1);
          Grown(Inner(key[i], p.(words := {}), rt.node, ws), rt.grown + 1)
        else if s < key[i] then
          var rf := InsertRecV1(f, w, key, i);
          Grown(Inner(s, rf.node, t, ws), rf.grown)
        else
          var rt := InsertRecV1(t, w, key, i + 1);
          Grown(Inner(s, f, rt.node, ws), rt.grown)
  }

  /** The number of splices the insertion of `key` from position `i` performs. */
  ghost function Splices(p: Node, key: Word, i: nat): nat
    requires i <= |key|
    decreases |key| - i, p
  {
    if i == |key| then 0
    else
      match p
      case Nil(_) => 0
      case Inner(s, f, t, _) =>
        if key[i] < s then 1
        else if s < key[i] then Splices(f, key, i)
        else Splices(t, key, i + 1)
  }

  /**
   * This version builds the same tree as the later ones (ordered by `<`),
   * and its node counter falls short of theirs by one for every splice.
   */
  lemma {:induction false} InsertRecAsLater(p: Node, w: Word, key: Word, i: nat)
    requires i <= |key|
    ensures var r1, r := InsertRecV1(p, w, key, i), Nodes.InsertRec(Less, p, w, key, i);
      && r1.node == r.node
      && r1.grown + Splices(p, key, i) == r.grown
    decreases |key| - i, p
  {
    if i < |key| {
      match p
      case Nil(ws) =>
        InsertRecAsLater(Nil({}), w, key, i + 1);
      case Inner(s, f, t, ws) =>
        if key[i] < s {
          InsertRecAsLater(Nil({}), w, key, i + 1);
          InsertFreshGrowth(Less, {}, w, key, i + 1);
          assert Splices(Nil({}), key, i + 1) == 0;
        } else if s < key[i] {
          InsertRecAsLater(f, w, key, i);
        } else {
          InsertRecAsLater(t, w, key, i + 1);
        }
    }
  }

  /**
   * A splice below a node makes the counter miss a node: the subtree gains
   * one node more than the counter is raised by.
   */
  lemma SpliceMiscounts(p: Node, w: Word, key: Word, i: nat)
    requires i < |key| && p.Inner? && key[i] < p.sym
    ensures Count(InsertRecV1(p, w, key, i).node) == Count(p) + InsertRecV1(p, w, key, i).grown + 1
  {
    InsertRecAsLater(p, w, key, i);
    InsertCountsNodes(Less, p, w, key, i);
  }

  /** Inserting "b" and then "a" into an empty tree: the counter says 4, the tree has 5 nodes. */
  lemma SpliceMiscountExample()
    ensures var first := InsertRecV1(Nil({}), ['b' as Sym], ['b' as Sym], 0);
      var second := InsertRecV1(first.node, ['a' as Sym], ['a' as Sym], 0);
      && 1 + first.grown + second.grown == 4
      && Count(second.node) == 5
  {
    var b, a := 'b' as Sym, 'a' as Sym;
    assert {} + {[b]} == {[b]} && {} + {[a]} == {[a]};
    assert InsertRecV1(Nil({}), [b], [b], 1) == Grown(Nil({[b]}), 0);
    var first := InsertRecV1(Nil({}), [b], [b], 0);
    assert first == Grown(Inner(b, Nil({}), Nil({[b]}), {}), 2);
    assert InsertRecV1(Nil({}), [a], [a], 1) == Grown(Nil({[a]}), 0);
    assert a < b;
    var second := InsertRecV1(first.node, [a], [a], 0);
    assert second == Grown(Inner(a, Inner(b, Nil({}), Nil({[b]}), {}), Nil({[a]}), {}), 1);
    assert Count(Inner(b, Nil({}), Nil({[b]}), {})) == 3;
    assert Count(second.node) == 5;
  }

  /** Every NIL node of the subtree that holds words has one of them in `r`. */
  ghost predicate EveryNilPicked(n: Node, r: set<Word>)
  {
    match n
    case Nil(ws) => ws != {} ==> exists w :: w in ws && w in r
    case Inner(_, f, t, _) => EveryNilPicked(f, r) && EveryNilPicked(t, r)
  }

  /** The number of NIL nodes of the subtree that hold words. */
  ghost function FilledNils(n: Node): nat
  {
    match n
    case Nil(ws) => if ws == {} then 0 else 1
    case Inner(_, f, t, _) => FilledNils(f) + FilledNils(t)
  }

  /** A set that picks from every filled NIL node still does after growing. */
  lemma {:induction false} EveryNilPickedGrows(n: Node, r: set<Word>, r': set<Word>)
    requires EveryNilPicked(n, r) && r <= r'
    ensures EveryNilPicked(n, r')
  {
    match n
    case Nil(ws) =>
      if ws != {} {
        var w :| w in ws && w in r;
        assert w in r';
      }
    case Inner(_, f, t, _) =>
      EveryNilPickedGrows(f, r, r');
      EveryNilPickedGrows(t, r, r');
  }

  /**
   * Below every non-NIL node's true edge some NIL node holds words: this
   * version's insertion ends every new word's path on a NIL node, so a word
   * left on a non-NIL node always has a longer word below it.
   */
  ghost predicate TrueFilled(n: Node)
  {
    match n
    case Nil(_) => true
    case Inner(_, f, t, _) => FilledNils(t) > 0 && TrueFilled(f) && TrueFilled(t)
  }

  /** Insertion keeps every true subtree filled, and leaves a NIL node with words in the subtree. */
  lemma {:induction false} InsertKeepsTrueFilled(p: Node, w: Word, key: Word, i: nat)
    requires i <= |key| && TrueFilled(p)
    ensures var r := InsertRecV1(p, w, key, i).node;
      TrueFilled(r) && FilledNils(r) > 0
    decreases |key| - i, p
  {
    if i < |key| {
      match p
      case Nil(ws) =>
        InsertKeepsTrueFilled(Nil({}), w, key, i + 1);
      case Inner(s, f, t, ws) =>
        if key[i] < s {
          InsertKeepsTrueFilled(Nil({}), w, key, i + 1);
          assert TrueFilled(p.(words := {}));
        } else if s < key[i] {
          InsertKeepsTrueFilled(f, w, key, i);
        } else {
          InsertKeepsTrueFilled(t, w, key, i + 1);
        }
    }
  }

  /** A subtree with a NIL node that holds words has one of them in any set that picks from every such node. */
  lemma {:induction false} SomeNilPicked(n: Node, r: set<Word>)
    requires EveryNilPicked(n, r) && FilledNils(n) > 0
    ensures exists u :: u in r && u in NilWords(n)
  {
    match n
    case Nil(ws) =>
      var u :| u in ws && u in r;
    case Inner(_, f, t, _) =>
      if FilledNils(f) > 0 {
        SomeNilPicked(f, r);
        var u :| u in r && u in NilWords(f);
        assert u in NilWords(n);
      } else {
        SomeNilPicked(t, r);
        var u :| u in r && u in NilWords(t);
        assert u in NilWords(n);
      }
  }

  /** The symbols of a prefix of a word occur in the word. */
  lemma PrefixFits(s: Word, k: nat)
    requires k <= |s|
    ensures multiset(s[..k]) <= multiset(s)
  {
    assert s == s[..k] + s[k..];
  }

  /** A word on a non-NIL node is a sub-anagram of a longer picked word below its true edge. */
  lemma InnerWordCovered(s: Sym, f: Node, t: Node, ws: set<Word>, prefix: Word, r: set<Word>, v: Word)
    requires Placed(Less, Inner(s, f, t, ws), prefix) && v in ws
    requires FilledNils(t) > 0 && EveryNilPicked(t, r)
    ensures exists u :: u in r && u != v && multiset(v) <= multiset(u)
  {
    SomeNilPicked(t, r);
    var u :| u in r && u in NilWords(t);
    NilWordsStored(t);
    LongerBelow(t, prefix + [s], u);
    assert Key(Less, v) == prefix;
    KeyLength(Less, v);
  }

  /** A word stored in a subtree placed under `prefix + [s]` is longer than `prefix` and holds its symbols. */
  lemma LongerBelow(t: Node, prefix: Word, u: Word)
    requires |prefix| > 0 && Placed(Less, t, prefix) && u in AllWords(t)
    ensures multiset(prefix[..|prefix| - 1]) <= multiset(u) && |u| >= |prefix|
  {
    KeyShape(Less, t, prefix, u);
    var ku := Key(Less, u);
    var k := |prefix| - 1;
    assert ku[..k] == prefix[..k];
    PrefixFits(ku, k);
    KeyLength(Less, u);
  }

  /**
   * The cover the doc comment of `keys()` promises: in a placed subtree
   * whose true subtrees are filled, every stored word is in a set that picks
   * from every NIL node holding words, or is a sub-anagram of another word of it.
   */
  lemma {:induction false} PickedCover(n: Node, prefix: Word, r: set<Word>)
    requires Placed(Less, n, prefix) && TrueFilled(n) && EveryNilPicked(n, r)
    ensures forall v :: v in AllWords(n) ==>
      v in r || exists u :: u in r && u != v && multiset(v) <= multiset(u)
    decreases n
  {
    match n
    case Nil(ws) =>
      forall v | v in ws && v !in r
        ensures exists u :: u in r && u != v && multiset(v) <= multiset(u)
      {
        var u :| u in ws && u in r;
        assert Key(Less, u) == prefix == Key(Less, v);
        assert multiset(v) == multiset(u);
      }
    case Inner(s, f, t, ws) =>
      PickedCover(f, prefix, r);
      PickedCover(t, prefix + [s], r);
      forall v | v in ws
        ensures exists u :: u in r && u != v && multiset(v) <= multiset(u)
      {
        InnerWordCovered(s, f, t, ws, prefix, r, v);
      }
  }

  /**
   * `keys__rec`: one word, whichever, of every NIL node that holds words,
   * merged with no pruning; nothing else.
   */
  method KeysRec(p: Node) returns (r: set<Word>)
    ensures r <= NilWords(p)
    ensures EveryNilPicked(p, r)
    ensures |r| <= FilledNils(p)
    decreases p
  {
    if p.Nil? {
      r := {};
      if |p.words| > 0 {
        var w :| w in p.words;
        r := {w};
      }
      return;
    }
    var recFalse := KeysRec(p.f);
    var recTrue := KeysRec(p.t);
    r := recFalse + recTrue;
    EveryNilPickedGrows(p.f, recFalse, r);
    EveryNilPickedGrows(p.t, recTrue, r);
  }

  class Anatree {
    var root: Node
    var treeSize: nat

    /** The tree is ordered by `<` and placed; the node counter never exceeds the node count. */
    ghost predicate Valid()
      reads this
    {
      && Nodes.Valid(Less, root)
      && TrueFilled(root)
      && 1 <= treeSize <= Count(root)
    }

    /** The stored words. */
    ghost function Words(): set<Word>
      reads this
    {
      AllWords(root)
    }

    /** An empty tree: a lone NIL root, counted as one node. */
    constructor ()
      ensures Valid() && root == Nil({}) && treeSize == 1
    {
      root := Nil({});
      treeSize := 1;
    }

    /**
     * `insert(w)`: places `w` at the end of its key's path (a stored word is
     * not added twice: the node's set already has it) and raises the counter
     * by what `insert__rec` counts.
     */
    method Insert(w: Word)
      requires Valid() && NIL !in w
      modifies this
      ensures Valid()
      ensures Words() == old(Words()) + {w}
      ensures root == InsertRecV1(old(root), w, SortedWord(Less, w), 0).node
      ensures treeSize == old(treeSize) + InsertRecV1(old(root), w, SortedWord(Less, w), 0).grown
      ensures w in old(Words()) ==> root == old(root) && treeSize == old(treeSize)
    {
      var key := SortedWord(Less, w);
      var r := InsertRecV1(root, w, key, 0);
      InsertValid(Less, root, w);
      InsertRecAsLater(root, w, key, 0);
      InsertKeepsTrueFilled(root, w, key, 0);
      root := r.node;
      treeSize := treeSize + r.grown;
    }

    /** `clear()`: back to a lone NIL root counted as one node. */
    method Clear()
      modifies this
      ensures Valid() && root == Nil({}) && treeSize == 1
    {
      root := Nil({});
      treeSize := 1;
    }

    /**
     * `keys()`: one word from every NIL node that holds words, and no other
     * word; every stored word is returned or is a sub-anagram of another
     * returned word.
     */
    method Keys() returns (r: set<Word>)
      requires Valid()
      ensures r <= NilWords(root) && r <= Words()
      ensures EveryNilPicked(root, r) && |r| <= FilledNils(root)
      ensures forall v :: v in Words() ==>
        v in r || exists u :: u in r && u != v && multiset(v) <= multiset(u)
    {
      r := KeysRec(root);
      NilWordsStored(root);
      PickedCover(root, [], r);
    }

    /** `anagrams_of(w)`: the stored words made of exactly `w`'s symbols. */
    function AnagramsOf(w: Word): (r: set<Word>)
      reads this
      requires Valid()
      ensures r == set v | v in Words() && multiset(v) == multiset(w)
    {
      SortedWordIsKey(Less, w);
      FindNodeAnagrams(Less, root, w);
      AnagramsOfRec(Less, root, SortedWord(Less, w), 0)
    }

    /** `contains(w)`: `w` is among its own stored anagrams, that is, `w` is stored. */
    function Contains(w: Word): (r: bool)
      reads this
      requires Valid()
      ensures r <==> w in Words()
    {
      w in AnagramsOf(w)
    }

    /** `subanagrams_of(w)`: the stored words whose symbols, with repetition, all occur in `w`. */
    method SubanagramsOf(w: Word) returns (r: set<Word>)
      requires Valid()
      ensures r == set v | v in Words() && multiset(v) <= multiset(w)
    {
      var key := SortedWord(Less, w);
      SortedWordIsKey(Less, w);
      r := SubanagramsRec(Less, root, key, 0);
      SubanagramsOfWord(Less, root, w);
    }

    /** `tree_size()`: the node counter, at most the number of nodes. */
    function TreeSize(): (r: nat)
      reads this
      requires Valid()
      ensures 1 <= r <= Count(root)
    {
      treeSize
    }
  }
}
