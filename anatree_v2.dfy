/**
 * The earlier Anatree of the top-level `anatree.h`: the same tree, insertion
 * and counters as the later version, anagram and sub-anagram queries that
 * return fresh sets, the fixed-length `keys(len)`, and a `keys()` that is
 * still a stub returning nothing.
 */
module AnatreeV2 {
  import opened Words
  import opened Nodes

  class Anatree {
    const cmp: Comparator
    var root: Node
    var size: nat
    var treeSize: nat

    /** The tree is ordered and placed, and both counters are exact. */
    ghost predicate Valid()
      reads this
    {
      && Nodes.Valid(cmp, root)
      && size == |AllWords(root)|
      && treeSize == Count(root)
    }

    /** The stored words. */
    ghost function Words(): set<Word>
      reads this
    {
      AllWords(root)
    }

    /** An empty tree: a lone NIL root, no words, one node. */
    constructor (cmp: Comparator)
      ensures Valid() && this.cmp == cmp
      ensures root == Nil({}) && size == 0 && treeSize == 1
    {
      this.cmp := cmp;
      root := Nil({});
      size := 0;
      treeSize := 1;
    }

    /** The copy constructor: a deep copy of the other tree's nodes and its counters. */
    constructor Copy(a: Anatree)
      ensures cmp == a.cmp && root == a.root && size == a.size && treeSize == a.treeSize
    {
      cmp := a.cmp;
      root := DeepCopy(a.root);
      size := a.size;
      treeSize := a.treeSize;
    }

    /**
     * `insert(w)`: places `w` at the end of its key's path; the word counter
     * grows exactly when `w` is new, the node counter by the nodes allocated.
     */
    method Insert(w: Word)
      requires Valid() && NIL !in w
      modifies this
      ensures Valid()
      ensures Words() == old(Words()) + {w}
      ensures size == old(size) + (if w in old(Words()) then 0 else 1)
      ensures root == InsertRec(cmp, old(root), w, SortedWord(cmp, w), 0).node
      ensures treeSize == old(treeSize) + InsertRec(cmp, old(root), w, SortedWord(cmp, w), 0).grown
      ensures w in old(Words()) ==> root == old(root) && treeSize == old(treeSize)
    {
      var key := SortedWord(cmp, w);
      var r := InsertRec(cmp, root, w, key, 0);
      InsertValid(cmp, root, w);
      if r.added {
        CardAddNew(AllWords(root), w);
        size := size + 1;
      } else {
        assert AllWords(root) + {w} == AllWords(root);
      }
      root := r.node;
      treeSize := treeSize + r.grown;
    }

    /** `clear()`: back to a lone NIL root. */
    method Clear()
      modifies this
      ensures Valid()
      ensures root == Nil({}) && size == 0 && treeSize == 1
    {
      root := Nil({});
      size := 0;
      treeSize := 1;
    }

    /** `keys()`: the unfinished version returns no word at all, whatever is stored. */
    method Keys() returns (r: set<Word>)
      ensures r == {}
    {
      r := {};
    }

    /**
     * `keys(len)`: stored words of length `len`, at least one anagram of each
     * such word and no two anagrams of each other.
     */
    method KeysOfLength(len: nat) returns (r: set<Word>)
      requires Valid()
      ensures Representatives(r, Words(), len)
    {
      r := Nodes.KeysOfLength(cmp, len, root, 0, []);
    }

    /** `anagrams_of(w)`: the stored words made of exactly `w`'s symbols. */
    function AnagramsOf(w: Word): (r: set<Word>)
      reads this
      requires Valid()
      ensures r == set v | v in Words() && multiset(v) == multiset(w)
    {
      SortedWordIsKey(cmp, w);
      FindNodeAnagrams(cmp, root, w);
      AnagramsOfRec(cmp, root, SortedWord(cmp, w), 0)
    }

    /** `contains(w)`: `w` is among its own stored anagrams, that is, `w` is stored. */
    function Contains(w: Word): (r: bool)
      reads this
      requires Valid()
      ensures r <==> w in Words()
    {
      w in AnagramsOf(w)
    }

    /** `subanagrams_of(w)`: the stored words whose symbols, with repetition, all occur in `w`. */
    method SubanagramsOf(w: Word) returns (r: set<Word>)
      requires Valid()
      ensures r == set v | v in Words() && multiset(v) <= multiset(w)
    {
      var key := SortedWord(cmp, w);
      SortedWordIsKey(cmp, w);
      r := SubanagramsRec(cmp, root, key, 0);
      SubanagramsOfWord(cmp, root, w);
    }

    /** `size()`: the number of stored words. */
    function Size(): (r: nat)
      reads this
      requires Valid()
      ensures r == |Words()|
    {
      size
    }

    /** `empty()`: no word is stored. */
    function Empty(): (r: bool)
      reads this
      requires Valid()
      ensures r <==> Words() == {}
    {
      Size() == 0
    }

    /** `tree_size()`: the number of nodes, twice the non-NIL ones plus one. */
    function TreeSize(): (r: nat)
      reads this
      requires Valid()
      ensures r == Count(root) == 2 * InnerCount(root) + 1
    {
      CountIsTwiceInnerPlusOne(root);
      treeSize
    }
  }
}
