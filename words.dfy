/**
 * Symbols, words and canonical keys of the Anatree.
 *
 * A word is a sequence of symbols. Its key is the same symbols sorted by the
 * tree's comparator (`sorted_word`); two words are anagrams exactly when their
 * keys are equal.
 */
module Words {

  /** One symbol of a word (a character code). */
  type Sym = int

  /** The value the C++ node uses for "no symbol assigned"; never a real input symbol. */
  const NIL: Sym := 0

  type Word = seq<Sym>

  /** The symbol ordering the tree is instantiated with: `std::less` or `std::greater`. */
  datatype Comparator = Less | Greater

  /** The comparator applied to `a` and `b`: `a` sorts strictly before `b`. */
  predicate Before(cmp: Comparator, a: Sym, b: Sym)
  {
    match cmp
    case Less => a < b
    case Greater => a > b
  }

  /** Each comparator is a strict total order on symbols. */
  lemma BeforeIsStrictTotalOrder(cmp: Comparator, a: Sym, b: Sym, c: Sym)
    ensures !Before(cmp, a, a)
    ensures Before(cmp, a, b) ==> !Before(cmp, b, a)
    ensures Before(cmp, a, b) && Before(cmp, b, c) ==> Before(cmp, a, c)
    ensures a != b ==> Before(cmp, a, b) || Before(cmp, b, a)
  {
  }

  /** `s` is ordered by the comparator: no symbol sorts before one on its left. */
  ghost predicate Sorted(cmp: Comparator, s: Word)
  {
    forall i, j :: 0 <= i < j < |s| ==> !Before(cmp, s[j], s[i])
  }

  /** Inserts `x` into `s` in front of the first symbol not before it. */
  function InsertSorted(cmp: Comparator, x: Sym, s: Word): (r: Word)
    ensures |r| == |s| + 1
  {
    if s == [] || !Before(cmp, s[0], x) then [x] + s
    else [s[0]] + InsertSorted(cmp, x, s[1..])
  }

  /** Insertion adds the symbol once and nothing else. */
  lemma {:induction false} InsertSortedPermutes(cmp: Comparator, x: Sym, s: Word)
    ensures multiset(InsertSorted(cmp, x, s)) == multiset(s) + multiset{x}
  {
    if s != [] && Before(cmp, s[0], x) {
      InsertSortedPermutes(cmp, x, s[1..]);
      assert s == [s[0]] + s[1..];
    }
  }

  /** A sorted word stays sorted with a symbol put in front that sorts before none of it. */
  lemma ConsSorted(cmp: Comparator, x: Sym, s: Word)
    requires Sorted(cmp, s)
    requires forall y :: y in multiset(s) ==> !Before(cmp, y, x)
    ensures Sorted(cmp, [x] + s)
  {
    var r := [x] + s;
    forall i, j | 0 <= i < j < |r| ensures !Before(cmp, r[j], r[i]) {
      assert r[j] == s[j - 1];
      assert s[j - 1] in multiset(s);
      if i > 0 {
        assert r[i] == s[i - 1];
      }
    }
  }

  /** Insertion into a sorted word keeps it sorted. */
  lemma {:induction false} InsertSortedKeepsSorted(cmp: Comparator, x: Sym, s: Word)
    requires Sorted(cmp, s)
    ensures Sorted(cmp, InsertSorted(cmp, x, s))
  {
    if s == [] || !Before(cmp, s[0], x) {
      forall y | y in multiset(s) ensures !Before(cmp, y, x) {
        SortedHeadLeast(cmp, s, y);
        BeforeIsStrictTotalOrder(cmp, y, s[0], x);
      }
      ConsSorted(cmp, x, s);
    } else {
      var rest := InsertSorted(cmp, x, s[1..]);
      SortedTail(cmp, s);
      InsertSortedKeepsSorted(cmp, x, s[1..]);
      InsertSortedPermutes(cmp, x, s[1..]);
      HeadLeastAfterInsert(cmp, x, s, rest);
      ConsSorted(cmp, s[0], rest);
    }
  }

  /** The head of a sorted word stays least once a later symbol joins its tail. */
  lemma HeadLeastAfterInsert(cmp: Comparator, x: Sym, s: Word, rest: Word)
    requires Sorted(cmp, s) && s != [] && Before(cmp, s[0], x)
    requires multiset(rest) == multiset(s[1..]) + multiset{x}
    ensures forall y :: y in multiset(rest) ==> !Before(cmp, y, s[0])
  {
    forall y | y in multiset(rest) ensures !Before(cmp, y, s[0]) {
      if y != x {
        assert s == [s[0]] + s[1..];
        assert y in multiset(s);
        SortedHeadLeast(cmp, s, y);
      }
    }
  }

  /**
   * `sorted_word`: the word's symbols sorted by the comparator (an insertion
   * sort; the result is the key, see SortedWordIsKey).
   */
  function SortedWord(cmp: Comparator, w: Word): (key: Word)
    ensures |key| == |w|
  {
    if w == [] then [] else InsertSorted(cmp, w[0], SortedWord(cmp, w[1..]))
  }

  /** The sorted word is sorted and holds exactly the symbols of the word, each as often. */
  lemma {:induction false} SortedWordPermutes(cmp: Comparator, w: Word)
    ensures Sorted(cmp, SortedWord(cmp, w))
    ensures multiset(SortedWord(cmp, w)) == multiset(w)
  {
    if w != [] {
      SortedWordPermutes(cmp, w[1..]);
      InsertSortedPermutes(cmp, w[0], SortedWord(cmp, w[1..]));
      InsertSortedKeepsSorted(cmp, w[0], SortedWord(cmp, w[1..]));
      assert w == [w[0]] + w[1..];
    }
  }

  /**
   * The key of a word: the one sequence that is sorted by the comparator and
   * made of the word's symbols. The tree's invariants are stated with it.
   */
  ghost function Key(cmp: Comparator, w: Word): (key: Word)
    ensures Sorted(cmp, key) && multiset(key) == multiset(w)
  {
    SortedWordPermutes(cmp, w);
    var k :| Sorted(cmp, k) && multiset(k) == multiset(w); k
  }

  /** No symbol of a sorted word sorts before its first symbol. */
  lemma SortedHeadLeast(cmp: Comparator, a: Word, y: Sym)
    requires Sorted(cmp, a) && y in multiset(a)
    ensures !Before(cmp, y, a[0])
  {
    var j :| 0 <= j < |a| && a[j] == y;
    if j > 0 {
      assert !Before(cmp, a[j], a[0]);
    }
  }

  /** Dropping the first symbol of a sorted word leaves it sorted. */
  lemma SortedTail(cmp: Comparator, a: Word)
    requires Sorted(cmp, a) && a != []
    ensures Sorted(cmp, a[1..])
  {
    forall i, j | 0 <= i < j < |a| - 1 ensures !Before(cmp, a[1..][j], a[1..][i]) {
      assert a[1..][j] == a[j + 1] && a[1..][i] == a[i + 1];
    }
  }

  /** Two words sorted by the same comparator and made of the same symbols are equal. */
  lemma {:induction false} SortedUnique(cmp: Comparator, a: Word, b: Word)
    requires Sorted(cmp, a) && Sorted(cmp, b)
    requires multiset(a) == multiset(b)
    ensures a == b
    decreases |a|
  {
    assert |a| == |multiset(a)| == |multiset(b)| == |b|;
    if a != [] {
      assert a[0] in multiset(a) && b[0] in multiset(b);
      SortedHeadLeast(cmp, b, a[0]);
      SortedHeadLeast(cmp, a, b[0]);
      BeforeIsStrictTotalOrder(cmp, a[0], b[0], a[0]);
      assert a[0] == b[0];
      assert a == [a[0]] + a[1..];
      assert b == [b[0]] + b[1..];
      calc {
        multiset(a[1..]);
        multiset(a) - multiset{a[0]};
        multiset(b) - multiset{b[0]};
        multiset(b[1..]);
      }
      SortedTail(cmp, a);
      SortedTail(cmp, b);
      SortedUnique(cmp, a[1..], b[1..]);
    }
  }

  /** `sorted_word` computes the key. */
  lemma SortedWordIsKey(cmp: Comparator, w: Word)
    ensures SortedWord(cmp, w) == Key(cmp, w)
  {
    SortedWordPermutes(cmp, w);
    SortedUnique(cmp, SortedWord(cmp, w), Key(cmp, w));
  }

  /** A key is as long as its word. */
  lemma KeyLength(cmp: Comparator, w: Word)
    ensures |Key(cmp, w)| == |w|
  {
    assert |Key(cmp, w)| == |multiset(Key(cmp, w))| == |multiset(w)| == |w|;
  }

  /** Two words have the same key exactly when they are anagrams of each other. */
  lemma SameKeyIffAnagram(cmp: Comparator, v: Word, w: Word)
    ensures Key(cmp, v) == Key(cmp, w) <==> multiset(v) == multiset(w)
  {
    if multiset(v) == multiset(w) {
      SortedUnique(cmp, Key(cmp, v), Key(cmp, w));
    }
  }

  /** A word holds no sentinel symbol exactly when its key holds none. */
  lemma KeyNilFree(cmp: Comparator, w: Word)
    ensures NIL in Key(cmp, w) <==> NIL in w
  {
    var key := Key(cmp, w);
    assert NIL in key <==> NIL in multiset(key);
    assert NIL in w <==> NIL in multiset(w);
  }

  /** A set with one more element has one more member. */
  lemma CardAddNew(s: set<Word>, w: Word)
    requires w !in s
    ensures |s + {w}| == |s| + 1
  {
  }
}
