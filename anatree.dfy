/**
 * The Anatree of `anatree/anatree.h`: a tree object with a comparator, a word
 * counter and a node counter, exact and sub-anagram queries, the
 * fixed-length representatives `keys(len)` and the pruning `keys()`.
 */
module Anatree {
  import opened Words
  import opened Nodes

  // ---------------------------------------------------------------------------
  // keys(): local keys and pruning

  /**
   * The backward scan of `keys__rec` comparing a false-branch local key `fk`
   * with a true-branch one `tk`; `a` and `b` count the symbols of each not
   * yet read. A symbol of `tk` before the current one of `fk` is skipped,
   * equal symbols are read together, a symbol of `tk` after it ends the scan.
   * `fk` is superseded when both keys run out together.
   */
  function ScanSupersedes(cmp: Comparator, fk: Word, tk: Word, a: nat, b: nat): (r: bool)
    requires a <= |fk| && b <= |tk|
    ensures r ==> multiset(fk[..a]) <= multiset(tk[..b])
    decreases a + b
  {
    if a == 0 || b == 0 then
      a == 0 && b == 0
    else if Before(cmp, tk[b - 1], fk[a - 1]) then
      assert tk[..b] == tk[..b - 1] + [tk[b - 1]];
      ScanSupersedes(cmp, fk, tk, a, b - 1)
    else if fk[a - 1] == tk[b - 1] then
      assert tk[..b] == tk[..b - 1] + [tk[b - 1]];
      assert fk[..a] == fk[..a - 1] + [fk[a - 1]];
      ScanSupersedes(cmp, fk, tk, a - 1, b - 1)
    else
      false
  }

  /** `fk` is superseded by `tk`: the scan over the whole of both keys succeeds. */
  ghost predicate Superseded(cmp: Comparator, fk: Word, tk: Word)
  {
    ScanSupersedes(cmp, fk, tk, |fk|, |tk|)
  }

  /** The while loop of `keys__rec` over the indices of both keys. */
  method Scan(cmp: Comparator, fk: Word, tk: Word) returns (superseded: bool)
    ensures superseded == Superseded(cmp, fk, tk)
    ensures superseded ==> multiset(fk) <= multiset(tk)
  {
    var fi: int := |fk| - 1;
    var ti: int := |tk| - 1;
    while 0 <= fi && 0 <= ti
      invariant -1 <= fi < |fk| && -1 <= ti < |tk|
      invariant ScanSupersedes(cmp, fk, tk, fi + 1, ti + 1) == Superseded(cmp, fk, tk)
      decreases fi + ti
    {
      var fc, tc := fk[fi], tk[ti];
      if Before(cmp, tc, fc) {
        ti := ti - 1;
      } else if fc == tc {
        fi := fi - 1;
        ti := ti - 1;
      } else {
        break;
      }
    }
    superseded := fi < 0 && ti < 0;
    assert fk[..|fk|] == fk && tk[..|tk|] == tk;
  }

  /** Check (b) of `keys__rec`: some true-branch local key supersedes `fk`. */
  method SupersededByAny(cmp: Comparator, fk: Word, recTrue: map<Word, Word>) returns (superseded: bool)
    ensures superseded <==> exists tk :: tk in recTrue && Superseded(cmp, fk, tk)
  {
    superseded := false;
    var todo := recTrue.Keys;
    while todo != {}
      invariant todo <= recTrue.Keys
      invariant forall tk :: tk in recTrue && tk !in todo ==> !Superseded(cmp, fk, tk)
      decreases |todo|
    {
      var tk :| tk in todo;
      superseded := Scan(cmp, fk, tk);
      if superseded {
        return;
      }
      todo := todo - {tk};
    }
  }

  /**
   * A false-branch entry survives the pruning: its value is not a key of the
   * true-branch map (check (a)) and no true-branch key supersedes its key (check (b)).
   */
  ghost predicate Survives(cmp: Comparator, fk: Word, fv: Word, recTrue: map<Word, Word>)
  {
    && fv !in recTrue
    && forall tk :: tk in recTrue ==> !Superseded(cmp, fk, tk)
  }

  /** The surviving entries among the false-branch keys in `done`. */
  ghost function Surviving(cmp: Comparator, recFalse: map<Word, Word>, recTrue: map<Word, Word>, done: set<Word>): map<Word, Word>
  {
    map fk | fk in recFalse && fk in done && Survives(cmp, fk, recFalse[fk], recTrue) :: recFalse[fk]
  }

  /** Every local key of `m` with the node's symbol `c` appended, mapped to the same word. */
  ghost function Lift(c: Sym, m: map<Word, Word>): map<Word, Word>
  {
    assert forall k :: k in m ==> (k + [c])[..|k + [c]| - 1] == k;
    map k | k in (set fk | fk in m :: fk + [c]) :: m[k[..|k| - 1]]
  }

  /** The entries of a lifted map: one per entry of `m`, under its key with `c` appended. */
  lemma LiftEntries(c: Sym, m: map<Word, Word>)
    ensures var r := Lift(c, m);
      && (forall k :: k in m ==> k + [c] in r && r[k + [c]] == m[k])
      && (forall k :: k in r ==> |k| > 0 && k[..|k| - 1] in m && k == k[..|k| - 1] + [c] && r[k] == m[k[..|k| - 1]])
  {
    var r := Lift(c, m);
    forall k | k in m ensures k + [c] in r && r[k + [c]] == m[k] {
      assert (k + [c])[..|k + [c]| - 1] == k;
    }
  }

  /** Lifting commutes with adding one entry. */
  lemma LiftUpdate(c: Sym, m: map<Word, Word>, k: Word, v: Word)
    ensures Lift(c, m[k := v]) == Lift(c, m)[k + [c] := v]
  {
    LiftUpdateWithin(c, m, k, v);
    LiftUpdateCovers(c, m, k, v);
  }

  /** Every entry of the lifted updated map is an entry of the updated lifted map. */
  lemma LiftUpdateWithin(c: Sym, m: map<Word, Word>, k: Word, v: Word)
    ensures var l, r := Lift(c, m[k := v]), Lift(c, m)[k + [c] := v];
      forall x :: x in l ==> x in r && l[x] == r[x]
  {
    var mk := m[k := v];
    var l, r := Lift(c, mk), Lift(c, m)[k + [c] := v];
    LiftEntries(c, mk);
    LiftEntries(c, m);
    assert (k + [c])[..|k + [c]| - 1] == k;
    forall x | x in l ensures x in r && l[x] == r[x] {
      var x0 := x[..|x| - 1];
      if x0 != k {
        assert x0 in m && Lift(c, m)[x0 + [c]] == m[x0];
      }
    }
  }

  /** Every key of the updated lifted map is a key of the lifted updated map. */
  lemma LiftUpdateCovers(c: Sym, m: map<Word, Word>, k: Word, v: Word)
    ensures Lift(c, m)[k + [c] := v].Keys <= Lift(c, m[k := v]).Keys
  {
    var mk := m[k := v];
    LiftEntries(c, mk);
    LiftEntries(c, m);
    forall x | x in Lift(c, m)[k + [c] := v] ensures x in Lift(c, mk) {
      if x != k + [c] {
        var x0 := x[..|x| - 1];
        assert x0 in m && x == x0 + [c];
        assert x0 in mk;
      }
    }
  }

  /**
   * The map `keys__rec` returns for a non-NIL node with symbol `c`: the
   * surviving false-branch entries and then every true-branch entry, each
   * local key extended by `c`; a true-branch entry overwrites a false-branch
   * one with the same extended key.
   */
  ghost function Combine(cmp: Comparator, c: Sym, recFalse: map<Word, Word>, recTrue: map<Word, Word>): map<Word, Word>
  {
    Lift(c, Surviving(cmp, recFalse, recTrue, recFalse.Keys)) + Lift(c, recTrue)
  }

  /** Every true-branch entry is in the combined map, under its key extended by `c`. */
  lemma CombineKeepsTrue(cmp: Comparator, c: Sym, recFalse: map<Word, Word>, recTrue: map<Word, Word>)
    ensures var r := Combine(cmp, c, recFalse, recTrue);
      forall tk :: tk in recTrue ==> tk + [c] in r && r[tk + [c]] == recTrue[tk]
  {
    LiftEntries(c, recTrue);
  }

  /**
   * A false-branch entry whose key no true-branch key repeats is in the
   * combined map, under its key extended by `c`, exactly when it survives.
   */
  lemma CombineKeepsSurvivors(cmp: Comparator, c: Sym, recFalse: map<Word, Word>, recTrue: map<Word, Word>, fk: Word)
    requires fk in recFalse && fk !in recTrue
    ensures var r := Combine(cmp, c, recFalse, recTrue);
      && (fk + [c] in r <==> Survives(cmp, fk, recFalse[fk], recTrue))
      && (fk + [c] in r ==> r[fk + [c]] == recFalse[fk])
  {
    var s := Surviving(cmp, recFalse, recTrue, recFalse.Keys);
    var k := fk + [c];
    assert k[..|k| - 1] == fk;
    LiftEntries(c, s);
    LiftEntries(c, recTrue);
    assert k !in Lift(c, recTrue);
  }

  /** Every key of the combined map is a child's local key extended by `c`. */
  lemma CombineShape(cmp: Comparator, c: Sym, recFalse: map<Word, Word>, recTrue: map<Word, Word>, k: Word)
    requires k in Combine(cmp, c, recFalse, recTrue)
    ensures |k| > 0 && k[|k| - 1] == c
    ensures k[..|k| - 1] in recFalse || k[..|k| - 1] in recTrue
  {
    LiftEntries(c, Surviving(cmp, recFalse, recTrue, recFalse.Keys));
    LiftEntries(c, recTrue);
    assert k == k[..|k| - 1] + [c];
  }

  /**
   * The maps `keys__rec` may return for the subtree (the word picked from a
   * NIL node's set is any of them): a NIL node maps the empty local key to
   * one of its words, if it has any; a non-NIL node combines maps of its children.
   */
  ghost predicate IsKeysMap(cmp: Comparator, n: Node, m: map<Word, Word>)
    decreases n
  {
    match n
    case Nil(ws) =>
      if ws == {} then m == map[] else exists w :: w in ws && m == map[[] := w]
    case Inner(c, f, t, _) =>
      exists recFalse, recTrue ::
        && IsKeysMap(cmp, f, recFalse)
        && IsKeysMap(cmp, t, recTrue)
        && m == Combine(cmp, c, recFalse, recTrue)
  }

  /** Every word `keys__rec` reports sits on a NIL node of the subtree. */
  lemma {:induction false} KeysFromNil(cmp: Comparator, n: Node, m: map<Word, Word>)
    requires IsKeysMap(cmp, n, m)
    ensures m.Values <= NilWords(n)
    decreases n
  {
    match n
    case Nil(ws) =>
    case Inner(c, f, t, _) =>
      var recFalse, recTrue :|
        && IsKeysMap(cmp, f, recFalse)
        && IsKeysMap(cmp, t, recTrue)
        && m == Combine(cmp, c, recFalse, recTrue);
      KeysFromNil(cmp, f, recFalse);
      KeysFromNil(cmp, t, recTrue);
      var s := Surviving(cmp, recFalse, recTrue, recFalse.Keys);
      LiftEntries(c, s);
      LiftEntries(c, recTrue);
      forall v | v in m.Values ensures v in NilWords(f) + NilWords(t) {
        var k :| k in m && m[k] == v;
        if k in Lift(c, recTrue) {
          assert recTrue[k[..|k| - 1]] == v;
        } else {
          assert s[k[..|k| - 1]] == v;
          assert recFalse[k[..|k| - 1]] == v;
        }
      }
  }

  /** Deciding one more false-branch key adds its entry exactly when it survives. */
  lemma SurvivingStep(cmp: Comparator, recFalse: map<Word, Word>, recTrue: map<Word, Word>, done: set<Word>, fk: Word)
    requires fk in recFalse && fk !in done
    ensures Surviving(cmp, recFalse, recTrue, done + {fk})
         == if Survives(cmp, fk, recFalse[fk], recTrue)
            then Surviving(cmp, recFalse, recTrue, done)[fk := recFalse[fk]]
            else Surviving(cmp, recFalse, recTrue, done)
  {
  }

  /** The words `m` maps the keys in `done` to. */
  ghost function ValuesOf(m: map<Word, Word>, done: set<Word>): set<Word>
  {
    set k | k in m && k in done :: m[k]
  }

  /** Copying one more key's word. */
  lemma ValuesOfStep(m: map<Word, Word>, done: set<Word>, k: Word)
    requires k in m
    ensures ValuesOf(m, done + {k}) == ValuesOf(m, done) + {m[k]}
  {
  }

  /** Once every key is copied, so is every word of the map. */
  lemma ValuesOfAll(m: map<Word, Word>)
    ensures ValuesOf(m, m.Keys) == m.Values
  {
  }

  /** The loop of `keys()`: collects the words of the map. */
  method MapValues(m: map<Word, Word>) returns (r: set<Word>)
    ensures r == m.Values
  {
    r := {};
    var todo := m.Keys;
    ghost var done: set<Word> := {};
    while todo != {}
      invariant todo <= m.Keys && done == m.Keys - todo
      invariant r == ValuesOf(m, done)
      decreases |todo|
    {
      var k :| k in todo;
      ValuesOfStep(m, done, k);
      r := r + {m[k]};
      todo := todo - {k};
      done := done + {k};
    }
    ValuesOfAll(m);
  }

  /** Overwriting an entry of a merged map is overwriting it in the right operand. */
  lemma MergeUpdate(a: map<Word, Word>, b: map<Word, Word>, k: Word, v: Word)
    ensures (a + b)[k := v] == a + b[k := v]
  {
  }

  /** Before the first loop nothing has been copied. */
  lemma SurvivingNone(cmp: Comparator, recFalse: map<Word, Word>, recTrue: map<Word, Word>)
    ensures Surviving(cmp, recFalse, recTrue, {}) == map[]
  {
  }

  /** Lifting the empty map gives the empty map. */
  lemma LiftEmpty(c: Sym)
    ensures Lift(c, map[]) == map[]
  {
  }

  /** Before the first loop nothing has been copied. */
  lemma KeepStart(cmp: Comparator, c: Sym, recFalse: map<Word, Word>, recTrue: map<Word, Word>)
    ensures Lift(c, Surviving(cmp, recFalse, recTrue, {})) == map[]
  {
    SurvivingNone(cmp, recFalse, recTrue);
    LiftEmpty(c);
  }

  /** Deciding one more false-branch key adds its lifted entry exactly when it survives. */
  lemma KeepStep(cmp: Comparator, c: Sym, recFalse: map<Word, Word>, recTrue: map<Word, Word>, done: set<Word>, fk: Word)
    requires fk in recFalse && fk !in done
    ensures Lift(c, Surviving(cmp, recFalse, recTrue, done + {fk}))
         == if Survives(cmp, fk, recFalse[fk], recTrue)
            then Lift(c, Surviving(cmp, recFalse, recTrue, done))[fk + [c] := recFalse[fk]]
            else Lift(c, Surviving(cmp, recFalse, recTrue, done))
  {
    SurvivingStep(cmp, recFalse, recTrue, done, fk);
    LiftUpdate(c, Surviving(cmp, recFalse, recTrue, done), fk, recFalse[fk]);
  }

  /** The first loop of `keys__rec`: copies the surviving false-branch entries. */
  method KeepSurviving(cmp: Comparator, c: Sym, recFalse: map<Word, Word>, recTrue: map<Word, Word>) returns (m: map<Word, Word>)
    ensures m == Lift(c, Surviving(cmp, recFalse, recTrue, recFalse.Keys))
  {
    m := map[];
    var todo := recFalse.Keys;
    ghost var done: set<Word> := {};
    KeepStart(cmp, c, recFalse, recTrue);
    while todo != {}
      invariant todo <= recFalse.Keys && done == recFalse.Keys - todo
      invariant m == Lift(c, Surviving(cmp, recFalse, recTrue, done))
      decreases |todo|
    {
      var fk :| fk in todo;
      var fv := recFalse[fk];
      KeepStep(cmp, c, recFalse, recTrue, done, fk);
      todo := todo - {fk};
      done := done + {fk};
      if fv in recTrue {
        continue;
      }
      var superseded := SupersededByAny(cmp, fk, recTrue);
      if superseded {
        continue;
      }
      m := m[fk + [c] := fv];
    }
    assert done == recFalse.Keys;
  }

  /** With every key still to copy, nothing is copied yet. */
  lemma AddTrueStart(c: Sym, m0: map<Word, Word>, recTrue: map<Word, Word>)
    ensures m0 + Lift(c, recTrue - recTrue.Keys) == m0
  {
    assert recTrue - recTrue.Keys == map[];
    LiftEmpty(c);
  }

  /** Copying one more true-branch entry overwrites the entry under its extended key. */
  lemma AddTrueStep(c: Sym, m0: map<Word, Word>, recTrue: map<Word, Word>, todo: set<Word>, tk: Word)
    requires tk in recTrue && tk in todo
    ensures m0 + Lift(c, recTrue - (todo - {tk}))
         == (m0 + Lift(c, recTrue - todo))[tk + [c] := recTrue[tk]]
  {
    assert recTrue - (todo - {tk}) == (recTrue - todo)[tk := recTrue[tk]];
    LiftUpdate(c, recTrue - todo, tk, recTrue[tk]);
    MergeUpdate(m0, Lift(c, recTrue - todo), tk + [c], recTrue[tk]);
  }

  /** The second loop of `keys__rec`: copies every true-branch entry, overwriting. */
  method AddTrue(c: Sym, m0: map<Word, Word>, recTrue: map<Word, Word>) returns (m: map<Word, Word>)
    ensures m == m0 + Lift(c, recTrue)
  {
    m := m0;
    var todo := recTrue.Keys;
    AddTrueStart(c, m0, recTrue);
    while todo != {}
      invariant todo <= recTrue.Keys
      invariant m == m0 + Lift(c, recTrue - todo)
      decreases |todo|
    {
      var tk :| tk in todo;
      AddTrueStep(c, m0, recTrue, todo, tk);
      m := m[tk + [c] := recTrue[tk]];
      todo := todo - {tk};
    }
    assert recTrue - todo == recTrue;
  }

  /**
   * `keys__rec(p)`: a NIL node gives its empty local key one of its words;
   * a non-NIL node combines its children's maps.
   */
  method KeysRec(cmp: Comparator, p: Node) returns (m: map<Word, Word>)
    ensures IsKeysMap(cmp, p, m)
    decreases p
  {
    if p.Nil? {
      m := map[];
      if |p.words| > 0 {
        var w :| w in p.words;
        m := m[[] := w];
      }
      return;
    }
    var recTrue := KeysRec(cmp, p.t);
    var recFalse := KeysRec(cmp, p.f);
    m := KeepSurviving(cmp, p.sym, recFalse, recTrue);
    m := AddTrue(p.sym, m, recTrue);
    assert m == Combine(cmp, p.sym, recFalse, recTrue);
  }

  // ---------------------------------------------------------------------------
  // subanagrams_of: accumulator form

  /**
   * The key positions read by the guard of `subanagrams_of__rec`'s skip loop
   * as it is written, starting at position `i`: the guard reads the symbol at
   * the current position before it compares the position with the key's end.
   */
  function SkipGuardReads(cmp: Comparator, key: Word, i: nat, s: Sym): (r: seq<nat>)
    requires i <= |key|
    ensures |r| >= 1 && r[0] == i
    ensures forall k :: 0 <= k < |r| - 1 ==> r[k] < |key| && Before(cmp, key[r[k]], s)
    decreases |key| - i
  {
    if i < |key| && Before(cmp, key[i], s) then [i] + SkipGuardReads(cmp, key, i + 1, s) else [i]
  }

  /**
   * The guard as written reads the position one past the key's end exactly
   * when every remaining key symbol is before the node's symbol (in
   * particular, whenever the key is already used up).
   */
  lemma {:induction false} SkipGuardReadsPastEnd(cmp: Comparator, key: Word, i: nat, s: Sym)
    requires i <= |key|
    ensures |key| in SkipGuardReads(cmp, key, i, s) <==> forall k :: i <= k < |key| ==> Before(cmp, key[k], s)
    decreases |key| - i
  {
    var r := SkipGuardReads(cmp, key, i, s);
    if i < |key| {
      SkipGuardReadsPastEnd(cmp, key, i + 1, s);
      if Before(cmp, key[i], s) {
        assert r == [i] + SkipGuardReads(cmp, key, i + 1, s);
        assert |key| in r <==> |key| in SkipGuardReads(cmp, key, i + 1, s);
      } else {
        assert r == [i];
      }
    }
  }

  /**
   * `subanagrams_of__rec`: adds the node's words to the accumulator; unless
   * the node is NIL, a loop skips the key symbols before the node's symbol,
   * then an exhausted key stops, a node symbol before the key symbol follows
   * the false edge, and an equal one consumes the symbol on both edges.
   */
  method SubanagramsInto(cmp: Comparator, p: Node, key: Word, i: nat, res: set<Word>) returns (res': set<Word>)
    requires i <= |key|
    ensures res' == res + Subanagrams(cmp, p, key, i)
    decreases |key| - i, p
  {
    res' := res + p.words;
    if p.Nil? {
      return;
    }
    var j := i;
    while j < |key| && Before(cmp, key[j], p.sym)
      invariant i <= j <= |key|
      invariant Subanagrams(cmp, p, key, j) == Subanagrams(cmp, p, key, i)
    {
      j := j + 1;
    }
    if j == |key| {
      return;
    }
    if Before(cmp, p.sym, key[j]) {
      res' := SubanagramsInto(cmp, p.f, key, j, res');
      return;
    }
    res' := SubanagramsInto(cmp, p.f, key, j + 1, res');
    res' := SubanagramsInto(cmp, p.t, key, j + 1, res');
  }

  /** The words of a sequence of words. */
  ghost function ElemsOf(ws: seq<Word>): set<Word>
  {
    set w | w in ws
  }

  /** One more word of the sequence adds that word. */
  lemma ElemsStep(ws: seq<Word>, k: nat)
    requires k < |ws|
    ensures ElemsOf(ws[..k + 1]) == ElemsOf(ws[..k]) + {ws[k]}
  {
    assert ws[..k + 1] == ws[..k] + [ws[k]];
  }

  /** Inserting a sequence of words into a valid tree stores exactly those words besides the old ones. */
  lemma {:induction false} InsertWordsStores(cmp: Comparator, n: Node, ws: seq<Word>)
    requires Nodes.Valid(cmp, n) && forall k :: 0 <= k < |ws| ==> NIL !in ws[k]
    ensures Nodes.Valid(cmp, InsertWords(cmp, n, ws))
    ensures AllWords(InsertWords(cmp, n, ws)) == AllWords(n) + ElemsOf(ws)
    decreases |ws|
  {
    if ws != [] {
      var k := |ws| - 1;
      InsertWordsStores(cmp, n, ws[..k]);
      InsertValid(cmp, InsertWords(cmp, n, ws[..k]), ws[k]);
      ElemsStep(ws, k);
      assert ws[..k + 1] == ws;
    }
  }

  // ---------------------------------------------------------------------------
  // The tree object

  /** The set of anagrams of `w` among `ws` is not empty exactly when one exists. */
  lemma SomeAnagram(ws: set<Word>, w: Word)
    ensures (set v | v in ws && multiset(v) == multiset(w)) != {}
        <==> exists v :: v in ws && multiset(v) == multiset(w)
  {
    var s := set v | v in ws && multiset(v) == multiset(w);
    if s != {} {
      var v :| v in s;
      assert v in ws && multiset(v) == multiset(w);
    }
    if exists v :: v in ws && multiset(v) == multiset(w) {
      var v :| v in ws && multiset(v) == multiset(w);
      assert v in s;
    }
  }

  /**
   * `anatree`: the root, the comparator, the number of stored words and the
   * number of nodes, NIL nodes included.
   */
  class Anatree {
    const cmp: Comparator
    var root: Node
    var size: nat
    var treeSize: nat

    /** The tree is ordered and placed, and both counters are exact. */
    ghost predicate Valid()
      reads this
    {
      && Nodes.Valid(cmp, root)
      && size == |AllWords(root)|
      && treeSize == Count(root)
    }

    /** The stored words. */
    ghost function Words(): set<Word>
      reads this
    {
      AllWords(root)
    }

    /** An empty tree: a lone NIL root, no words, one node. */
    constructor (cmp: Comparator)
      ensures Valid() && this.cmp == cmp
      ensures root == Nil({}) && size == 0 && treeSize == 1
    {
      this.cmp := cmp;
      root := Nil({});
      size := 0;
      treeSize := 1;
    }

    /** The copy constructor: a deep copy of the other tree's nodes and its counters. */
    constructor Copy(a: Anatree)
      ensures cmp == a.cmp && root == a.root && size == a.size && treeSize == a.treeSize
    {
      cmp := a.cmp;
      root := DeepCopy(a.root);
      size := a.size;
      treeSize := a.treeSize;
    }

    /** The constructor from a range of words: an empty tree, then every word inserted. */
    constructor FromWords(cmp: Comparator, ws: seq<Word>)
      requires forall k :: 0 <= k < |ws| ==> NIL !in ws[k]
      ensures Valid() && this.cmp == cmp
      ensures Words() == set w | w in ws
      ensures root == InsertWords(cmp, Nil({}), ws) && treeSize == Count(root)
    {
      this.cmp := cmp;
      root := Nil({});
      size := 0;
      treeSize := 1;
      new;
      InsertAll(ws);
    }

    /**
     * `insert(w)`: places `w` at the end of its key's path. The word counter
     * grows exactly when `w` is new, the node counter by the nodes allocated;
     * inserting a stored word changes nothing.
     */
    method Insert(w: Word)
      requires Valid() && NIL !in w
      modifies this
      ensures Valid()
      ensures Words() == old(Words()) + {w}
      ensures size == old(size) + (if w in old(Words()) then 0 else 1)
      ensures root == InsertRec(cmp, old(root), w, SortedWord(cmp, w), 0).node
      ensures treeSize == old(treeSize) + InsertRec(cmp, old(root), w, SortedWord(cmp, w), 0).grown
      ensures w in old(Words()) ==> root == old(root) && treeSize == old(treeSize)
    {
      var key := SortedWord(cmp, w);
      var r := InsertRec(cmp, root, w, key, 0);
      InsertValid(cmp, root, w);
      if r.added {
        CardAddNew(AllWords(root), w);
        size := size + 1;
      } else {
        assert AllWords(root) + {w} == AllWords(root);
      }
      root := r.node;
      treeSize := treeSize + r.grown;
    }

    /** `insert(begin, end)`: inserts the words one after the other. */
    method InsertAll(ws: seq<Word>)
      requires Valid() && forall k :: 0 <= k < |ws| ==> NIL !in ws[k]
      modifies this
      ensures Valid()
      ensures Words() == old(Words()) + set w | w in ws
      ensures root == InsertWords(cmp, old(root), ws) && treeSize == Count(root)
    {
      var k := 0;
      ghost var start := root;
      while k < |ws|
        invariant 0 <= k <= |ws| && Valid()
        invariant root == InsertWords(cmp, start, ws[..k])
      {
        InsertWordsStep(cmp, start, ws, k);
        Insert(ws[k]);
        k := k + 1;
      }
      assert ws[..k] == ws;
      InsertWordsStores(cmp, start, ws);
    }

    /**
     * A fresh tree after its first insertion: one word, and the root plus two
     * nodes for every symbol of that word.
     */
    static method FirstInsert(cmp: Comparator, w: Word) returns (size: nat, treeSize: nat)
      requires NIL !in w
      ensures size == 1 && treeSize == 2 * |w| + 1
    {
      var a := new Anatree(cmp);
      a.Insert(w);
      FirstWordNodes(cmp, w);
      assert [w][..0] == [];
      size, treeSize := a.size, a.treeSize;
    }

    /** `clear()`: back to a lone NIL root. */
    method Clear()
      modifies this
      ensures Valid()
      ensures root == Nil({}) && size == 0 && treeSize == 1
    {
      root := Nil({});
      size := 0;
      treeSize := 1;
    }

    /** `find_node(w)`: the node where `w`'s key runs out, if the tree has one. */
    function FindNodeOf(w: Word): (r: Option<Node>)
      reads this
      requires Valid()
      ensures WordsFound(r) == set v | v in Words() && multiset(v) == multiset(w)
    {
      SortedWordIsKey(cmp, w);
      FindNodeAnagrams(cmp, root, w);
      FindNode(cmp, root, SortedWord(cmp, w), 0)
    }

    /** `anagrams_of(w)`: the stored words made of exactly `w`'s symbols. */
    function AnagramsOf(w: Word): (r: set<Word>)
      reads this
      requires Valid()
      ensures r == set v | v in Words() && multiset(v) == multiset(w)
    {
      match FindNodeOf(w)
      case Some(n) => n.words
      case None => {}
    }

    /** `has_anagram_of(w)`: some stored word is made of exactly `w`'s symbols. */
    function HasAnagramOf(w: Word): (r: bool)
      reads this
      requires Valid()
      ensures r <==> exists v :: v in Words() && multiset(v) == multiset(w)
    {
      var n := FindNodeOf(w);
      assert n.Some? ==> n.value.words == WordsFound(n);
      SomeAnagram(Words(), w);
      n.Some? && |n.value.words| > 0
    }

    /** `contains(w)`: `w` is stored. */
    function Contains(w: Word): (r: bool)
      reads this
      requires Valid()
      ensures r <==> w in Words()
    {
      var n := FindNodeOf(w);
      assert w in WordsFound(n) <==> w in Words();
      n.Some? && w in n.value.words
    }

    /** `size()`: the number of stored words. */
    function Size(): (r: nat)
      reads this
      requires Valid()
      ensures r == |Words()|
    {
      size
    }

    /** `empty()`: no word is stored. */
    function Empty(): (r: bool)
      reads this
      requires Valid()
      ensures r <==> Words() == {}
    {
      Size() == 0
    }

    /** `tree_size()`: the number of nodes, twice the non-NIL ones plus one. */
    function TreeSize(): (r: nat)
      reads this
      requires Valid()
      ensures r == Count(root) == 2 * InnerCount(root) + 1
    {
      CountIsTwiceInnerPlusOne(root);
      treeSize
    }

    /** `subanagrams_of(w)`: the stored words whose symbols, with repetition, all occur in `w`. */
    method SubanagramsOf(w: Word) returns (r: set<Word>)
      requires Valid()
      ensures r == set v | v in Words() && multiset(v) <= multiset(w)
    {
      var key := SortedWord(cmp, w);
      SortedWordIsKey(cmp, w);
      r := SubanagramsInto(cmp, root, key, 0, {});
      SubanagramsOfWord(cmp, root, w);
    }

    /**
     * `keys(len)`: stored words of length `len`, at least one anagram of each
     * such word and no two anagrams of each other.
     */
    method KeysOfLength(len: nat) returns (r: set<Word>)
      requires Valid()
      ensures Representatives(r, Words(), len)
    {
      r := Nodes.KeysOfLength(cmp, len, root, 0, []);
    }

    /**
     * `keys()`: the words of the map `keys__rec` builds for the root; each
     * sits on a NIL node of the tree.
     */
    method Keys() returns (r: set<Word>)
      ensures exists m :: IsKeysMap(cmp, root, m) && r == m.Values
      ensures r <= NilWords(root) && r <= AllWords(root)
    {
      var recResult := KeysRec(cmp, root);
      r := MapValues(recResult);
      KeysFromNil(cmp, root, recResult);
      NilWordsStored(root);
    }
  }
}
