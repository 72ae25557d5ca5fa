/**
 * The Anatree of `anatree/anatree.h` on small trees built by `insert`: the
 * trees themselves, their node counts, and for `keys()` every map the
 * recursion may return, so the words it reports. Symbols are the character
 * codes of 'a', 'b' and 'c'.
 */
module TreeExamples {
  import opened Words
  import opened Nodes
  import opened Anatree

  const A: Sym := 97
  const B: Sym := 98
  const C: Sym := 99

  /** `m0` is the only map `keys__rec` may return for `n`. */
  ghost predicate KeysAre(cmp: Comparator, n: Node, m0: map<Word, Word>)
  {
    forall m :: IsKeysMap(cmp, n, m) <==> m == m0
  }

  // ---------------------------------------------------------------------------
  // Evaluating the recursion on known children

  /** A NIL node without words yields the empty map. */
  lemma NilKeysEmpty(cmp: Comparator)
    ensures KeysAre(cmp, Nil({}), map[])
  {
  }

  /** A NIL node with one word maps the empty local key to it. */
  lemma NilKeysOne(cmp: Comparator, w: Word)
    ensures KeysAre(cmp, Nil({w}), map[[] := w])
  {
  }

  /** A non-NIL node whose children each yield one map yields their combination. */
  lemma InnerKeys(cmp: Comparator, c: Sym, f: Node, t: Node, ws: set<Word>, mf: map<Word, Word>, mt: map<Word, Word>)
    requires KeysAre(cmp, f, mf) && KeysAre(cmp, t, mt)
    ensures KeysAre(cmp, Inner(c, f, t, ws), Combine(cmp, c, mf, mt))
  {
    assert IsKeysMap(cmp, f, mf) && IsKeysMap(cmp, t, mt);
  }

  /** Lifting a one-entry map. */
  lemma LiftOne(c: Sym, k: Word, v: Word)
    ensures Lift(c, map[k := v]) == map[k + [c] := v]
  {
    LiftUpdate(c, map[], k, v);
    LiftEmpty(c);
    assert map[][k := v] == map[k := v];
    assert map[][k + [c] := v] == map[k + [c] := v];
  }

  /** With no false-branch entry the node only lifts the true branch's map. */
  lemma CombineNoFalse(cmp: Comparator, c: Sym, mt: map<Word, Word>)
    ensures Combine(cmp, c, map[], mt) == Lift(c, mt)
  {
    var none: map<Word, Word> := map[];
    assert none.Keys == {};
    SurvivingNone(cmp, none, mt);
    LiftEmpty(c);
  }

  /** A surviving false-branch entry is kept, lifted, beside the lifted true branch. */
  lemma CombineKeepsOne(cmp: Comparator, c: Sym, fk: Word, fv: Word, mt: map<Word, Word>)
    requires Survives(cmp, fk, fv, mt)
    ensures Combine(cmp, c, map[fk := fv], mt) == map[fk + [c] := fv] + Lift(c, mt)
  {
    var mf := map[fk := fv];
    assert mf.Keys == {} + {fk};
    SurvivingStep(cmp, mf, mt, {}, fk);
    SurvivingNone(cmp, mf, mt);
    assert map[][fk := fv] == mf;
    LiftOne(c, fk, fv);
  }

  /** A false-branch entry that does not survive leaves only the lifted true branch. */
  lemma CombineDropsOne(cmp: Comparator, c: Sym, fk: Word, fv: Word, mt: map<Word, Word>)
    requires !Survives(cmp, fk, fv, mt)
    ensures Combine(cmp, c, map[fk := fv], mt) == Lift(c, mt)
  {
    var mf := map[fk := fv];
    assert mf.Keys == {} + {fk};
    SurvivingStep(cmp, mf, mt, {}, fk);
    SurvivingNone(cmp, mf, mt);
    LiftEmpty(c);
  }

  /** A node with an empty false branch extends the one key of its true branch. */
  lemma ExtendKeys(cmp: Comparator, c: Sym, t: Node, ws: set<Word>, k: Word, v: Word)
    requires KeysAre(cmp, t, map[k := v])
    ensures KeysAre(cmp, Inner(c, Nil({}), t, ws), map[k + [c] := v])
  {
    NilKeysEmpty(cmp);
    InnerKeys(cmp, c, Nil({}), t, ws, map[], map[k := v]);
    CombineNoFalse(cmp, c, map[k := v]);
    LiftOne(c, k, v);
  }

  /** A node with an empty false branch over a NIL node with one word. */
  lemma LeafKeys(cmp: Comparator, c: Sym, w: Word, ws: set<Word>)
    ensures KeysAre(cmp, Inner(c, Nil({}), Nil({w}), ws), map[[c] := w])
  {
    NilKeysOne(cmp, w);
    ExtendKeys(cmp, c, Nil({w}), ws, [], w);
    assert [] + [c] == [c];
  }

  /** A node whose false branch has one entry that survives. */
  lemma KeepsKeys(cmp: Comparator, c: Sym, f: Node, t: Node, ws: set<Word>, fk: Word, fv: Word, mt: map<Word, Word>)
    requires KeysAre(cmp, f, map[fk := fv]) && KeysAre(cmp, t, mt)
    requires Survives(cmp, fk, fv, mt)
    ensures KeysAre(cmp, Inner(c, f, t, ws), map[fk + [c] := fv] + Lift(c, mt))
  {
    InnerKeys(cmp, c, f, t, ws, map[fk := fv], mt);
    CombineKeepsOne(cmp, c, fk, fv, mt);
  }

  /** A node whose false branch has one entry that is dropped. */
  lemma DropsKeys(cmp: Comparator, c: Sym, f: Node, t: Node, ws: set<Word>, fk: Word, fv: Word, mt: map<Word, Word>)
    requires KeysAre(cmp, f, map[fk := fv]) && KeysAre(cmp, t, mt)
    requires !Survives(cmp, fk, fv, mt)
    ensures KeysAre(cmp, Inner(c, f, t, ws), Lift(c, mt))
  {
    InnerKeys(cmp, c, f, t, ws, map[fk := fv], mt);
    CombineDropsOne(cmp, c, fk, fv, mt);
  }

  /** The word of a one-entry map. */
  lemma ValuesOfOne(k: Word, v: Word)
    ensures map[k := v].Values == {v}
  {
    assert map[k := v][k] == v;
  }

  /** The words of a two-entry map. */
  lemma ValuesOfTwo(k1: Word, v1: Word, k2: Word, v2: Word)
    requires k1 != k2
    ensures (map[k1 := v1] + map[k2 := v2]).Values == {v1, v2}
  {
    var m := map[k1 := v1] + map[k2 := v2];
    assert m[k1] == v1 && m[k2] == v2;
  }

  // ---------------------------------------------------------------------------
  // { "a", "b" }

  /** Inserting "a" and then "b" into an empty tree. */
  lemma BuildAB()
    ensures InsertWords(Less, Nil({}), [[A], [B]])
         == Inner(A, Inner(B, Nil({}), Nil({[B]}), {}), Nil({[A]}), {})
  {
    var ws := [[A], [B]];
    assert ws[..0] == [] && ws[..1] == [[A]] && ws[..2] == ws;
    InsertWordsStep(Less, Nil({}), ws, 0);
    InsertWordsStep(Less, Nil({}), ws, 1);
    assert SortedWord(Less, [A]) == [A] && SortedWord(Less, [B]) == [B];
    assert {} + {[A]} == {[A]} && {} + {[B]} == {[B]};
    assert InsertRec(Less, Nil({}), [A], [A], 1) == Inserted(Nil({[A]}), true, 0);
    assert InsertRec(Less, Nil({}), [A], [A], 0).node == Inner(A, Nil({}), Nil({[A]}), {});
    var t1 := Inner(A, Nil({}), Nil({[A]}), {});
    assert InsertRec(Less, Nil({}), [B], [B], 1) == Inserted(Nil({[B]}), true, 0);
    assert InsertRec(Less, Nil({}), [B], [B], 0).node == Inner(B, Nil({}), Nil({[B]}), {});
    assert InsertRec(Less, t1, [B], [B], 0).node == Inner(A, Inner(B, Nil({}), Nil({[B]}), {}), Nil({[A]}), {});
  }

  /** Neither word of { "a", "b" } is dropped. */
  lemma KeysOfAB()
    ensures forall m :: IsKeysMap(Less, InsertWords(Less, Nil({}), [[A], [B]]), m) ==> m.Values == {[A], [B]}
  {
    BuildAB();
    LeafKeys(Less, B, [B], {});
    NilKeysOne(Less, [A]);
    assert !Superseded(Less, [B], []);
    KeepsKeys(Less, A, Inner(B, Nil({}), Nil({[B]}), {}), Nil({[A]}), {}, [B], [B], map[[] := [A]]);
    LiftOne(A, [], [A]);
    assert [] + [A] == [A] && [B] + [A] == [B, A];
    ValuesOfTwo([B, A], [B], [A], [A]);
  }

  // ---------------------------------------------------------------------------
  // { "a", "ab", "b" }

  /** Inserting "a", "ab" and "b" into an empty tree. */
  lemma BuildAABB()
    ensures InsertWords(Less, Nil({}), [[A], [A, B], [B]])
         == Inner(A, Inner(B, Nil({}), Nil({[B]}), {}), Inner(B, Nil({}), Nil({[A, B]}), {[A]}), {})
  {
    var ws := [[A], [A, B], [B]];
    assert ws[..0] == [] && ws[..1] == [[A]] && ws[..2] == [[A], [A, B]] && ws[..3] == ws;
    InsertWordsStep(Less, Nil({}), ws, 0);
    InsertWordsStep(Less, Nil({}), ws, 1);
    InsertWordsStep(Less, Nil({}), ws, 2);
    assert SortedWord(Less, [A]) == [A] && SortedWord(Less, [B]) == [B];
    assert SortedWord(Less, [A, B]) == [A, B] by {
      assert SortedWord(Less, [B]) == [B];
      assert InsertSorted(Less, A, [B]) == [A, B];
    }
    assert {} + {[A]} == {[A]} && {} + {[B]} == {[B]} && {} + {[A, B]} == {[A, B]};
    assert InsertRec(Less, Nil({}), [A], [A], 1) == Inserted(Nil({[A]}), true, 0);
    var t1 := Inner(A, Nil({}), Nil({[A]}), {});
    assert InsertRec(Less, Nil({}), [A], [A], 0).node == t1;
    assert InsertRec(Less, Nil({}), [A, B], [A, B], 2) == Inserted(Nil({[A, B]}), true, 0);
    var p := Inner(B, Nil({}), Nil({[A, B]}), {[A]});
    assert InsertRec(Less, Nil({[A]}), [A, B], [A, B], 1).node == p;
    var t2 := Inner(A, Nil({}), p, {});
    assert InsertRec(Less, t1, [A, B], [A, B], 0).node == t2;
    assert InsertRec(Less, Nil({}), [B], [B], 1) == Inserted(Nil({[B]}), true, 0);
    assert InsertRec(Less, Nil({}), [B], [B], 0).node == Inner(B, Nil({}), Nil({[B]}), {});
    assert InsertRec(Less, t2, [B], [B], 0).node == Inner(A, Inner(B, Nil({}), Nil({[B]}), {}), p, {});
  }

  /** Of { "a", "ab", "b" } only "ab" is reported: "b" is dropped by check (a), "a" sits on no NIL node. */
  lemma KeysOfAABB()
    ensures forall m :: IsKeysMap(Less, InsertWords(Less, Nil({}), [[A], [A, B], [B]]), m) ==> m.Values == {[A, B]}
  {
    BuildAABB();
    LeafKeys(Less, B, [B], {});
    LeafKeys(Less, B, [A, B], {[A]});
    DropsKeys(Less, A, Inner(B, Nil({}), Nil({[B]}), {}), Inner(B, Nil({}), Nil({[A, B]}), {[A]}), {},
      [B], [B], map[[B] := [A, B]]);
    LiftOne(A, [B], [A, B]);
    assert [B] + [A] == [B, A];
    ValuesOfOne([B, A], [A, B]);
  }

  // ---------------------------------------------------------------------------
  // { "abc", "b" }: a sub-anagram that is not pruned

  /** Inserting "abc" and then "b" into an empty tree. */
  lemma BuildABCB()
    ensures InsertWords(Less, Nil({}), [[A, B, C], [B]])
         == Inner(A, Inner(B, Nil({}), Nil({[B]}), {}),
                  Inner(B, Nil({}), Inner(C, Nil({}), Nil({[A, B, C]}), {}), {}), {})
  {
    var ws := [[A, B, C], [B]];
    assert ws[..0] == [] && ws[..1] == [[A, B, C]] && ws[..2] == ws;
    InsertWordsStep(Less, Nil({}), ws, 0);
    InsertWordsStep(Less, Nil({}), ws, 1);
    assert SortedWord(Less, [B]) == [B];
    assert SortedWord(Less, [A, B, C]) == [A, B, C] by {
      assert SortedWord(Less, [C]) == [C];
      assert SortedWord(Less, [B, C]) == InsertSorted(Less, B, [C]) == [B, C];
      assert InsertSorted(Less, A, [B, C]) == [A, B, C];
    }
    var w := [A, B, C];
    assert {} + {w} == {w} && {} + {[B]} == {[B]};
    assert InsertRec(Less, Nil({}), w, w, 3) == Inserted(Nil({w}), true, 0);
    var q := Inner(C, Nil({}), Nil({w}), {});
    assert InsertRec(Less, Nil({}), w, w, 2).node == q;
    var p := Inner(B, Nil({}), q, {});
    assert InsertRec(Less, Nil({}), w, w, 1).node == p;
    var t1 := Inner(A, Nil({}), p, {});
    assert InsertRec(Less, Nil({}), w, w, 0).node == t1;
    assert InsertRec(Less, Nil({}), [B], [B], 1) == Inserted(Nil({[B]}), true, 0);
    assert InsertRec(Less, Nil({}), [B], [B], 0).node == Inner(B, Nil({}), Nil({[B]}), {});
    assert InsertRec(Less, t1, [B], [B], 0).node == Inner(A, Inner(B, Nil({}), Nil({[B]}), {}), p, {});
  }

  /** The root's true branch: "abc" under the local key [c, b]. */
  lemma KeysOfABC()
    ensures KeysAre(Less, Inner(B, Nil({}), Inner(C, Nil({}), Nil({[A, B, C]}), {}), {}), map[[C, B] := [A, B, C]])
  {
    LeafKeys(Less, C, [A, B, C], {});
    ExtendKeys(Less, B, Inner(C, Nil({}), Nil({[A, B, C]}), {}), {}, [C], [A, B, C]);
    assert [C] + [B] == [C, B];
  }

  /** The scan of [b] against [c, b] reads the `b`s together and then runs out on one side only. */
  lemma BSurvivesABC()
    ensures Survives(Less, [B], [B], map[[C, B] := [A, B, C]])
  {
    assert ScanSupersedes(Less, [B], [C, B], 1, 2) == ScanSupersedes(Less, [B], [C, B], 0, 1) == false;
    assert forall tk :: tk in map[[C, B] := [A, B, C]] ==> tk == [C, B];
  }

  /** The root of { "abc", "b" }: "b" survives the pruning. */
  lemma KeysOfABCBRoot()
    ensures KeysAre(Less, Inner(A, Inner(B, Nil({}), Nil({[B]}), {}),
                               Inner(B, Nil({}), Inner(C, Nil({}), Nil({[A, B, C]}), {}), {}), {}),
                    map[[B, A] := [B]] + map[[C, B, A] := [A, B, C]])
  {
    LeafKeys(Less, B, [B], {});
    KeysOfABC();
    BSurvivesABC();
    KeepsKeys(Less, A, Inner(B, Nil({}), Nil({[B]}), {}),
      Inner(B, Nil({}), Inner(C, Nil({}), Nil({[A, B, C]}), {}), {}), {}, [B], [B], map[[C, B] := [A, B, C]]);
    LiftOne(A, [C, B], [A, B, C]);
    assert [B] + [A] == [B, A] && [C, B] + [A] == [C, B, A];
  }

  /**
   * Both words of { "abc", "b" } are reported, although "b" is a sub-anagram
   * of "abc": the backward scan does not prune it.
   */
  lemma KeysOfABCB()
    ensures multiset([B]) < multiset([A, B, C])
    ensures forall m :: IsKeysMap(Less, InsertWords(Less, Nil({}), [[A, B, C], [B]]), m) ==> m.Values == {[B], [A, B, C]}
  {
    BuildABCB();
    KeysOfABCBRoot();
    ValuesOfTwo([B, A], [B], [C, B, A], [A, B, C]);
    assert multiset([A, B, C]) == multiset([B]) + multiset{A, C};
  }

  // ---------------------------------------------------------------------------
  // { "ab", "ac", "bc" }: a word pruned though it is no sub-anagram of another

  /** A two-symbol word already in order is its own key. */
  lemma SortedPair(x: Sym, y: Sym)
    requires x < y
    ensures SortedWord(Less, [x, y]) == [x, y]
  {
    assert [x, y][1..] == [y];
    assert SortedWord(Less, [y]) == [y];
    assert InsertSorted(Less, x, [y]) == [x, y];
  }

  /** Every local key supersedes itself: the scan reads both copies together to the start. */
  lemma {:induction false} SupersededBySelf(cmp: Comparator, k: Word, a: nat)
    requires a <= |k|
    ensures ScanSupersedes(cmp, k, k, a, a)
  {
    if a > 0 {
      BeforeIsStrictTotalOrder(cmp, k[a - 1], k[a - 1], k[a - 1]);
      SupersededBySelf(cmp, k, a - 1);
    }
  }

  /** "ab" into an empty tree. */
  lemma InsertAB()
    ensures InsertRec(Less, Nil({}), [A, B], SortedWord(Less, [A, B]), 0).node
         == Inner(A, Nil({}), Inner(B, Nil({}), Nil({[A, B]}), {}), {})
  {
    var ab := [A, B];
    SortedPair(A, B);
    assert {} + {ab} == {ab};
    assert InsertRec(Less, Nil({}), ab, ab, 2) == Inserted(Nil({ab}), true, 0);
    assert InsertRec(Less, Nil({}), ab, ab, 1).node == Inner(B, Nil({}), Nil({ab}), {});
  }

  /** "ac" after "ab": it branches off on the false edge of the node for `b`. */
  lemma InsertAC()
    ensures InsertRec(Less, Inner(A, Nil({}), Inner(B, Nil({}), Nil({[A, B]}), {}), {}), [A, C], SortedWord(Less, [A, C]), 0).node
         == Inner(A, Nil({}), Inner(B, Inner(C, Nil({}), Nil({[A, C]}), {}), Nil({[A, B]}), {}), {})
  {
    var ac := [A, C];
    SortedPair(A, C);
    assert {} + {ac} == {ac};
    assert InsertRec(Less, Nil({}), ac, ac, 2) == Inserted(Nil({ac}), true, 0);
    var q := Inner(C, Nil({}), Nil({ac}), {});
    assert InsertRec(Less, Nil({}), ac, ac, 1).node == q;
    assert InsertRec(Less, Inner(B, Nil({}), Nil({[A, B]}), {}), ac, ac, 1).node == Inner(B, q, Nil({[A, B]}), {});
  }

  /** "bc" after "ab" and "ac": it branches off on the false edge of the root. */
  lemma InsertBC()
    ensures var p := Inner(B, Inner(C, Nil({}), Nil({[A, C]}), {}), Nil({[A, B]}), {});
      InsertRec(Less, Inner(A, Nil({}), p, {}), [B, C], SortedWord(Less, [B, C]), 0).node
         == Inner(A, Inner(B, Nil({}), Inner(C, Nil({}), Nil({[B, C]}), {}), {}), p, {})
  {
    var bc := [B, C];
    SortedPair(B, C);
    assert {} + {bc} == {bc};
    assert InsertRec(Less, Nil({}), bc, bc, 2) == Inserted(Nil({bc}), true, 0);
    var r := Inner(C, Nil({}), Nil({bc}), {});
    assert InsertRec(Less, Nil({}), bc, bc, 1).node == r;
    assert InsertRec(Less, Nil({}), bc, bc, 0).node == Inner(B, Nil({}), r, {});
  }

  /** Inserting "ab", "ac" and "bc" into an empty tree. */
  lemma BuildABACBC()
    ensures InsertWords(Less, Nil({}), [[A, B], [A, C], [B, C]])
         == Inner(A, Inner(B, Nil({}), Inner(C, Nil({}), Nil({[B, C]}), {}), {}),
                  Inner(B, Inner(C, Nil({}), Nil({[A, C]}), {}), Nil({[A, B]}), {}), {})
  {
    var ws := [[A, B], [A, C], [B, C]];
    assert ws[..0] == [] && ws[..1] == [[A, B]] && ws[..2] == [[A, B], [A, C]] && ws[..3] == ws;
    InsertWordsStep(Less, Nil({}), ws, 0);
    InsertWordsStep(Less, Nil({}), ws, 1);
    InsertWordsStep(Less, Nil({}), ws, 2);
    InsertAB();
    InsertAC();
    InsertBC();
  }

  /** The root's false branch: "bc" under the local key [c, b]. */
  lemma KeysOfBC()
    ensures KeysAre(Less, Inner(B, Nil({}), Inner(C, Nil({}), Nil({[B, C]}), {}), {}), map[[C, B] := [B, C]])
  {
    LeafKeys(Less, C, [B, C], {});
    ExtendKeys(Less, B, Inner(C, Nil({}), Nil({[B, C]}), {}), {}, [C], [B, C]);
    assert [C] + [B] == [C, B];
  }

  /** The root's true branch: "ac" under [c, b], the false-edge symbol included, and "ab" under [b]. */
  lemma KeysOfABAC()
    ensures KeysAre(Less, Inner(B, Inner(C, Nil({}), Nil({[A, C]}), {}), Nil({[A, B]}), {}),
                    map[[C, B] := [A, C]] + map[[B] := [A, B]])
  {
    LeafKeys(Less, C, [A, C], {});
    NilKeysOne(Less, [A, B]);
    assert !Superseded(Less, [C], []);
    KeepsKeys(Less, B, Inner(C, Nil({}), Nil({[A, C]}), {}), Nil({[A, B]}), {}, [C], [A, C], map[[] := [A, B]]);
    LiftOne(B, [], [A, B]);
    assert [] + [B] == [B] && [C] + [B] == [C, B];
  }

  /** A two-entry map is a one-entry map updated. */
  lemma TwoAsUpdate(k1: Word, v1: Word, k2: Word, v2: Word)
    ensures map[k1 := v1] + map[k2 := v2] == map[k1 := v1][k2 := v2]
  {
  }

  /** Lifting a two-entry map. */
  lemma LiftTwo(c: Sym, k1: Word, v1: Word, k2: Word, v2: Word)
    ensures Lift(c, map[k1 := v1] + map[k2 := v2]) == map[k1 + [c] := v1] + map[k2 + [c] := v2]
  {
    TwoAsUpdate(k1, v1, k2, v2);
    TwoAsUpdate(k1 + [c], v1, k2 + [c], v2);
    LiftUpdate(c, map[k1 := v1], k2, v2);
    LiftOne(c, k1, v1);
  }

  /** The root of { "ab", "ac", "bc" }: the key [c, b] of "bc" is superseded by the same key of "ac". */
  lemma KeysOfABACBCRoot()
    ensures KeysAre(Less, Inner(A, Inner(B, Nil({}), Inner(C, Nil({}), Nil({[B, C]}), {}), {}),
                               Inner(B, Inner(C, Nil({}), Nil({[A, C]}), {}), Nil({[A, B]}), {}), {}),
                    map[[C, B, A] := [A, C]] + map[[B, A] := [A, B]])
  {
    KeysOfBC();
    KeysOfABAC();
    var mt := map[[C, B] := [A, C]] + map[[B] := [A, B]];
    SupersededBySelf(Less, [C, B], 2);
    assert [C, B] in mt;
    DropsKeys(Less, A, Inner(B, Nil({}), Inner(C, Nil({}), Nil({[B, C]}), {}), {}),
      Inner(B, Inner(C, Nil({}), Nil({[A, C]}), {}), Nil({[A, B]}), {}), {}, [C, B], [B, C], mt);
    LiftTwo(A, [C, B], [A, C], [B], [A, B]);
    assert [B] + [A] == [B, A] && [C, B] + [A] == [C, B, A];
  }

  /**
   * Of { "ab", "ac", "bc" } "bc" is not reported, though it is no
   * sub-anagram of "ab" or "ac": the false-edge symbol `c` in the local key
   * of "ac" makes the backward scan match.
   */
  lemma KeysOfABACBC()
    ensures !(multiset([B, C]) <= multiset([A, B])) && !(multiset([B, C]) <= multiset([A, C]))
    ensures forall m :: IsKeysMap(Less, InsertWords(Less, Nil({}), [[A, B], [A, C], [B, C]]), m) ==> m.Values == {[A, C], [A, B]}
  {
    BuildABACBC();
    KeysOfABACBCRoot();
    ValuesOfTwo([C, B, A], [A, C], [B, A], [A, B]);
    assert A in multiset([A, B]) && A !in multiset([B, C]);
    assert C !in multiset([A, B]) && C in multiset([B, C]);
    assert B !in multiset([A, C]) && B in multiset([B, C]);
  }

  // ---------------------------------------------------------------------------
  // keys() on tree objects

  /** `keys()` of a tree built from "a" and "b" reports both words. */
  method KeysAfterAB() returns (r: set<Word>)
    ensures r == {[A], [B]}
  {
    var a := new Anatree.FromWords(Less, [[A], [B]]);
    r := a.Keys();
    KeysOfAB();
  }

  /** `keys()` of a tree built from "a", "ab" and "b" reports "ab" alone. */
  method KeysAfterAABB() returns (r: set<Word>)
    ensures r == {[A, B]}
  {
    var a := new Anatree.FromWords(Less, [[A], [A, B], [B]]);
    r := a.Keys();
    KeysOfAABB();
  }

  /** A tree built from "a" and "b" has five nodes: the root, its two children and the two below `b`. */
  method TreeSizeAfterAB() returns (n: nat)
    ensures n == 5
  {
    var a := new Anatree.FromWords(Less, [[A], [B]]);
    BuildAB();
    assert Count(Inner(B, Nil({}), Nil({[B]}), {})) == 3;
    n := a.TreeSize();
  }
}
