# Anatree, modelled in Dafny

An *anatree* stores a set of words so that all anagrams of a word, and all
of its sub-anagrams, can be found quickly. It is a binary decision tree over
symbols. Each word is sorted into its *key* (its symbols ordered by the
tree's comparator). Following the key from the root, a `true` edge consumes
the node's symbol and a `false` edge skips it. The word is stored at the
node where its key runs out. Leaves are NIL nodes. Every non-NIL node has
exactly two children. Along every path, the symbols are ordered by the
comparator.

The repository holds three versions of the tree, and each is modelled:

- `anatree/anatree.h`, the current version, is module `Anatree`.
  - It has a word counter and a node counter.
  - It has anagram, sub-anagram, containment and size queries.
  - It has `keys(len)`, which returns one representative per anagram class of length `len`.
  - It has `keys()`, which reports words of NIL nodes and prunes some sub-anagrams by a backward scan over their local keys.
- `anatree.h`, an earlier version, is module `AnatreeV2`.
  - It is the same tree, with the same insertion and counters.
  - Its queries return fresh sets.
  - Its `keys()` is still a stub that returns nothing.
- `src/anatree.h`, the earliest version, is module `AnatreeV1`.
  - Symbols are ordered by the built-in `<`.
  - It has no word counter.
  - A splice raises the node counter by one only.
  - Its `keys()` returns one word from every NIL node, with no pruning.

Shared code sits in two modules:

- `Words`: symbols, comparators, and the insertion sort behind `sorted_word`.
- `Nodes`:
  - the node datatype and the tree invariants;
  - the recursive descents that all three versions share (`find_node`, `insert__rec`, `subanagrams_of__rec`, `keys__rec(len)`);
  - the lemmas about those descents.

How the model represents the source:

- A symbol is an `int`, and `0` is the NIL symbol.
- A word is a sequence of symbols.
- The comparator is `std::less` or `std::greater` on symbols.
- A tree is a value of datatype `Node`.
  - The tree object is a class, whose fields the operations reassign.
  - `insert__rec` returns the new subtree together with the number of nodes it allocated and whether the word was new.
  - The source instead bumps the counters as it goes.
- The source takes "the first word" of a hash set with `*begin()`. The model lets that pick be any element.
  - The contracts of `keys()` and `keys(len)` hold for every such pick.

The doc comment of `keys()` at anatree/anatree.h:352-353 promises to exclude every word that is a sub-anagram of another word returned. The one at src/anatree.h:197-201 promises a minimal representative set, in which every stored word is returned or is a sub-anagram of a returned word. Neither implementation keeps that promise, and the model follows the implementations; see "Left out".

Module `TreeExamples` builds small trees by inserting words, as the test suite does. For each tree it fixes the words that `keys()` of `anatree/anatree.h` reports, and for one of them the node count. Two of these trees show the gap to the doc comment.

## Model

| member | source | states |
|---|---|---|
| Words.BeforeIsStrictTotalOrder | anatree/anatree.h:58-65 | the comparator is irreflexive, asymmetric and transitive, and total on distinct symbols, as the template's `totally_ordered` requirement demands |
| Words.InsertSortedPermutes | anatree/anatree.h:619-624 | one insertion step of the sort adds exactly the inserted symbol to the word's multiset |
| Words.InsertSortedKeepsSorted | anatree/anatree.h:619-624 | inserting a symbol into a sorted word leaves it sorted |
| Words.SortedWordPermutes | anatree/anatree.h:619-624 | `sorted_word` returns a word sorted by the comparator with the same symbols, with multiplicity, as its input |
| Words.SortedUnique | anatree/anatree.h:619-624 | two sorted words with the same multiset of symbols are equal, so a word's key is unique |
| Words.SortedWord | anatree/anatree.h:619-624 | `sorted_word` keeps the word's length; Words.SortedWordPermutes and Words.SortedWordIsKey prove the result is the word's unique sorted permutation |
| Words.SortedWordIsKey | anatree/anatree.h:619-624 | `sorted_word` computes exactly the unique sorted permutation of the word |
| Words.SameKeyIffAnagram | anatree/anatree.h:619-624 | two words have the same key exactly when they are anagrams of each other |
| Words.KeyNilFree | anatree/anatree.h:619-624 | a key holds the NIL symbol exactly when the word does |
| Nodes.CountIsTwiceInnerPlusOne | anatree/anatree.h:180-183 | every tree has twice as many nodes as non-NIL nodes, plus one |
| Nodes.DeepCopy | anatree/anatree.h:214-237 | the deep copy is node for node equal to the original, with the same symbols and word sets |
| Nodes.FindNode | anatree/anatree.h:638-662 | the descent for a key ends, if anywhere, on a node whose words are stored below the start; the three lemmas below prove it is the node holding exactly that key's words |
| Nodes.FindNodeSound | anatree/anatree.h:638-662 | every word on the node that the descent for a key finds has exactly that key |
| Nodes.FindNodeComplete | anatree/anatree.h:638-662 | in an ordered and placed tree, every stored word with that key lies on the node the descent finds |
| Nodes.FindNodeAnagrams | anatree/anatree.h:632-662 | from the root, the node found for a word's key holds exactly the stored anagrams of the word, and none when there is no node |
| Nodes.AnagramsOfRec | anatree.h:393-417 | the older `anagrams_of__rec` returns the words of the node the descent finds, and the empty set when it falls off the tree |
| Nodes.InsertRec | anatree/anatree.h:272-324 | while the key is not used up, insertion leaves the words of the node it passes unchanged; the lemmas below prove what it stores, allocates and preserves |
| Nodes.InsertStoresWord | anatree/anatree.h:272-324 | insertion adds exactly the word to the stored words |
| Nodes.InsertCountsNodes | anatree/anatree.h:272-324 | the node count that insertion reports is exactly the number of nodes the tree grows by |
| Nodes.InsertSyms | anatree/anatree.h:272-324 | the new tree uses only old symbols and the symbols of the key |
| Nodes.InsertKeepsOrdered | anatree/anatree.h:272-324 | insertion of a sorted key keeps every path ordered by the comparator |
| Nodes.InsertKeepsPlaced | anatree/anatree.h:272-324 | insertion keeps every word at the node where its key runs out, and keeps false children free of words where a splice moves them |
| Nodes.InsertKeepsNilFree | anatree/anatree.h:272-324 | insertion of a key without NIL symbols creates no non-NIL node labelled NIL |
| Nodes.InsertAddsNew | anatree/anatree.h:282-288 | the word counter is raised exactly when the word was not yet stored |
| Nodes.InsertExistingUnchanged | anatree/anatree.h:272-324 | inserting a stored word leaves the tree and both counters unchanged |
| Nodes.InsertValid | anatree/anatree.h:264-324 | inserting the sorted word into a valid tree gives a valid tree holding one word more, or the same tree when the word was stored; it also gives the counter deltas |
| Nodes.InsertFreshGrowth | anatree/anatree.h:293-299 | below a NIL node, inserting the rest of a key allocates two nodes per remaining symbol |
| Nodes.InsertWordsStep | anatree/anatree.h:330-337 | inserting one more word of a range inserts it into the tree the earlier words left |
| Nodes.FirstWordNodes | anatree/anatree.h:293-299 | the first word stored in an empty tree leaves the root and two nodes per symbol, `2 * |w| + 1` nodes |
| Nodes.Subanagrams | anatree/anatree.h:536-572 | the descent collects the node's own words; the three lemmas below prove it collects exactly the stored sub-anagrams |
| Nodes.SubanagramsStored | anatree/anatree.h:536-572 | the sub-anagram descent returns only stored words |
| Nodes.SubanagramsMember | anatree/anatree.h:536-572 | every stored word whose symbols fit into the rest of the key is found by the descent |
| Nodes.SubanagramsOfWord | anatree/anatree.h:526-572 | from the root with a word's key, the descent returns exactly the stored words whose multiset of symbols is contained in the word's |
| Nodes.SubanagramsRec | anatree.h:435-470 | the older recursion, which returns fresh sets, computes the sub-anagram descent |
| Nodes.RepresentativesHere | anatree/anatree.h:468-474 | at the depth of `len` true edges, any one word of the node represents every stored word of length `len` below it |
| Nodes.RepresentativesNil | anatree/anatree.h:478-480 | a NIL node reached with fewer than `len` true edges holds no word of length `len` |
| Nodes.BranchesApart | anatree/anatree.h:484-488 | no word below a node's true edge is an anagram of a word below its false edge |
| Nodes.RepresentativesMerge | anatree/anatree.h:484-488 | the representatives of the two children together represent the node |
| Nodes.KeysOfLength | anatree/anatree.h:458-489 | `keys__rec(len)` returns stored words of length `len`, at least one anagram of every stored word of that length, and no two anagrams of each other |
| Anatree.ScanSupersedes | anatree/anatree.h:397-420 | when the backward scan ends with both keys used up, the false key's symbols, with multiplicity, occur in the true key |
| Anatree.Scan | anatree/anatree.h:397-420 | the scan loop returns the scan's verdict, so a true verdict implies that the false key fits into the true key |
| Anatree.SupersededByAny | anatree/anatree.h:396-425 | the loop over the true-branch keys reports a supersession exactly when some true-branch key supersedes the false key |
| Anatree.LiftEntries | anatree/anatree.h:426-439 | appending the node's symbol to each local key keeps every entry, with its word, and adds nothing else |
| Anatree.LiftUpdate | anatree/anatree.h:426-439 | appending the symbol and adding an entry commute |
| Anatree.CombineKeepsTrue | anatree/anatree.h:433-439 | every true-branch entry is in the combined map under its extended key, overwriting a false-branch entry |
| Anatree.CombineKeepsSurvivors | anatree/anatree.h:390-430 | a false-branch entry is in the combined map exactly when its word is no true-branch key and no true-branch key supersedes it |
| Anatree.CombineShape | anatree/anatree.h:368-442 | every key of the combined map is a child's local key with the node's symbol appended |
| Anatree.KeysFromNil | anatree/anatree.h:368-442 | every word that `keys__rec` reports lies on a NIL node of the subtree |
| Anatree.MapValues | anatree/anatree.h:356-365 | the loop of `keys()` collects exactly the words of the map |
| Anatree.KeepSurviving | anatree/anatree.h:390-430 | the first loop copies exactly the surviving false-branch entries, under their extended keys |
| Anatree.AddTrue | anatree/anatree.h:433-439 | the second loop adds every true-branch entry, under its extended key, overwriting |
| Anatree.KeysRec | anatree/anatree.h:368-442 | `keys__rec` returns a map of the shape its recursion defines, for some choice of the word picked at each NIL node |
| Anatree.SubanagramsInto | anatree/anatree.h:536-572 | the recursion adds exactly the sub-anagrams below the node to the result set |
| Anatree.SkipGuardReads | anatree/anatree.h:552 | the skip loop's guard first reads the current position, and every read before its last one is a key symbol before the node's symbol |
| Anatree.InsertWordsStores | anatree/anatree.h:330-337 | inserting a range of words into a valid tree gives a valid tree storing the old words and exactly those of the range |
| Anatree.SkipGuardReadsPastEnd | anatree/anatree.h:552 | the skip loop's guard, read in its written order, reads the position one past the key's end exactly when every remaining key symbol is before the node's symbol |
| Anatree.Anatree.constructor | anatree/anatree.h:194-197 | a new tree is a lone NIL node with no words, counted as one node |
| Anatree.Anatree.Copy | anatree/anatree.h:205-212 | the copy has the same comparator, the same tree and the same counters |
| Anatree.Anatree.FromWords | anatree/anatree.h:250-258 | the tree built from a sequence of words is valid, stores exactly those words, and is the tree that inserting them one after the other into an empty tree gives, with its node count |
| Anatree.Anatree.Insert | anatree/anatree.h:264-324 | the new tree is what `insert__rec` builds from the sorted word, and the node counter grows by the nodes it allocates; the tree stays valid, stores the word, the word counter grows exactly when the word is new, and nothing changes when it was stored |
| Anatree.Anatree.InsertAll | anatree/anatree.h:330-337 | the new tree is the one that inserting the words one after the other gives, with the node counter equal to its node count; it stays valid and gains exactly the range's words |
| Anatree.Anatree.FirstInsert | test/test.cpp:28-56 | after the first insertion into a new tree, it holds one word and `2 * |w| + 1` nodes: 1 for "", 3 for "a" or "b" |
| Anatree.Anatree.Clear | anatree/anatree.h:343-349 | clearing leaves a lone NIL node with no words, counted as one node |
| Anatree.Anatree.FindNodeOf | anatree/anatree.h:632-636 | the node found for a word holds exactly the stored anagrams of the word |
| Anatree.Anatree.AnagramsOf | anatree/anatree.h:512-517 | the result is exactly the stored anagrams of the word |
| Anatree.Anatree.HasAnagramOf | anatree/anatree.h:498-503 | true exactly when some stored word is an anagram of the word |
| Anatree.Anatree.Contains | anatree/anatree.h:578-583 | true exactly when the word is stored |
| Anatree.Anatree.Size | anatree/anatree.h:589-593 | the word counter equals the number of stored words |
| Anatree.Anatree.Empty | anatree/anatree.h:599-603 | true exactly when no word is stored |
| Anatree.Anatree.TreeSize | anatree/anatree.h:609-613 | the node counter equals the number of nodes, which is twice the non-NIL ones plus one |
| Anatree.Anatree.SubanagramsOf | anatree/anatree.h:526-533 | the result is exactly the stored words whose symbols, with multiplicity, all occur in the word |
| Anatree.Anatree.KeysOfLength | anatree/anatree.h:451-455 | the result holds stored words of the given length, at least one anagram of each such word, and no two anagrams of each other |
| Anatree.Anatree.Keys | anatree/anatree.h:356-365 | the result is the set of words of a map that `keys__rec` may return, and every such word is a stored word on a NIL node |
| AnatreeV2.Anatree.constructor | anatree.h:175-177 | a new tree is a lone NIL node with no words, counted as one node |
| AnatreeV2.Anatree.Copy | anatree.h:185-216 | the copy has the same comparator, the same tree and the same counters |
| AnatreeV2.Anatree.Insert | anatree.h:231-289 | the new tree is what `insert__rec` builds from the sorted word, and the node counter grows by the nodes it allocates; the tree stays valid, stores the word, the word counter grows exactly when the word is new, and nothing changes when it was stored |
| AnatreeV2.Anatree.Clear | anatree.h:295-301 | clearing leaves a lone NIL node with no words, counted as one node |
| AnatreeV2.Anatree.Keys | anatree.h:310-315 | the unfinished `keys()` returns the empty set whatever is stored |
| AnatreeV2.Anatree.KeysOfLength | anatree.h:335-375 | the result holds stored words of the given length, at least one anagram of each such word, and no two anagrams of each other |
| AnatreeV2.Anatree.AnagramsOf | anatree.h:384-417 | the result is exactly the stored anagrams of the word |
| AnatreeV2.Anatree.Contains | anatree.h:476-480 | true exactly when the word is stored |
| AnatreeV2.Anatree.SubanagramsOf | anatree.h:426-470 | the result is exactly the stored words whose symbols, with multiplicity, all occur in the word |
| AnatreeV2.Anatree.Size | anatree.h:486-490 | the word counter equals the number of stored words |
| AnatreeV2.Anatree.Empty | anatree.h:496-500 | true exactly when no word is stored |
| AnatreeV2.Anatree.TreeSize | anatree.h:506-510 | the node counter equals the number of nodes, which is twice the non-NIL ones plus one |
| TreeExamples.SupersededBySelf | anatree/anatree.h:397-420 | the backward scan of a local key against an equal key always ends with both used up, so it supersedes |
| TreeExamples.KeysOfAB | test/test.cpp:727-736 | after inserting "a" and "b", every map `keys__rec` may return has the words {"a", "b"} |
| TreeExamples.KeysOfAABB | test/test.cpp:748-757 | after inserting "a", "ab" and "b", every map `keys__rec` may return has the single word "ab" |
| TreeExamples.KeysOfABCB | anatree/anatree.h:352-353 | after inserting "abc" and "b", every map `keys__rec` may return has the words {"b", "abc"}, although "b" is a sub-anagram of "abc" |
| TreeExamples.KeysOfABACBC | anatree/anatree.h:352-353 | after inserting "ab", "ac" and "bc", every map `keys__rec` may return has the words {"ab", "ac"}: "bc" is dropped, though it is no sub-anagram of either |
| TreeExamples.KeysAfterAB | test/test.cpp:727-736 | `keys()` of the tree built from "a" and "b" is {"a", "b"} |
| TreeExamples.KeysAfterAABB | test/test.cpp:748-757 | `keys()` of the tree built from "a", "ab" and "b" is {"ab"} |
| TreeExamples.TreeSizeAfterAB | test/test.cpp:58-67 | `tree_size()` of the tree built from "a" and "b" is 5 |
| AnatreeV1.InsertRecV1 | src/anatree.h:146-193 | the earliest `insert__rec` keeps the words of every node it passes and counts at most two nodes per key symbol left; AnatreeV1.InsertRecAsLater below relates it to the later versions' insertion |
| AnatreeV1.InsertRecAsLater | src/anatree.h:146-193 | the earliest insertion builds the same tree as the later versions under `<`, and its counter falls short of theirs by one per splice |
| AnatreeV1.SpliceMiscounts | src/anatree.h:171-180 | after a splice, the tree grows by one node more than the counter is raised |
| AnatreeV1.SpliceMiscountExample | src/anatree.h:171-180 | inserting "b" and then "a" into an empty tree leaves the counter at 4, while the tree has 5 nodes |
| AnatreeV1.KeysRec | src/anatree.h:211-226 | `keys__rec` returns only words of NIL nodes, one from every NIL node that holds words, and at most one per such node |
| AnatreeV1.Anatree.constructor | src/anatree.h:127-131 | a new tree is a lone NIL node, counted as one node |
| AnatreeV1.Anatree.Insert | src/anatree.h:138-193 | the new tree is what the earliest `insert__rec` builds, and the counter grows by what it counts; the tree stays ordered and placed, stores the word, and nothing changes when the word was stored |
| AnatreeV1.Anatree.Clear | src/anatree.h:336-341 | clearing leaves a lone NIL node, counted as one node |
| AnatreeV1.Anatree.Keys | src/anatree.h:197-207 | the result holds one word of every NIL node that holds words and no other word, so every result word is stored; every stored word is in the result or is a sub-anagram of another word of the result |
| AnatreeV1.InsertKeepsTrueFilled | src/anatree.h:146-193 | the earliest insertion ends every word's path on a NIL node that holds words, so below every non-NIL node's true edge some NIL node holds words, before and after an insertion |
| AnatreeV1.SomeNilPicked | src/anatree.h:211-226 | a subtree with a NIL node that holds words contributes one of its words to a set that picks from every such node |
| AnatreeV1.InnerWordCovered | src/anatree.h:197-201 | a word stored on a non-NIL node is a sub-anagram of a strictly longer picked word below that node's true edge |
| AnatreeV1.PickedCover | src/anatree.h:197-226 | in a placed tree whose true subtrees hold words, every stored word is picked or is a sub-anagram of another picked word |
| AnatreeV1.Anatree.AnagramsOf | src/anatree.h:234-267 | the result is exactly the stored anagrams of the word |
| AnatreeV1.Anatree.Contains | src/anatree.h:326-330 | true exactly when the word is stored |
| AnatreeV1.Anatree.SubanagramsOf | src/anatree.h:276-320 | the result is exactly the stored words whose symbols, with multiplicity, all occur in the word |
| AnatreeV1.Anatree.TreeSize | src/anatree.h:347-351 | the node counter is at least one and never exceeds the number of nodes |

## Left out

- Comparators other than `std::less` and `std::greater` on symbols.
  - The model's `Comparator` has only these two values.
  - A user-supplied strict weak order that is not total is not modelled.
- Memory and ownership are not modelled: `shared_ptr` and `unique_ptr`, moves, and aliasing.
  - Trees are values, so the move constructor is not modelled.
  - The earliest version's defaulted copy constructor, which shares nodes, is not modelled either.
- `to_string` and the streaming of nodes are not modelled, because they are output formatting.
- Iteration order of the hash sets and hash maps is not modelled.
  - Where the source takes `*begin()`, the model picks any element.
  - The source's loops over hash maps are visited in an arbitrary order.
- `size_t` width and wrap-around of the counters are not modelled, because the counters stay far below the limit.
- Characters and encodings are not modelled.
  - A symbol is an integer, and `0` is the NIL character of every version.
  - Case and locale play no part.
- The counter deltas are not bumped in place. `insert__rec` returns them, and the method adds them; the final values are the same.
- Anatree.Anatree.Insert, AnatreeV2.Anatree.Insert and AnatreeV1.Anatree.Insert require a word without the NIL symbol.
  - The source tests `m_char == NIL` to recognise a leaf.
  - So a node labelled with that symbol would be taken for a leaf.
- Anatree.Anatree.Keys does not state the documented "excluding words that are a subanagram of another one returned".
  - The scan only supersedes a false key when both keys are used up, so with {"abc", "b"} both words are returned, and "b" is a sub-anagram of "abc" (TreeExamples.KeysOfABCB).
  - The local keys also collect the symbols of false edges. With {"ab", "ac", "bc"}, "bc" is dropped although neither other word is a super-anagram of it (TreeExamples.KeysOfABACBC).
  - The test suite expects the implementation's results, so the contract states what the implementation returns, and the lemmas of TreeExamples fix it on small trees.
- Anatree.Anatree.Keys is evaluated in TreeExamples only on {"a", "b"}, {"a", "ab", "b"}, {"abc", "b"} and {"ab", "ac", "bc"}. These keys tests are not evaluated:
  - {"a", "aab", "b"} and {"ab", "aab", "b"}, where the tests expect {"aab"} (test/test.cpp:759-779);
  - {"a", "b", "aba", "ab", "bb"}, where the tests expect {"aba", "bb"} (test/test.cpp:781-793);
  - the nine-word example, where the tests expect {"fog", "gold", "loo", "odd"} (test/test.cpp:795-813).
- AnatreeV1.Anatree.Keys states the documented cover but not minimality, because it performs no pruning: with {"ab", "b"} it returns both.
- AnatreeV1.Anatree.TreeSize is bounded by the node count only, because of the splice miscount in the Findings below.

## Findings

| source | as written | input that shows it | evidently intended | confidence | as-written member | corrected member |
|---|---|---|---|---|---|---|
| src/anatree.h:177 | a splice (inserting a new node in front of an existing one) raises `m_tree_size` by 1, but it allocates two nodes: the new node and its NIL `true` child | insert "b" and then "a" into an empty tree: the counter ends at 4 and the tree has 5 nodes | raise the counter by 2, as the later versions do at anatree/anatree.h:308 | high; not executed | AnatreeV1.SpliceMiscountExample | Nodes.InsertCountsNodes |
| anatree/anatree.h:552 | the skip loop's guard reads `*curr` before it tests `curr != end`; the versions at anatree.h:447 and src/anatree.h:297 have the same guard | `subanagrams_of("")` on a tree holding "a": the guard reads the key's end position (Anatree.SkipGuardReadsPastEnd) | test `curr != end` first, so that the end position is never read | medium; not executed | Anatree.SkipGuardReadsPastEnd | Anatree.SubanagramsInto |
