/** The checker as a whole: a dictionary built by the bootstrap pair and
    repeated insertion, exact lookup, and suggestions for a missing word. */
module SpellChecker {
  import opened Common
  import opened TrieNode
  import opened Lookup
  import opened Insertion
  import opened EditDistance
  import opened Suggest

  /** With the corrected case A: the dictionary always builds, lookup answers
      membership in the word list, and suggesting always completes with
      distinct dictionary words within one edit of the query, at most `max`
      of them. */
  lemma CorrectedChecker(words: seq<string>, w: string, query: string, max: int)
    requires |words| > 0 && |words[0]| > 0
    ensures Build(Corrected, words).Ok?
    ensures Search(Build(Corrected, words).value, w) <==> w in words
    ensures SuggestCorrections(Build(Corrected, words).value, query, max).Ok?
    ensures var r := SuggestCorrections(Build(Corrected, words).value, query, max).value;
      && Distinct(r) && (|r| <= max || r == [])
      && forall s :: s in r ==> s in words && WithinOneEdit(query, s)
  {
    BuildCorrected(words);
    BuildWords(Corrected, words);
    var t := Build(Corrected, words).value;
    SearchIsMembership(t, w);
    SuggestionsSound(t, query, max);
  }

  /** As written, whenever building and suggesting complete, the answers are
      the same as above: the defect shows only as a fault, never as a wrong
      answer. */
  lemma AsWrittenChecker(words: seq<string>, w: string, query: string, max: int)
    requires |words| > 0 && |words[0]| > 0
    requires Build(AsWritten, words).Ok?
    ensures Search(Build(AsWritten, words).value, w) <==> w in words
    ensures SuggestCorrections(Build(AsWritten, words).value, query, max).Ok? ==>
      forall s :: s in SuggestCorrections(Build(AsWritten, words).value, query, max).value ==>
        s in words && WithinOneEdit(query, s)
  {
    BuildWords(AsWritten, words);
    var t := Build(AsWritten, words).value;
    SearchIsMembership(t, w);
    SuggestionsSound(t, query, max);
  }

  /** The branch that ends "CA" in the as-written trie for "CAT", "CA". */
  function CaBranch(): Node {
    Branch(true, [Edge('A', None), Edge('T', Some(Leaf("")))])
  }

  /** Below "CA" with "X" left to match: the insertion move collects "CA",
      then substituting 'A' for 'X' visits the null edge. */
  lemma CaBranchFault()
    ensures Dfs(CaBranch(), "CAX", 2, "CA", 0, [], 5) == NullChild
  {
    var q := "CAX";
    assert q[2] == 'X' && |q| == 3;
    assert AddSuggestion([], "CA", 5) == ["CA"];
    assert Moves(CaBranch(), q, 3, "CA", 1, 0, ["CA"], 5) == Ok(["CA"]);
    assert Transpose(CaBranch(), q, 3, "CA", 1, ["CA"], 5) == Ok(["CA"]);
    assert Dfs(CaBranch(), q, 3, "CA", 1, [], 5) == Ok(["CA"]);
    assert Visit(CaBranch(), 0, q, 3, "CA", 1, ["CA"], 5) == NullChild;
    assert Moves(CaBranch(), q, 2, "CA", 0, 0, ["CA"], 5) == NullChild;
  }

  /** Below "C" with "AX" left: nothing is found once the edit is spent on an
      insertion, then the exact move on 'A' reaches the faulting branch. */
  lemma CBranchFault()
    ensures Dfs(Branch(false, [Edge('A', Some(CaBranch()))]), "CAX", 1, "C", 0, [], 5) == NullChild
  {
    var n1 := Branch(false, [Edge('A', Some(CaBranch()))]);
    var q := "CAX";
    assert q[1] == 'A' && q[2] == 'X' && |q| == 3;
    assert "C" + ['A'] == "CA";
    CaBranchFault();
    assert Moves(n1, q, 2, "C", 1, 0, [], 5) == Ok([]);
    assert Dfs(n1, q, 2, "C", 1, [], 5) == Ok([]);
    assert Moves(n1, q, 1, "C", 0, 0, [], 5) == NullChild;
  }

  /** After "CAT" and "CA", suggesting for "CAX" follows the null edge the
      as-written case A left; the corrected dictionary answers. */
  lemma SuggestFaultExample()
    ensures Build(AsWritten, ["CAT", "CA"]).Ok?
    ensures SuggestCorrections(Build(AsWritten, ["CAT", "CA"]).value, "CAX", 5) == NullChild
    ensures SuggestCorrections(Build(Corrected, ["CAT", "CA"]).value, "CAX", 5).Ok?
  {
    CatCaTrie();
    var n1 := Branch(false, [Edge('A', Some(CaBranch()))]);
    var t1 := Branch(false, [Edge('C', Some(n1))]);
    assert Build(AsWritten, ["CAT", "CA"]) == Ok(t1);
    var q := "CAX";
    assert q[0] == 'C' && q[1] == 'A' && |q| == 3;
    assert [] + ['C'] == "C";
    CBranchFault();
    assert Moves(t1, q, 1, [], 1, 0, [], 5) == Ok([]);
    assert Dfs(t1, q, 1, [], 1, [], 5) == Ok([]);
    assert Moves(t1, q, 0, [], 0, 0, [], 5) == NullChild;
    CorrectedChecker(["CAT", "CA"], "CA", q, 5);
  }
}
