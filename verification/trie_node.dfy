/** The node model of the path-compressed trie: a branch keeps an edge set
    (letter, child slot) and an end-of-word flag; a leaf keeps the entire
    remaining suffix of exactly one dictionary word. */
module TrieNode {
  import opened Common

  /** One entry of a branch's parallel `letters`/`ptrs` arrays. */
  datatype Edge = Edge(letter: char, child: Option<Node>)

  datatype Node =
    | Branch(eow: bool, edges: seq<Edge>)
    | Leaf(suffix: string)

  /** Letters of an edge set are strictly ascending, hence distinct. */
  ghost predicate SortedEdges(edges: seq<Edge>) {
    forall i, j :: 0 <= i < j < |edges| ==> edges[i].letter < edges[j].letter
  }

  /** Every branch in the tree keeps its edge set sorted. */
  ghost predicate Valid(n: Node)
    decreases n
  {
    match n
    case Leaf(_) => true
    case Branch(_, edges) =>
      && SortedEdges(edges)
      && forall e :: e in edges && e.child.Some? ==> Valid(e.child.value)
  }

  /** No edge anywhere in the tree has a null child. */
  ghost predicate Complete(n: Node)
    decreases n
  {
    match n
    case Leaf(_) => true
    case Branch(_, edges) =>
      forall e :: e in edges ==> e.child.Some? && Complete(e.child.value)
  }

  /** The words stored below `n`, relative to the path that reaches `n`. */
  ghost function Words(n: Node): set<string>
    decreases n
  {
    match n
    case Leaf(s) => {s}
    case Branch(eow, edges) => (if eow then {[]} else {}) + EdgeWords(edges)
  }

  ghost function EdgeWords(edges: seq<Edge>): set<string>
    decreases edges
  {
    if edges == [] then {} else EdgeContrib(edges[0]) + EdgeWords(edges[1..])
  }

  /** The words reached through one edge: its letter followed by a word of the
      child. A null child contributes nothing. */
  ghost function EdgeContrib(e: Edge): set<string>
    decreases e
  {
    match e.child
    case None => {}
    case Some(c) => Prepend(e.letter, Words(c))
  }

  ghost function Prepend(l: char, s: set<string>): set<string> {
    set w | w in s :: [l] + w
  }

  lemma PrependMember(l: char, s: set<string>, w: string)
    ensures w in Prepend(l, s) <==> |w| > 0 && w[0] == l && w[1..] in s
  {
    if |w| > 0 && w[0] == l && w[1..] in s {
      assert w == [l] + w[1..];
    }
  }

  lemma PrependUnion(l: char, s: set<string>, t: set<string>)
    ensures Prepend(l, s + t) == Prepend(l, s) + Prepend(l, t)
  {
  }

  lemma PrependSingle(l: char, w: string)
    ensures Prepend(l, {w}) == {[l] + w}
  {
  }

  /** A word of an edge set belongs to the contribution of one of its edges. */
  lemma {:induction false} EdgeWordsMember(edges: seq<Edge>, w: string)
    ensures w in EdgeWords(edges) <==> exists i :: 0 <= i < |edges| && w in EdgeContrib(edges[i])
    decreases |edges|
  {
    if edges != [] {
      EdgeWordsMember(edges[1..], w);
      if w in EdgeWords(edges[1..]) {
        var i :| 0 <= i < |edges[1..]| && w in EdgeContrib(edges[1..][i]);
        assert edges[i + 1] == edges[1..][i];
      }
      if exists i :: 0 <= i < |edges| && w in EdgeContrib(edges[i]) {
        var i :| 0 <= i < |edges| && w in EdgeContrib(edges[i]);
        if i > 0 {
          assert edges[1..][i - 1] == edges[i];
        }
      }
    }
  }

  lemma {:induction false} EdgeWordsConcat(a: seq<Edge>, b: seq<Edge>)
    ensures EdgeWords(a + b) == EdgeWords(a) + EdgeWords(b)
    decreases |a|
  {
    if a == [] {
      assert a + b == b;
    } else {
      assert (a + b)[1..] == a[1..] + b;
      EdgeWordsConcat(a[1..], b);
    }
  }

  lemma EdgeWordsSingle(e: Edge)
    ensures EdgeWords([e]) == EdgeContrib(e)
  {
    assert [e][1..] == [];
  }

  /** Replacing one edge changes the word set by exactly the change of that
      edge's contribution, when the new contribution only adds words. */
  lemma EdgeWordsUpdate(edges: seq<Edge>, i: nat, e: Edge, extra: set<string>)
    requires i < |edges|
    requires EdgeContrib(e) == EdgeContrib(edges[i]) + extra
    ensures EdgeWords(edges[i := e]) == EdgeWords(edges) + extra
  {
    var pre, post := edges[..i], edges[i + 1..];
    assert edges == pre + [edges[i]] + post;
    assert edges[i := e] == pre + [e] + post;
    EdgeWordsConcat(pre + [edges[i]], post);
    EdgeWordsConcat(pre, [edges[i]]);
    EdgeWordsConcat(pre + [e], post);
    EdgeWordsConcat(pre, [e]);
    EdgeWordsSingle(e);
    EdgeWordsSingle(edges[i]);
  }

  /** Inserting an edge adds exactly that edge's contribution. */
  lemma EdgeWordsInsert(edges: seq<Edge>, k: nat, e: Edge)
    requires k <= |edges|
    ensures EdgeWords(edges[..k] + [e] + edges[k..]) == EdgeWords(edges) + EdgeContrib(e)
  {
    assert edges == edges[..k] + edges[k..];
    EdgeWordsConcat(edges[..k], edges[k..]);
    EdgeWordsConcat(edges[..k] + [e], edges[k..]);
    EdgeWordsConcat(edges[..k], [e]);
    EdgeWordsSingle(e);
  }
}
