/** Exact search (`SearchTrie`). */
module Lookup {
  import opened Common
  import opened TrieNode
  import opened EdgeSet

  /** Descends one input letter per branch level; at a leaf the whole
      remaining input must equal the stored suffix, and at the end of the
      input the branch's end-of-word flag decides. A missing edge or a null
      child means "not found". */
  function Search(n: Node, w: string): bool
    decreases |w|
  {
    match n
    case Leaf(s) => w == s
    case Branch(eow, edges) =>
      if w == [] then eow
      else
        match Position(edges, w[0])
        case None => false
        case Some(i) =>
          match edges[i].child
          case None => false
          case Some(c) => Search(c, w[1..])
  }

  /** On a trie whose edge sets are sorted, search answers exactly membership
      in the stored word set. */
  lemma {:induction false} SearchIsMembership(n: Node, w: string)
    requires Valid(n)
    ensures Search(n, w) <==> w in Words(n)
    decreases |w|
  {
    if n.Branch? {
      BranchMember(n, w);
      if w != [] && Position(n.edges, w[0]).Some? {
        var e := n.edges[Position(n.edges, w[0]).value];
        if e.child.Some? {
          assert e in n.edges;
          SearchIsMembership(e.child.value, w[1..]);
        }
      }
    }
  }
}
