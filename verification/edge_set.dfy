/** The edge set of a branch and the node factories: `Position`, `AddCell`,
    `CreateNonLeaf` and `CreateLeaf`. */
module EdgeSet {
  import opened Common
  import opened TrieNode

  /** Linear scan for `ch`: the index of the first edge with that letter,
      `None` for the C `notFound`. */
  function Position(edges: seq<Edge>, ch: char): (r: Option<nat>)
    ensures r.Some? ==> r.value < |edges| && edges[r.value].letter == ch
    ensures r.Some? ==> forall j :: 0 <= j < r.value ==> edges[j].letter != ch
    ensures r.None? <==> forall j :: 0 <= j < |edges| ==> edges[j].letter != ch
  {
    if edges == [] then None
    else if edges[0].letter == ch then Some(0)
    else
      match Position(edges[1..], ch)
      case None => None
      case Some(k) => Some(k + 1)
  }

  /** The first index whose letter is not below `ch`: where `CreateLeaf`
      inserts a new edge. */
  function SortedSlot(edges: seq<Edge>, ch: char): (pos: nat)
    ensures pos <= |edges|
    ensures forall j :: 0 <= j < pos ==> edges[j].letter < ch
    ensures pos < |edges| ==> edges[pos].letter >= ch
  {
    if edges == [] || edges[0].letter >= ch then 0
    else 1 + SortedSlot(edges[1..], ch)
  }

  /** Grows the edge set by one slot at `stop`, labelled `ch`, whose child is
      null (the fresh `calloc` slot); all old pairs move along unchanged. */
  function AddCell(ch: char, p: Node, stop: nat): (q: Node)
    requires p.Branch? && stop <= |p.edges|
    ensures q.Branch? && q.eow == p.eow
    ensures |q.edges| == |p.edges| + 1
    ensures multiset(q.edges) == multiset(p.edges) + multiset{Edge(ch, None)}
    ensures q.edges[stop] == Edge(ch, None)
    ensures SortedEdges(p.edges)
            && (forall j :: 0 <= j < stop ==> p.edges[j].letter < ch)
            && (forall j :: stop <= j < |p.edges| ==> ch < p.edges[j].letter)
            ==> SortedEdges(q.edges)
  {
    var r := p.(edges := p.edges[..stop] + [Edge(ch, None)] + p.edges[stop..]);
    assert p.edges == p.edges[..stop] + p.edges[stop..];
    SlotKeepsSorted(p.edges, r.edges, stop, ch);
    r
  }

  /** A fresh branch seeded with the single letter `ch` and a null child. */
  function CreateNonLeaf(ch: char): (r: Node)
    ensures r.Branch? && !r.eow
    ensures Valid(r) && Words(r) == {}
    ensures |r.edges| == 1
    ensures Position(r.edges, ch) == Some(0) && r.edges[0].child.None?
    ensures !Complete(r)
  {
    var r := Branch(false, [Edge(ch, None)]);
    EdgeWordsSingle(Edge(ch, None));
    assert r.edges[0] in r.edges;
    r
  }

  /** Points the edge `ch` of `p` at a new leaf holding `suffix`, adding the
      edge at its sorted place first when `ch` is absent. */
  function CreateLeaf(ch: char, suffix: string, p: Node): (q: Node)
    requires p.Branch?
    ensures q.Branch? && q.eow == p.eow
    ensures Position(q.edges, ch).Some?
    ensures q.edges[Position(q.edges, ch).value] == Edge(ch, Some(Leaf(suffix)))
    ensures forall e :: e in p.edges && e.letter != ch ==> e in q.edges
    ensures forall e :: e in q.edges && e.letter != ch ==> e in p.edges
    ensures |q.edges| == |p.edges| + (if Position(p.edges, ch).None? then 1 else 0)
    ensures SortedEdges(p.edges) ==> SortedEdges(q.edges)
  {
    match Position(p.edges, ch)
    case Some(pos) =>
      var q := p.(edges := p.edges[pos := Edge(ch, Some(Leaf(suffix)))]);
      SetChildFacts(p.edges, pos, Edge(ch, Some(Leaf(suffix))));
      q
    case None =>
      var pos := SortedSlot(p.edges, ch);
      var grown := AddCell(ch, p, pos);
      var q := grown.(edges := grown.edges[pos := Edge(ch, Some(Leaf(suffix)))]);
      AddedEdgeFacts(p.edges, grown.edges, pos, ch);
      SetChildFacts(grown.edges, pos, Edge(ch, Some(Leaf(suffix))));
      q
  }

  /** Position only looks at letters. */
  lemma {:induction false} PositionByLetters(a: seq<Edge>, b: seq<Edge>, ch: char)
    requires |a| == |b|
    requires forall j :: 0 <= j < |a| ==> a[j].letter == b[j].letter
    ensures Position(a, ch) == Position(b, ch)
    decreases |a|
  {
    if a != [] {
      PositionByLetters(a[1..], b[1..], ch);
    }
  }

  /** Overwriting the child of an edge keeps the letters and every other edge. */
  lemma SetChildFacts(edges: seq<Edge>, pos: nat, e: Edge)
    requires pos < |edges| && edges[pos].letter == e.letter
    ensures Position(edges[pos := e], e.letter) == Position(edges, e.letter)
    ensures forall x :: x in edges && x.letter != e.letter ==> x in edges[pos := e]
    ensures forall x :: x in edges[pos := e] && x.letter != e.letter ==> x in edges
    ensures SortedEdges(edges) ==> SortedEdges(edges[pos := e])
  {
    var q := edges[pos := e];
    PositionByLetters(q, edges, e.letter);
    forall x | x in edges && x.letter != e.letter
      ensures x in q
    {
      var j :| 0 <= j < |edges| && edges[j] == x;
      assert q[j] == x;
    }
    forall x | x in q && x.letter != e.letter
      ensures x in edges
    {
      var j :| 0 <= j < |q| && q[j] == x;
      assert edges[j] == x;
    }
  }

  /** The edge set `AddCell` produces for an absent letter at its sorted slot. */
  lemma AddedEdgeFacts(before: seq<Edge>, grown: seq<Edge>, pos: nat, ch: char)
    requires Position(before, ch).None?
    requires pos == SortedSlot(before, ch)
    requires grown == before[..pos] + [Edge(ch, None)] + before[pos..]
    ensures Position(grown, ch) == Some(pos)
    ensures forall x :: x in before ==> x in grown
    ensures forall x :: x in grown && x.letter != ch ==> x in before
    ensures SortedEdges(before) ==> SortedEdges(grown)
  {
    assert before == before[..pos] + before[pos..];
    GrownAt(before, grown, pos, ch);
    if SortedEdges(before) {
      AddedSorted(before, grown, pos, ch);
    }
  }

  /** Where each edge of the grown set comes from. */
  lemma GrownAt(before: seq<Edge>, grown: seq<Edge>, pos: nat, ch: char)
    requires pos <= |before| && grown == before[..pos] + [Edge(ch, None)] + before[pos..]
    ensures |grown| == |before| + 1 && grown[pos] == Edge(ch, None)
    ensures forall j :: 0 <= j < pos ==> grown[j] == before[j]
    ensures forall j :: pos < j < |grown| ==> grown[j] == before[j - 1]
  {
  }

  lemma AddedSorted(before: seq<Edge>, grown: seq<Edge>, pos: nat, ch: char)
    requires SortedEdges(before) && Position(before, ch).None?
    requires pos == SortedSlot(before, ch)
    requires grown == before[..pos] + [Edge(ch, None)] + before[pos..]
    ensures SortedEdges(grown)
  {
    forall j | pos <= j < |before|
      ensures ch < before[j].letter
    {
      assert before[pos].letter != ch;
      assert j == pos || before[pos].letter < before[j].letter;
    }
    SlotKeepsSorted(before, grown, pos, ch);
  }

  /** A letter placed between the smaller and the larger letters keeps the
      edge set sorted. */
  lemma SlotKeepsSorted(before: seq<Edge>, grown: seq<Edge>, pos: nat, ch: char)
    requires pos <= |before| && grown == before[..pos] + [Edge(ch, None)] + before[pos..]
    ensures SortedEdges(before)
            && (forall j :: 0 <= j < pos ==> before[j].letter < ch)
            && (forall j :: pos <= j < |before| ==> ch < before[j].letter)
            ==> SortedEdges(grown)
  {
    GrownAt(before, grown, pos, ch);
    if SortedEdges(before)
       && (forall j :: 0 <= j < pos ==> before[j].letter < ch)
       && (forall j :: pos <= j < |before| ==> ch < before[j].letter) {
      forall i, j | 0 <= i < j < |grown|
        ensures grown[i].letter < grown[j].letter
      {
        if i == pos {
          assert grown[j] == before[j - 1];
        }
      }
    }
  }

  /** `CreateLeaf` on an absent letter, or on a letter whose slot is null,
      adds exactly the one word `ch` + `suffix`. */
  lemma CreateLeafWords(ch: char, suffix: string, p: Node)
    requires p.Branch?
    requires Position(p.edges, ch).None? || p.edges[Position(p.edges, ch).value].child.None?
    ensures Words(CreateLeaf(ch, suffix, p)) == Words(p) + {[ch] + suffix}
  {
    if Position(p.edges, ch).None? {
      AddLeafWords(ch, suffix, p);
    } else {
      FillLeafWords(ch, suffix, p, Position(p.edges, ch).value);
    }
  }

  lemma FillLeafWords(ch: char, suffix: string, p: Node, pos: nat)
    requires p.Branch? && Position(p.edges, ch) == Some(pos) && p.edges[pos].child.None?
    ensures Words(CreateLeaf(ch, suffix, p)) == Words(p) + {[ch] + suffix}
  {
    var e := Edge(ch, Some(Leaf(suffix)));
    assert CreateLeaf(ch, suffix, p) == Branch(p.eow, p.edges[pos := e]);
    LeafContrib(ch, suffix);
    EdgeWordsUpdate(p.edges, pos, e, {[ch] + suffix});
    EdgeWordsWithLeaf(p, p.edges[pos := e], ch, suffix);
  }

  lemma AddLeafWords(ch: char, suffix: string, p: Node)
    requires p.Branch? && Position(p.edges, ch).None?
    ensures Words(CreateLeaf(ch, suffix, p)) == Words(p) + {[ch] + suffix}
  {
    var e := Edge(ch, Some(Leaf(suffix)));
    var pos := SortedSlot(p.edges, ch);
    var edges := p.edges[..pos] + [e] + p.edges[pos..];
    CreateLeafAbsent(ch, suffix, p);
    LeafContrib(ch, suffix);
    EdgeWordsInsert(p.edges, pos, e);
    EdgeWordsWithLeaf(p, edges, ch, suffix);
  }

  /** On an absent letter `CreateLeaf` places the new leaf edge at the sorted
      slot. */
  lemma CreateLeafAbsent(ch: char, suffix: string, p: Node)
    requires p.Branch? && Position(p.edges, ch).None?
    ensures var pos := SortedSlot(p.edges, ch);
      CreateLeaf(ch, suffix, p) == Branch(p.eow, p.edges[..pos] + [Edge(ch, Some(Leaf(suffix)))] + p.edges[pos..])
  {
    var e := Edge(ch, Some(Leaf(suffix)));
    var pos := SortedSlot(p.edges, ch);
    var grown := AddCell(ch, p, pos);
    assert grown == Branch(p.eow, p.edges[..pos] + [Edge(ch, None)] + p.edges[pos..]);
    assert CreateLeaf(ch, suffix, p) == grown.(edges := grown.edges[pos := e]);
    SlotUpdate(p.edges, pos, Edge(ch, None), e);
  }

  lemma SlotUpdate(edges: seq<Edge>, pos: nat, x: Edge, e: Edge)
    requires pos <= |edges|
    ensures (edges[..pos] + [x] + edges[pos..])[pos := e] == edges[..pos] + [e] + edges[pos..]
  {
  }

  lemma LeafContrib(ch: char, suffix: string)
    ensures EdgeContrib(Edge(ch, Some(Leaf(suffix)))) == {[ch] + suffix}
  {
    PrependSingle(ch, suffix);
  }

  lemma EdgeWordsWithLeaf(p: Node, edges: seq<Edge>, ch: char, suffix: string)
    requires p.Branch?
    requires EdgeWords(edges) == EdgeWords(p.edges) + {[ch] + suffix}
    ensures Words(Branch(p.eow, edges)) == Words(p) + {[ch] + suffix}
  {
  }

  /** In a sorted edge set the edge found by `Position` is the only one with
      its letter. */
  lemma SortedUnique(edges: seq<Edge>, ch: char, e: Edge)
    requires SortedEdges(edges) && e in edges && e.letter == ch
    ensures Position(edges, ch).Some? && edges[Position(edges, ch).value] == e
  {
    var j :| 0 <= j < |edges| && edges[j] == e;
  }

  lemma CreateLeafValid(ch: char, suffix: string, p: Node)
    requires p.Branch? && Valid(p)
    ensures Valid(CreateLeaf(ch, suffix, p))
  {
    var q := CreateLeaf(ch, suffix, p);
    forall e | e in q.edges && e.child.Some?
      ensures Valid(e.child.value)
    {
      if e.letter == ch {
        SortedUnique(q.edges, ch, e);
      }
    }
  }

  /** The new leaf fills the slot of `ch`, so only edges with other letters
      need to have children already. */
  lemma CreateLeafComplete(ch: char, suffix: string, p: Node)
    requires p.Branch? && SortedEdges(p.edges)
    requires forall e :: e in p.edges && e.letter != ch ==> e.child.Some? && Complete(e.child.value)
    ensures Complete(CreateLeaf(ch, suffix, p))
  {
    var q := CreateLeaf(ch, suffix, p);
    forall e | e in q.edges
      ensures e.child.Some? && Complete(e.child.value)
    {
      if e.letter == ch {
        SortedUnique(q.edges, ch, e);
      }
    }
  }

  /** Membership in a branch with a sorted edge set is decided by the one
      edge `Position` finds for the first letter. */
  lemma BranchMember(n: Node, w: string)
    requires n.Branch? && SortedEdges(n.edges)
    ensures w in Words(n) <==>
      if w == [] then n.eow
      else
        && Position(n.edges, w[0]).Some?
        && n.edges[Position(n.edges, w[0]).value].child.Some?
        && w[1..] in Words(n.edges[Position(n.edges, w[0]).value].child.value)
  {
    EdgeWordsMember(n.edges, w);
    if w in EdgeWords(n.edges) {
      var i :| 0 <= i < |n.edges| && w in EdgeContrib(n.edges[i]);
      PrependMember(n.edges[i].letter, Words(n.edges[i].child.value), w);
      SortedUnique(n.edges, w[0], n.edges[i]);
    }
    if w != [] && Position(n.edges, w[0]).Some? {
      var i := Position(n.edges, w[0]).value;
      if n.edges[i].child.Some? {
        PrependMember(n.edges[i].letter, Words(n.edges[i].child.value), w);
      }
    }
  }
}
