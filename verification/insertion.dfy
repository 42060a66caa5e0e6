/** The insertion engine (`TrieInsert`): descend, and split a leaf when the
    descent lands on one. */
module Insertion {
  import opened Common
  import opened TrieNode
  import opened EdgeSet

  /** `AsWritten` seeds the case-A branch with the new word's letter as the C
      code does; `Corrected` seeds it with the old tail's next letter. */
  datatype Mode = AsWritten | Corrected

  /** Which exit of `TrieInsert` was taken. */
  datatype Route =
    | MarkedEnd    // input exhausted at a branch: EndOfWord set
    | NewLeaf      // missing edge: one new leaf
    | AlreadyLeaf  // the leaf already holds the remaining input
    | SplitA       // the new word is a prefix of the old leaf's word
    | SplitB       // the old leaf's word is a prefix of the new word
    | SplitC       // both continue with different letters

  datatype Inserted = Inserted(node: Node, route: Route)

  /** Points the slot `i` of branch `p` at `c` (the `p->ptrs[pos] = ...`
      assignment). */
  function SetChild(p: Node, i: nat, c: Node): (q: Node)
    requires p.Branch? && i < |p.edges|
    ensures q.Branch? && q.eow == p.eow && |q.edges| == |p.edges|
    ensures q.edges[i] == Edge(p.edges[i].letter, Some(c))
    ensures forall j :: 0 <= j < |p.edges| && j != i ==> q.edges[j] == p.edges[j]
  {
    p.(edges := p.edges[i := Edge(p.edges[i].letter, Some(c))])
  }

  /** Sets the end-of-word flag of a branch. */
  function MarkEnd(p: Node): (q: Node)
    requires p.Branch?
    ensures q.Branch? && q.eow && q.edges == p.edges
  {
    p.(eow := true)
  }

  /** The node that replaces the slot keyed `c` during a split, where `w` is
      what remains of the new word and `t` what remains of the old leaf's
      suffix, both measured past `c`. Each level re-checks case A (new word
      ends), then case B (old word ends), then either hoists one shared letter
      into a fresh branch or, on a mismatch, hangs both remainders as leaves
      (case C). */
  function Hoist(mode: Mode, c: char, w: string, t: string): (r: Inserted)
    requires w != t
    ensures r.node.Branch?
    decreases |w|
  {
    if |w| == 0 then
      var seed := if mode == AsWritten then c else t[0];
      var n := MarkEnd(CreateNonLeaf(seed));
      Inserted(CreateLeaf(t[0], t[1..], n), SplitA)
    else if |t| == 0 then
      var n := MarkEnd(CreateNonLeaf(w[0]));
      Inserted(CreateLeaf(w[0], w[1..], n), SplitB)
    else if w[0] == t[0] then
      var inner := Hoist(mode, w[0], w[1..], t[1..]);
      Inserted(SetChild(CreateNonLeaf(w[0]), 0, inner.node), inner.route)
    else
      var n := CreateLeaf(w[0], w[1..], CreateNonLeaf(w[0]));
      Inserted(CreateLeaf(t[0], t[1..], n), SplitC)
  }

  /** `TrieInsert(w, n)`: the updated branch and the exit taken, or
      `NullChild` when the descent meets an edge whose child is null. */
  function Insert(mode: Mode, n: Node, w: string): (r: Result<Inserted>)
    requires n.Branch?
    ensures r.Ok? ==> r.value.node.Branch? && r.value.node.eow == (n.eow || w == [])
    decreases |w|
  {
    if w == [] then Ok(Inserted(MarkEnd(n), MarkedEnd))
    else
      match Position(n.edges, w[0])
      case None => Ok(Inserted(CreateLeaf(w[0], w[1..], n), NewLeaf))
      case Some(i) =>
        match n.edges[i].child
        case None => NullChild
        case Some(Leaf(t)) =>
          if t == w[1..] then Ok(Inserted(n, AlreadyLeaf))
          else
            var h := Hoist(mode, w[0], w[1..], t);
            Ok(Inserted(SetChild(n, i, h.node), h.route))
        case Some(child) =>
          match Insert(mode, child, w[1..])
          case NullChild => NullChild
          case Ok(sub) => Ok(Inserted(SetChild(n, i, sub.node), sub.route))
  }

  /** The bootstrap pair `CreateNonLeaf(*word)` then `CreateLeaf(*word,
      word + 1, root)`: a branch root holding one word as a leaf. */
  function CreateTrie(w: string): (r: Node)
    requires |w| > 0
    ensures r.Branch? && Valid(r) && Complete(r)
    ensures Words(r) == {w}
  {
    var root := CreateNonLeaf(w[0]);
    CreateLeafWords(w[0], w[1..], root);
    CreateLeafValid(w[0], w[1..], root);
    CreateLeafComplete(w[0], w[1..], root);
    assert [w[0]] + w[1..] == w;
    CreateLeaf(w[0], w[1..], root)
  }

  /** Builds a dictionary from a word list: the first word bootstraps the
      trie and every later one is inserted in order. */
  function Build(mode: Mode, words: seq<string>): (r: Result<Node>)
    requires |words| > 0 && |words[0]| > 0
    ensures r.Ok? ==> r.value.Branch?
  {
    if |words| == 1 then Ok(CreateTrie(words[0]))
    else
      match Build(mode, words[..|words| - 1])
      case NullChild => NullChild
      case Ok(t) =>
        match Insert(mode, t, words[|words| - 1])
        case NullChild => NullChild
        case Ok(ins) => Ok(ins.node)
  }

  /** A branch whose only edge is `l` -> `c` stores `l` in front of the words
      of `c`. */
  lemma SingleEdgeWords(l: char, c: Node, eow: bool)
    ensures Words(Branch(eow, [Edge(l, Some(c))])) == (if eow then {[]} else {}) + Prepend(l, Words(c))
  {
    EdgeWordsSingle(Edge(l, Some(c)));
  }

  /** Every edge of a leaf-filled seed branch carries its seed letter. */
  lemma SeededLetters(seed: char, ch: char, suffix: string, eow: bool)
    ensures forall e :: e in CreateLeaf(ch, suffix, Branch(eow, [Edge(seed, None)])).edges ==>
              e.letter == seed || e.letter == ch
  {
  }

  /** Case A and case B: a flagged seed branch plus one leaf stores the
      empty remainder and the leaf's word. */
  lemma FlaggedSeedWords(seed: char, ch: char, rest: string)
    ensures Words(CreateLeaf(ch, rest, MarkEnd(CreateNonLeaf(seed)))) == {[], [ch] + rest}
  {
    var n := MarkEnd(CreateNonLeaf(seed));
    EdgeWordsSingle(Edge(seed, None));
    assert Words(n) == {[]};
    CreateLeafWords(ch, rest, n);
  }

  /** Case C: two leaves under a fresh branch. */
  lemma TwoLeavesWords(a: char, ra: string, b: char, rb: string)
    requires a != b
    ensures Words(CreateLeaf(b, rb, CreateLeaf(a, ra, CreateNonLeaf(a)))) == {[a] + ra, [b] + rb}
  {
    var seedNode := CreateNonLeaf(a);
    var n := CreateLeaf(a, ra, seedNode);
    CreateLeafWords(a, ra, seedNode);
    SeededLetters(a, a, ra, false);
    assert Position(n.edges, b).None?;
    CreateLeafWords(b, rb, n);
  }

  /** A hoisted letter: a fresh branch whose one edge leads to the rest of
      the split. */
  lemma HoistedWords(l: char, inner: Node, w: string, t: string)
    requires Words(inner) == {w, t}
    ensures Words(SetChild(CreateNonLeaf(l), 0, inner)) == {[l] + w, [l] + t}
  {
    assert SetChild(CreateNonLeaf(l), 0, inner) == Branch(false, [Edge(l, Some(inner))]);
    SingleEdgeWords(l, inner, false);
    PrependSingle(l, w);
    PrependSingle(l, t);
    PrependUnion(l, {w}, {t});
    assert {w, t} == {w} + {t};
  }

  /** The replacement node of a split stores exactly the two remainders. */
  lemma {:induction false} HoistWords(mode: Mode, c: char, w: string, t: string)
    requires w != t
    ensures Words(Hoist(mode, c, w, t).node) == {w, t}
    decreases |w|, 1
  {
    if |w| == 0 {
      HoistWordsA(mode, c, w, t);
    } else if |t| == 0 {
      HoistWordsB(mode, c, w, t);
    } else if w[0] == t[0] {
      HoistSharedWords(mode, c, w, t);
    } else {
      HoistWordsC(mode, c, w, t);
    }
  }

  lemma HoistWordsA(mode: Mode, c: char, w: string, t: string)
    requires w != t && |w| == 0
    ensures Words(Hoist(mode, c, w, t).node) == {w, t}
  {
    var seed := if mode == AsWritten then c else t[0];
    assert Hoist(mode, c, w, t).node == CreateLeaf(t[0], t[1..], MarkEnd(CreateNonLeaf(seed)));
    FlaggedSeedWords(seed, t[0], t[1..]);
    assert [t[0]] + t[1..] == t;
  }

  lemma HoistWordsB(mode: Mode, c: char, w: string, t: string)
    requires w != t && |w| > 0 && |t| == 0
    ensures Words(Hoist(mode, c, w, t).node) == {w, t}
  {
    assert Hoist(mode, c, w, t).node == CreateLeaf(w[0], w[1..], MarkEnd(CreateNonLeaf(w[0])));
    FlaggedSeedWords(w[0], w[0], w[1..]);
    assert [w[0]] + w[1..] == w;
  }

  lemma HoistWordsC(mode: Mode, c: char, w: string, t: string)
    requires w != t && |w| > 0 && |t| > 0 && w[0] != t[0]
    ensures Words(Hoist(mode, c, w, t).node) == {w, t}
  {
    assert Hoist(mode, c, w, t).node == CreateLeaf(t[0], t[1..], CreateLeaf(w[0], w[1..], CreateNonLeaf(w[0])));
    TwoLeavesWords(w[0], w[1..], t[0], t[1..]);
    assert [w[0]] + w[1..] == w;
    assert [t[0]] + t[1..] == t;
  }

  lemma {:induction false} HoistSharedWords(mode: Mode, c: char, w: string, t: string)
    requires w != t && |w| > 0 && |t| > 0 && w[0] == t[0]
    ensures Words(Hoist(mode, c, w, t).node) == {w, t}
    decreases |w|, 0
  {
    var inner := Hoist(mode, w[0], w[1..], t[1..]);
    HoistShared(mode, c, w, t);
    HoistWords(mode, w[0], w[1..], t[1..]);
    HoistedWords(w[0], inner.node, w[1..], t[1..]);
    assert [w[0]] + w[1..] == w;
    assert [w[0]] + t[1..] == t;
  }

  /** A shared next letter is hoisted into a fresh one-edge branch. */
  lemma HoistShared(mode: Mode, c: char, w: string, t: string)
    requires w != t && |w| > 0 && |t| > 0 && w[0] == t[0]
    ensures Hoist(mode, c, w, t).node == SetChild(CreateNonLeaf(w[0]), 0, Hoist(mode, w[0], w[1..], t[1..]).node)
    ensures Hoist(mode, c, w, t).route == Hoist(mode, w[0], w[1..], t[1..]).route
  {
  }

  /** Inserting a new word whose descent lands on a leaf with a different
      tail replaces that leaf by the split. */
  lemma InsertAtLeaf(mode: Mode, n: Node, w: string, i: nat, t: string)
    requires n.Branch? && w != [] && Position(n.edges, w[0]) == Some(i)
    requires n.edges[i].child == Some(Leaf(t)) && t != w[1..]
    ensures Insert(mode, n, w) ==
      Ok(Inserted(SetChild(n, i, Hoist(mode, w[0], w[1..], t).node), Hoist(mode, w[0], w[1..], t).route))
  {
  }

  /** Re-pointing one slot changes the word set by what the new child adds. */
  lemma SetChildWords(p: Node, i: nat, c: Node, extra: set<string>)
    requires p.Branch? && i < |p.edges|
    requires Prepend(p.edges[i].letter, Words(c)) == EdgeContrib(p.edges[i]) + extra
    ensures Words(SetChild(p, i, c)) == Words(p) + extra
  {
    EdgeWordsUpdate(p.edges, i, Edge(p.edges[i].letter, Some(c)), extra);
  }

  /** Inserting a word adds exactly that word to the stored set, whichever
      exit `TrieInsert` takes (or the insertion faults on a null child). */
  lemma {:induction false} InsertWords(mode: Mode, n: Node, w: string)
    requires n.Branch?
    ensures Insert(mode, n, w).Ok? ==> Words(Insert(mode, n, w).value.node) == Words(n) + {w}
    decreases |w|, 1
  {
    if w == [] {
    } else if Position(n.edges, w[0]).None? {
      CreateLeafWords(w[0], w[1..], n);
      assert [w[0]] + w[1..] == w;
    } else {
      var i := Position(n.edges, w[0]).value;
      match n.edges[i].child
      case None =>
      case Some(Leaf(t)) =>
        InsertAtLeafWords(mode, n, w, i, t);
      case Some(child) =>
        InsertBelowWords(mode, n, w, i, child);
    }
  }

  lemma InsertAtLeafWords(mode: Mode, n: Node, w: string, i: nat, t: string)
    requires n.Branch? && w != [] && Position(n.edges, w[0]) == Some(i)
    requires n.edges[i].child == Some(Leaf(t))
    ensures Insert(mode, n, w).Ok? && Words(Insert(mode, n, w).value.node) == Words(n) + {w}
  {
    var l := w[0];
    assert [l] + w[1..] == w;
    PrependSingle(l, t);
    assert EdgeContrib(n.edges[i]) == {[l] + t};
    if t == w[1..] {
      EdgeWordsMember(n.edges, w);
    } else {
      var h := Hoist(mode, l, w[1..], t);
      InsertAtLeaf(mode, n, w, i, t);
      HoistWords(mode, l, w[1..], t);
      PrependSingle(l, w[1..]);
      PrependUnion(l, {w[1..]}, {t});
      assert {w[1..], t} == {w[1..]} + {t};
      SetChildWords(n, i, h.node, {w});
    }
  }

  lemma {:induction false} InsertBelowWords(mode: Mode, n: Node, w: string, i: nat, child: Node)
    requires n.Branch? && w != [] && Position(n.edges, w[0]) == Some(i)
    requires n.edges[i].child == Some(child) && child.Branch?
    ensures Insert(mode, n, w).Ok? ==> Words(Insert(mode, n, w).value.node) == Words(n) + {w}
    decreases |w|, 0
  {
    var l := w[0];
    match Insert(mode, child, w[1..])
    case NullChild =>
    case Ok(sub) =>
      assert Insert(mode, n, w) == Ok(Inserted(SetChild(n, i, sub.node), sub.route));
      InsertWords(mode, child, w[1..]);
      PrependGrown(l, Words(child), Words(sub.node), w[1..]);
      assert [l] + w[1..] == w;
      SetChildWords(n, i, sub.node, {w});
  }

  lemma PrependGrown(l: char, before: set<string>, after: set<string>, w: string)
    requires after == before + {w}
    ensures Prepend(l, after) == Prepend(l, before) + {[l] + w}
  {
    PrependSingle(l, w);
    PrependUnion(l, before, {w});
  }

  lemma SetChildValid(p: Node, i: nat, c: Node)
    requires p.Branch? && i < |p.edges| && Valid(p) && Valid(c)
    ensures Valid(SetChild(p, i, c))
  {
    var q := SetChild(p, i, c);
    forall e | e in q.edges && e.child.Some?
      ensures Valid(e.child.value)
    {
      var j :| 0 <= j < |q.edges| && q.edges[j] == e;
      if j != i {
        assert p.edges[j] in p.edges;
      }
    }
  }

  lemma SetChildComplete(p: Node, i: nat, c: Node)
    requires p.Branch? && i < |p.edges| && Complete(p) && Complete(c)
    ensures Complete(SetChild(p, i, c))
  {
    var q := SetChild(p, i, c);
    forall e | e in q.edges
      ensures e.child.Some? && Complete(e.child.value)
    {
      var j :| 0 <= j < |q.edges| && q.edges[j] == e;
      if j != i {
        assert p.edges[j] in p.edges;
      }
    }
  }

  /** A split always yields branches with sorted edge sets. */
  lemma {:induction false} HoistValid(mode: Mode, c: char, w: string, t: string)
    requires w != t
    ensures Valid(Hoist(mode, c, w, t).node)
    decreases |w|
  {
    if |w| == 0 {
      var seed := if mode == AsWritten then c else t[0];
      CreateLeafValid(t[0], t[1..], MarkEnd(CreateNonLeaf(seed)));
    } else if |t| == 0 {
      CreateLeafValid(w[0], w[1..], MarkEnd(CreateNonLeaf(w[0])));
    } else if w[0] == t[0] {
      HoistValid(mode, w[0], w[1..], t[1..]);
      SetChildValid(CreateNonLeaf(w[0]), 0, Hoist(mode, w[0], w[1..], t[1..]).node);
    } else {
      CreateLeafValid(w[0], w[1..], CreateNonLeaf(w[0]));
      CreateLeafValid(t[0], t[1..], CreateLeaf(w[0], w[1..], CreateNonLeaf(w[0])));
    }
  }

  /** Insertion keeps every edge set sorted and distinct. */
  lemma {:induction false} InsertValid(mode: Mode, n: Node, w: string)
    requires n.Branch? && Valid(n)
    ensures Insert(mode, n, w).Ok? ==> Valid(Insert(mode, n, w).value.node)
    decreases |w|
  {
    if w == [] {
    } else if Position(n.edges, w[0]).None? {
      CreateLeafValid(w[0], w[1..], n);
    } else {
      var i := Position(n.edges, w[0]).value;
      assert n.edges[i] in n.edges;
      match n.edges[i].child
      case None =>
      case Some(Leaf(t)) =>
        if t != w[1..] {
          HoistValid(mode, w[0], w[1..], t);
          SetChildValid(n, i, Hoist(mode, w[0], w[1..], t).node);
        }
      case Some(child) =>
        InsertValid(mode, child, w[1..]);
        if Insert(mode, child, w[1..]).Ok? {
          SetChildValid(n, i, Insert(mode, child, w[1..]).value.node);
        }
    }
  }

  /** Every split except the as-written case A leaves no null child. */
  lemma {:induction false} HoistComplete(mode: Mode, c: char, w: string, t: string)
    requires w != t
    requires mode == Corrected || Hoist(mode, c, w, t).route != SplitA
    ensures Complete(Hoist(mode, c, w, t).node)
    decreases |w|
  {
    if |w| == 0 {
      assert mode == Corrected;
      CreateLeafComplete(t[0], t[1..], MarkEnd(CreateNonLeaf(t[0])));
    } else if |t| == 0 {
      CreateLeafComplete(w[0], w[1..], MarkEnd(CreateNonLeaf(w[0])));
    } else if w[0] == t[0] {
      var inner := Hoist(mode, w[0], w[1..], t[1..]).node;
      HoistComplete(mode, w[0], w[1..], t[1..]);
      assert SetChild(CreateNonLeaf(w[0]), 0, inner) == Branch(false, [Edge(w[0], Some(inner))]);
    } else {
      var n := CreateLeaf(w[0], w[1..], CreateNonLeaf(w[0]));
      CreateLeafComplete(w[0], w[1..], CreateNonLeaf(w[0]));
      CreateLeafComplete(t[0], t[1..], n);
    }
  }

  /** On a trie without null children insertion never faults, and the result
      again has no null child unless the as-written case A ran. */
  lemma {:induction false} InsertComplete(mode: Mode, n: Node, w: string)
    requires n.Branch? && Valid(n) && Complete(n)
    ensures Insert(mode, n, w).Ok?
    ensures mode == Corrected || Insert(mode, n, w).value.route != SplitA
            ==> Complete(Insert(mode, n, w).value.node)
    decreases |w|
  {
    if w == [] {
    } else if Position(n.edges, w[0]).None? {
      CreateLeafComplete(w[0], w[1..], n);
    } else {
      var i := Position(n.edges, w[0]).value;
      assert n.edges[i] in n.edges;
      match n.edges[i].child
      case Some(Leaf(t)) =>
        if t != w[1..] {
          var h := Hoist(mode, w[0], w[1..], t);
          if mode == Corrected || h.route != SplitA {
            HoistComplete(mode, w[0], w[1..], t);
            SetChildComplete(n, i, h.node);
          }
        }
      case Some(child) =>
        InsertComplete(mode, child, w[1..]);
        var sub := Insert(mode, child, w[1..]).value;
        if mode == Corrected || sub.route != SplitA {
          SetChildComplete(n, i, sub.node);
        }
    }
  }

  /** Re-inserting a stored word changes nothing: either the end-of-word
      flag is already set or the leaf already holds the remaining input. */
  lemma {:induction false} InsertIdempotent(mode: Mode, n: Node, w: string)
    requires n.Branch? && Valid(n) && w in Words(n)
    ensures Insert(mode, n, w).Ok? && Insert(mode, n, w).value.node == n
    ensures Insert(mode, n, w).value.route in {MarkedEnd, AlreadyLeaf}
    decreases |w|
  {
    BranchMember(n, w);
    if w != [] {
      var i := Position(n.edges, w[0]).value;
      assert n.edges[i] in n.edges;
      match n.edges[i].child
      case Some(Leaf(t)) =>
      case Some(child) =>
        InsertIdempotent(mode, child, w[1..]);
        assert SetChild(n, i, child) == n;
    }
  }

  /** The as-written case A: the new branch ends the new word and holds the
      old tail as a leaf, but when the new word's last letter differs from the
      old tail's next letter it also keeps the seeded edge with a null child,
      so it has two edges where one was meant. Seeding with the old tail's
      letter instead gives the single flagged edge intended. */
  lemma CaseALeavesNullEdge(c: char, t: string)
    requires |t| > 0
    ensures Hoist(AsWritten, c, [], t).route == SplitA
    ensures var n := Hoist(AsWritten, c, [], t).node;
      && n.eow
      && Position(n.edges, t[0]).Some?
      && n.edges[Position(n.edges, t[0]).value] == Edge(t[0], Some(Leaf(t[1..])))
      && |n.edges| == (if c == t[0] then 1 else 2)
      && (c != t[0] <==> Position(n.edges, c).Some? && n.edges[Position(n.edges, c).value].child.None?)
      && (Complete(n) <==> c == t[0])
    ensures Hoist(Corrected, c, [], t).node == Branch(true, [Edge(t[0], Some(Leaf(t[1..])))])
  {
    SeededLeaf(c, t[0], t[1..], true);
    SeededLeaf(t[0], t[0], t[1..], true);
    var n := Hoist(AsWritten, c, [], t).node;
    assert n == CreateLeaf(t[0], t[1..], Branch(true, [Edge(c, None)]));
    var k := if c < t[0] then 0 else 1;
    if c != t[0] {
      assert n.edges[k] in n.edges;
    } else {
      assert n.edges[0] in n.edges;
      assert Complete(Leaf(t[1..]));
    }
  }

  /** Case B (the old word ends where the new one goes on) replaces the leaf by
      one end-of-word branch with a single edge, keyed by the new word's next
      letter and leading to a leaf holding the rest of the new word. */
  lemma CaseBSingleBranch(mode: Mode, c: char, w: string)
    requires |w| > 0
    ensures Hoist(mode, c, w, []).route == SplitB
    ensures Hoist(mode, c, w, []).node == Branch(true, [Edge(w[0], Some(Leaf(w[1..])))])
  {
    SeededLeaf(w[0], w[0], w[1..], true);
  }

  /** Filling a one-edge seed branch: the leaf takes over the seed's slot when
      the letters agree, and otherwise sits beside the seed in letter order. */
  lemma SeededLeaf(seed: char, ch: char, suffix: string, eow: bool)
    ensures CreateLeaf(ch, suffix, Branch(eow, [Edge(seed, None)])) ==
      if seed == ch then Branch(eow, [Edge(ch, Some(Leaf(suffix)))])
      else if seed < ch then Branch(eow, [Edge(seed, None), Edge(ch, Some(Leaf(suffix)))])
      else Branch(eow, [Edge(ch, Some(Leaf(suffix))), Edge(seed, None)])
  {
    if seed == ch {
      SeededLeafSame(ch, suffix, eow);
    } else {
      SeededLeafBeside(seed, ch, suffix, eow);
    }
  }

  lemma SeededLeafSame(ch: char, suffix: string, eow: bool)
    ensures CreateLeaf(ch, suffix, Branch(eow, [Edge(ch, None)])) == Branch(eow, [Edge(ch, Some(Leaf(suffix)))])
  {
    assert Position([Edge(ch, None)], ch) == Some(0);
  }

  lemma SeededLeafBeside(seed: char, ch: char, suffix: string, eow: bool)
    requires seed != ch
    ensures CreateLeaf(ch, suffix, Branch(eow, [Edge(seed, None)])) ==
      if seed < ch then Branch(eow, [Edge(seed, None), Edge(ch, Some(Leaf(suffix)))])
      else Branch(eow, [Edge(ch, Some(Leaf(suffix))), Edge(seed, None)])
  {
    var edges := [Edge(seed, None)];
    var e := Edge(ch, Some(Leaf(suffix)));
    assert Position(edges, ch) == None;
    var pos := if seed < ch then 1 else 0;
    assert SortedSlot(edges, ch) == pos;
    CreateLeafAbsent(ch, suffix, Branch(eow, edges));
    if seed < ch {
      assert edges[..1] + [e] + edges[1..] == [Edge(seed, None), e];
    } else {
      assert edges[..0] + [e] + edges[0..] == [e, Edge(seed, None)];
    }
  }

  /** A built dictionary stores exactly the listed words, in sorted branches. */
  lemma {:induction false} BuildWords(mode: Mode, words: seq<string>)
    requires |words| > 0 && |words[0]| > 0
    ensures Build(mode, words).Ok? ==>
      Valid(Build(mode, words).value) && Words(Build(mode, words).value) == set w | w in words
    decreases |words|
  {
    if |words| > 1 {
      var init, last := words[..|words| - 1], words[|words| - 1];
      assert words == init + [last];
      BuildWords(mode, init);
      match Build(mode, init)
      case NullChild =>
      case Ok(t) =>
        InsertWords(mode, t, last);
        InsertValid(mode, t, last);
        WordSetSnoc(init, last);
    }
  }

  lemma WordSetSnoc(init: seq<string>, w: string)
    ensures (set x | x in init + [w]) == (set x | x in init) + {w}
  {
  }

  /** With the corrected case A, building never faults and leaves no null
      child. */
  lemma {:induction false} BuildCorrected(words: seq<string>)
    requires |words| > 0 && |words[0]| > 0
    ensures Build(Corrected, words).Ok?
    ensures Complete(Build(Corrected, words).value)
    decreases |words|
  {
    if |words| > 1 {
      var init := words[..|words| - 1];
      BuildCorrected(init);
      BuildWords(Corrected, init);
      InsertComplete(Corrected, Build(Corrected, init).value, words[|words| - 1]);
    }
  }

  /** Inserting "CAT" and then "CA" runs the as-written case A: the branch
      that ends "CA" keeps the seeded edge 'A' with a null child beside the
      leaf for 'T'. */
  lemma CatCaTrie()
    ensures Build(AsWritten, ["CAT", "CA"]) ==
      Ok(Branch(false, [Edge('C', Some(Branch(false, [Edge('A', Some(
        Branch(true, [Edge('A', None), Edge('T', Some(Leaf("")))])))])))]))
  {
    var t0 := Branch(false, [Edge('C', Some(Leaf("AT")))]);
    assert CreateTrie("CAT") == t0;
    assert ["CAT", "CA"][..1] == ["CAT"];
    assert Build(AsWritten, ["CAT", "CA"][..1]) == Ok(t0);
    CaIntoCat();
  }

  /** Inserting "CA" into the trie holding only "CAT". */
  lemma CaIntoCat()
    ensures Insert(AsWritten, Branch(false, [Edge('C', Some(Leaf("AT")))]), "CA").value.node ==
      Branch(false, [Edge('C', Some(Branch(false, [Edge('A', Some(
        Branch(true, [Edge('A', None), Edge('T', Some(Leaf("")))])))])))])
  {
    var t0 := Branch(false, [Edge('C', Some(Leaf("AT")))]);
    assert Position(t0.edges, 'C') == Some(0);
    assert "CA"[0] == 'C' && "CA"[1..] == "A";
    InsertAtLeaf(AsWritten, t0, "CA", 0, "AT");
    SharedTail();
  }

  /** Hoisting the shared letter 'A' of "CA" and "CAT". */
  lemma SharedTail()
    ensures Hoist(AsWritten, 'C', "A", "AT").node ==
      Branch(false, [Edge('A', Some(Branch(true, [Edge('A', None), Edge('T', Some(Leaf("")))])))])
  {
    SeededTail();
    assert "A"[1..] == [] && "AT"[1..] == "T";
  }

  /** The as-written case A for new word "CA" against old tail "T". */
  lemma SeededTail()
    ensures Hoist(AsWritten, 'A', [], "T").node == Branch(true, [Edge('A', None), Edge('T', Some(Leaf("")))])
  {
    SeededLeaf('A', 'T', "", true);
    assert "T"[0] == 'T' && "T"[1..] == "";
  }

  /** Inserting "CAA" after "CAT" and "CA" follows the null edge the
      as-written case A left; the corrected build succeeds. */
  lemma CaseAFaultExample()
    ensures Build(AsWritten, ["CAT", "CA", "CAA"]) == NullChild
    ensures Build(Corrected, ["CAT", "CA", "CAA"]).Ok?
  {
    CatCaTrie();
    var n2 := Branch(true, [Edge('A', None), Edge('T', Some(Leaf("")))]);
    var t1 := Branch(false, [Edge('C', Some(Branch(false, [Edge('A', Some(n2))])))]);
    assert ["CAT", "CA", "CAA"][..2] == ["CAT", "CA"];
    assert Insert(AsWritten, n2, "A") == NullChild;
    assert Insert(AsWritten, t1, "CAA") == NullChild;
    BuildCorrected(["CAT", "CA", "CAA"]);
  }
}
