/** The suggestion engine: a depth-first walk that spends at most one edit
    (`dfsSuggest`), its de-duplicating capped collector (`add_suggestion`)
    and its entry point (`SuggestCorrections`). */
module Suggest {
  import opened Common
  import opened TrieNode
  import opened EdgeSet
  import opened EditDistance
  import opened TailMatch

  ghost predicate Distinct(box: seq<string>) {
    forall i, j :: 0 <= i < j < |box| ==> box[i] != box[j]
  }

  /** What one step of the walk may do to the collector: keep what is there,
      append only while under the cap, and never introduce a duplicate. */
  ghost predicate Grew(box: seq<string>, r: seq<string>, max: int) {
    && box <= r
    && (|r| > |box| ==> |r| <= max)
    && (Distinct(box) ==> Distinct(r))
  }

  /** `add_suggestion`: a word already collected is ignored, a full box is
      left alone, otherwise the word is appended. */
  function AddSuggestion(box: seq<string>, w: string, cap: int): (r: seq<string>)
    ensures Grew(box, r, cap) && |r| <= |box| + 1
    ensures w in r <==> w in box || |box| < cap
    ensures forall s :: s in r ==> s in box || s == w
  {
    if w in box then box
    else if |box| >= cap then box
    else box + [w]
  }

  /** One move onto the child of edge `i`: a leaf is accepted when its suffix
      matches the rest of the input within the remaining budget, and the
      whole word is collected; a branch is searched recursively; a null child
      is dereferenced. */
  function Visit(p: Node, i: nat, input: string, j: nat, prefix: string, edits: nat,
                 box: seq<string>, max: int): (r: Result<seq<string>>)
    requires p.Branch? && i < |p.edges| && j <= |input| && edits <= 1
    ensures r.Ok? ==> Grew(box, r.value, max)
    decreases p, 0, 0, 0
  {
    match p.edges[i].child
    case None => NullChild
    case Some(Leaf(s)) =>
      Ok(if TailWithinOneEdit(s, input[j..], edits) then AddSuggestion(box, prefix + s, max) else box)
    case Some(c) => Dfs(c, input, j, prefix, edits, box, max)
  }

  /** `dfsSuggest` at branch `p` with `input[idx..]` still to match, the
      dictionary prefix spelled so far and `edits` (0 or 1) already spent. */
  function Dfs(p: Node, input: string, idx: nat, prefix: string, edits: nat,
               box: seq<string>, max: int): (r: Result<seq<string>>)
    requires p.Branch? && idx <= |input| && edits <= 1
    ensures r.Ok? ==> Grew(box, r.value, max)
    decreases p, |input| - idx, 2, 0
  {
    if |box| >= max then Ok(box)
    else
      var box1 := if idx == |input| && p.eow then AddSuggestion(box, prefix, max) else box;
      if |box1| >= max then Ok(box1)
      else
        var inserted :=
          if edits == 0 && idx < |input| then Dfs(p, input, idx + 1, prefix, 1, box1, max)
          else Ok(box1);
        match inserted
        case NullChild => NullChild
        case Ok(box2) =>
          if |box2| >= max then Ok(box2)
          else
            match Moves(p, input, idx, prefix, edits, 0, box2, max)
            case NullChild => NullChild
            case Ok(box3) =>
              if |box3| >= max then Ok(box3)
              else Transpose(p, input, idx, prefix, edits, box3, max)
  }

  /** The loop over the edges of `p` from index `i`: exact match, then
      substitution, then deletion, each stopping the walk once the box is
      full. */
  function Moves(p: Node, input: string, idx: nat, prefix: string, edits: nat, i: nat,
                 box: seq<string>, max: int): (r: Result<seq<string>>)
    requires p.Branch? && idx <= |input| && edits <= 1 && i <= |p.edges|
    ensures r.Ok? ==> Grew(box, r.value, max)
    decreases p, |input| - idx, 1, |p.edges| - i
  {
    if i == |p.edges| || |box| >= max then Ok(box)
    else
      var l := p.edges[i].letter;
      var matched :=
        if idx < |input| && input[idx] == l then Visit(p, i, input, idx + 1, prefix + [l], edits, box, max)
        else Ok(box);
      match matched
      case NullChild => NullChild
      case Ok(box1) =>
        if |box1| >= max then Ok(box1)
        else
          var substituted :=
            if edits == 0 && idx < |input| && input[idx] != l then Visit(p, i, input, idx + 1, prefix + [l], 1, box1, max)
            else Ok(box1);
          match substituted
          case NullChild => NullChild
          case Ok(box2) =>
            if |box2| >= max then Ok(box2)
            else
              var deleted :=
                if edits == 0 then Visit(p, i, input, idx, prefix + [l], 1, box2, max)
                else Ok(box2);
              match deleted
              case NullChild => NullChild
              case Ok(box3) =>
                if |box3| >= max then Ok(box3)
                else Moves(p, input, idx, prefix, edits, i + 1, box3, max)
  }

  /** The adjacent transposition: follow the edge for `input[idx + 1]` and
      then the edge for `input[idx]`, as one edit. Unlike the edge loop this
      move checks both child pointers for null. */
  function Transpose(p: Node, input: string, idx: nat, prefix: string, edits: nat,
                     box: seq<string>, max: int): (r: Result<seq<string>>)
    requires p.Branch? && idx <= |input| && edits <= 1
    ensures r.Ok? ==> Grew(box, r.value, max)
    decreases p, 0, 0, 0
  {
    if edits == 0 && idx + 1 < |input| then
      var first, second := input[idx + 1], input[idx];
      match Position(p.edges, first)
      case None => Ok(box)
      case Some(k1) =>
        match p.edges[k1].child
        case None => Ok(box)
        case Some(Leaf(s)) =>
          Ok(if |s| > 0 && s[0] == second && TailWithinOneEdit(s[1..], input[idx + 2..], 1)
             then AddSuggestion(box, prefix + [first] + s, max) else box)
        case Some(c1) =>
          match Position(c1.edges, second)
          case None => Ok(box)
          case Some(k2) =>
            match c1.edges[k2].child
            case None => Ok(box)
            case Some(Leaf(s)) =>
              Ok(if TailWithinOneEdit(s, input[idx + 2..], 1)
                 then AddSuggestion(box, prefix + [first, second] + s, max) else box)
            case Some(c2) => Dfs(c2, input, idx + 2, prefix + [first, second], 1, box, max)
    else Ok(box)
  }

  /** `SuggestCorrections(root, word, max)`: the collected suggestions. */
  function SuggestCorrections(root: Node, word: string, max: int): (r: Result<seq<string>>)
    requires root.Branch?
    ensures r.Ok? ==> Distinct(r.value) && (|r.value| <= max || r.value == [])
  {
    Dfs(root, word, 0, [], 0, [], max)
  }

  // ---------------------------------------------------------------------
  // Soundness: every suggestion is a dictionary word within one edit of the
  // query; and on a trie without null edges the walk never dereferences one.
  // ---------------------------------------------------------------------

  /** Every word below `p`, spelled after `prefix`, is a word of `root`. */
  ghost predicate Reaches(root: Node, p: Node, prefix: string) {
    forall x :: x in Words(p) ==> prefix + x in Words(root)
  }

  /** The walk's bookkeeping: with no edit spent the dictionary prefix is the
      consumed input; with one spent it is within one edit of it. */
  ghost predicate OnTrack(input: string, idx: nat, prefix: string, edits: nat) {
    && idx <= |input|
    && if edits == 0 then prefix == input[..idx] else WithinOneEdit(input[..idx], prefix)
  }

  /** Everything collected is a dictionary word within one edit of the query. */
  ghost predicate Sound(root: Node, input: string, box: seq<string>) {
    forall s :: s in box ==> s in Words(root) && WithinOneEdit(input, s)
  }

  lemma ChildReaches(root: Node, p: Node, prefix: string, i: nat)
    requires p.Branch? && i < |p.edges| && p.edges[i].child.Some?
    requires Reaches(root, p, prefix)
    ensures Reaches(root, p.edges[i].child.value, prefix + [p.edges[i].letter])
  {
    var e := p.edges[i];
    forall x | x in Words(e.child.value)
      ensures prefix + [e.letter] + x in Words(root)
    {
      PrependMember(e.letter, Words(e.child.value), [e.letter] + x);
      assert ([e.letter] + x)[1..] == x;
      EdgeWordsMember(p.edges, [e.letter] + x);
      assert [e.letter] + x in Words(p);
      assert prefix + ([e.letter] + x) == prefix + [e.letter] + x;
    }
  }

  /** A leaf accepted by the tail matcher completes a word within one edit. */
  lemma EmitSound(input: string, j: nat, prefix: string, edits: nat, s: string)
    requires OnTrack(input, j, prefix, edits) && TailWithinOneEdit(s, input[j..], edits)
    ensures WithinOneEdit(input, prefix + s)
  {
    TailMatchSpec(s, input[j..], edits);
    assert input == input[..j] + input[j..];
    if edits == 0 {
      Symmetric(s, input[j..]);
      ExtendFront(input[..j], input[j..], s);
    } else {
      ExtendBack(input[..j], prefix, s);
    }
  }

  /** A branch that ends a word, reached with the whole input consumed,
      yields its prefix as a sound suggestion. */
  lemma EndSound(root: Node, p: Node, input: string, prefix: string, edits: nat)
    requires p.Branch? && p.eow && Reaches(root, p, prefix) && OnTrack(input, |input|, prefix, edits)
    ensures prefix in Words(root) && WithinOneEdit(input, prefix)
  {
    assert [] in Words(p);
    assert prefix + [] == prefix;
    assert input[..|input|] == input;
    if edits == 0 {
      Reflexive(input);
    }
  }

  /** The insertion move: skipping one input letter spends the edit. */
  lemma SkipTrack(input: string, idx: nat, prefix: string)
    requires idx < |input| && OnTrack(input, idx, prefix, 0)
    ensures OnTrack(input, idx + 1, prefix, 1)
  {
    assert input[..idx + 1] == input[..idx] + [input[idx]] + [];
    assert prefix == input[..idx] + [] + [];
    EditHere(input[..idx], [input[idx]], [], []);
  }

  /** The exact move keeps the budget. */
  lemma MatchTrack(input: string, idx: nat, prefix: string, edits: nat)
    requires idx < |input| && edits <= 1 && OnTrack(input, idx, prefix, edits)
    ensures OnTrack(input, idx + 1, prefix + [input[idx]], edits)
  {
    assert input[..idx + 1] == input[..idx] + [input[idx]];
    if edits == 1 {
      ExtendBack(input[..idx], prefix, [input[idx]]);
    }
  }

  /** The substitution move spends the edit. */
  lemma SubstituteTrack(input: string, idx: nat, prefix: string, l: char)
    requires idx < |input| && OnTrack(input, idx, prefix, 0)
    ensures OnTrack(input, idx + 1, prefix + [l], 1)
  {
    assert input[..idx + 1] == input[..idx] + [input[idx]] + [];
    assert prefix + [l] == input[..idx] + [l] + [];
    EditHere(input[..idx], [input[idx]], [l], []);
  }

  /** The deletion move spends the edit without consuming input. */
  lemma DeleteTrack(input: string, idx: nat, prefix: string, l: char)
    requires idx <= |input| && OnTrack(input, idx, prefix, 0)
    ensures OnTrack(input, idx, prefix + [l], 1)
  {
    assert input[..idx] == input[..idx] + [] + [];
    assert prefix + [l] == input[..idx] + [l] + [];
    EditHere(input[..idx], [], [l], []);
  }

  lemma {:induction false} VisitSound(root: Node, p: Node, i: nat, input: string, j: nat, prefix: string,
                                      edits: nat, box: seq<string>, max: int)
    requires p.Branch? && i < |p.edges| && j <= |input| && edits <= 1
    requires p.edges[i].child.Some? ==> Reaches(root, p.edges[i].child.value, prefix)
    requires OnTrack(input, j, prefix, edits) && Sound(root, input, box)
    ensures Visit(p, i, input, j, prefix, edits, box, max).Ok? ==>
      Sound(root, input, Visit(p, i, input, j, prefix, edits, box, max).value)
    ensures Complete(p) ==> Visit(p, i, input, j, prefix, edits, box, max).Ok?
    decreases p, 0, 0, 0
  {
    assert p.edges[i] in p.edges;
    match p.edges[i].child
    case None =>
    case Some(Leaf(s)) =>
      if TailWithinOneEdit(s, input[j..], edits) {
        assert s in Words(Leaf(s));
        EmitSound(input, j, prefix, edits, s);
      }
    case Some(c) =>
      DfsSound(root, c, input, j, prefix, edits, box, max);
  }

  lemma {:induction false} DfsSound(root: Node, p: Node, input: string, idx: nat, prefix: string,
                                    edits: nat, box: seq<string>, max: int)
    requires p.Branch? && idx <= |input| && edits <= 1
    requires Reaches(root, p, prefix) && OnTrack(input, idx, prefix, edits) && Sound(root, input, box)
    ensures Dfs(p, input, idx, prefix, edits, box, max).Ok? ==>
      Sound(root, input, Dfs(p, input, idx, prefix, edits, box, max).value)
    ensures Complete(p) ==> Dfs(p, input, idx, prefix, edits, box, max).Ok?
    decreases p, |input| - idx, 2, 0
  {
    if |box| < max {
      if idx == |input| && p.eow {
        EndSound(root, p, input, prefix, edits);
      }
      var box1 := if idx == |input| && p.eow then AddSuggestion(box, prefix, max) else box;
      if |box1| < max {
        if edits == 0 && idx < |input| {
          SkipTrack(input, idx, prefix);
          DfsSound(root, p, input, idx + 1, prefix, 1, box1, max);
        }
        var inserted :=
          if edits == 0 && idx < |input| then Dfs(p, input, idx + 1, prefix, 1, box1, max)
          else Ok(box1);
        if inserted.Ok? && |inserted.value| < max {
          MovesSound(root, p, input, idx, prefix, edits, 0, inserted.value, max);
          var moved := Moves(p, input, idx, prefix, edits, 0, inserted.value, max);
          if moved.Ok? && |moved.value| < max {
            TransposeSound(root, p, input, idx, prefix, edits, moved.value, max);
          }
        }
      }
    }
  }

  lemma {:induction false} MovesSound(root: Node, p: Node, input: string, idx: nat, prefix: string,
                                      edits: nat, i: nat, box: seq<string>, max: int)
    requires p.Branch? && idx <= |input| && edits <= 1 && i <= |p.edges|
    requires Reaches(root, p, prefix) && OnTrack(input, idx, prefix, edits) && Sound(root, input, box)
    ensures Moves(p, input, idx, prefix, edits, i, box, max).Ok? ==>
      Sound(root, input, Moves(p, input, idx, prefix, edits, i, box, max).value)
    ensures Complete(p) ==> Moves(p, input, idx, prefix, edits, i, box, max).Ok?
    decreases p, |input| - idx, 1, |p.edges| - i
  {
    if i < |p.edges| && |box| < max {
      var l := p.edges[i].letter;
      if p.edges[i].child.Some? {
        ChildReaches(root, p, prefix, i);
      }
      if idx < |input| && input[idx] == l {
        MatchTrack(input, idx, prefix, edits);
        VisitSound(root, p, i, input, idx + 1, prefix + [l], edits, box, max);
      }
      var matched :=
        if idx < |input| && input[idx] == l then Visit(p, i, input, idx + 1, prefix + [l], edits, box, max)
        else Ok(box);
      if matched.Ok? && |matched.value| < max {
        if edits == 0 && idx < |input| && input[idx] != l {
          SubstituteTrack(input, idx, prefix, l);
          VisitSound(root, p, i, input, idx + 1, prefix + [l], 1, matched.value, max);
        }
        var substituted :=
          if edits == 0 && idx < |input| && input[idx] != l then Visit(p, i, input, idx + 1, prefix + [l], 1, matched.value, max)
          else Ok(matched.value);
        if substituted.Ok? && |substituted.value| < max {
          if edits == 0 {
            DeleteTrack(input, idx, prefix, l);
            VisitSound(root, p, i, input, idx, prefix + [l], 1, substituted.value, max);
          }
          var deleted :=
            if edits == 0 then Visit(p, i, input, idx, prefix + [l], 1, substituted.value, max)
            else Ok(substituted.value);
          if deleted.Ok? && |deleted.value| < max {
            MovesSound(root, p, input, idx, prefix, edits, i + 1, deleted.value, max);
          }
        }
      }
    }
  }

  lemma {:induction false} TransposeSound(root: Node, p: Node, input: string, idx: nat, prefix: string,
                                          edits: nat, box: seq<string>, max: int)
    requires p.Branch? && idx <= |input| && edits <= 1
    requires Reaches(root, p, prefix) && OnTrack(input, idx, prefix, edits) && Sound(root, input, box)
    ensures Transpose(p, input, idx, prefix, edits, box, max).Ok? ==>
      Sound(root, input, Transpose(p, input, idx, prefix, edits, box, max).value)
    ensures Complete(p) ==> Transpose(p, input, idx, prefix, edits, box, max).Ok?
    decreases p, 0, 0, 0
  {
    if edits == 0 && idx + 1 < |input| {
      var first, second := input[idx + 1], input[idx];
      var rest := input[idx + 2..];
      assert input == input[..idx] + [second, first] + rest;
      assert ElementaryEdit([second, first], [first, second]);
      match Position(p.edges, first)
      case None =>
      case Some(k1) =>
        assert p.edges[k1] in p.edges;
        match p.edges[k1].child
        case None =>
        case Some(c1) =>
          ChildReaches(root, p, prefix, k1);
          match c1
          case Leaf(s) =>
            if |s| > 0 && s[0] == second && TailWithinOneEdit(s[1..], rest, 1) {
              TailMatchSpec(s[1..], rest, 1);
              assert s in Words(c1);
              assert prefix + [first] + s == input[..idx] + [first, second] + rest;
              EditHere(input[..idx], [second, first], [first, second], rest);
            }
          case Branch(_, _) =>
            match Position(c1.edges, second)
            case None =>
            case Some(k2) =>
              assert c1.edges[k2] in c1.edges;
              match c1.edges[k2].child
              case None =>
              case Some(c2) =>
                ChildReaches(root, c1, prefix + [first], k2);
                assert prefix + [first] + [second] == prefix + [first, second];
                match c2
                case Leaf(s) =>
                  if TailWithinOneEdit(s, rest, 1) {
                    TailMatchSpec(s, rest, 1);
                    assert s in Words(c2);
                    assert prefix + [first, second] + s == input[..idx] + [first, second] + rest;
                    EditHere(input[..idx], [second, first], [first, second], rest);
                  }
                case Branch(_, _) =>
                  if Complete(p) {
                    assert Complete(c1);
                  }
                  assert input[..idx + 2] == input[..idx] + [second, first] + [];
                  assert prefix + [first, second] == input[..idx] + [first, second] + [];
                  EditHere(input[..idx], [second, first], [first, second], []);
                  DfsSound(root, c2, input, idx + 2, prefix + [first, second], 1, box, max);
    }
  }

  /** `SuggestCorrections` only proposes dictionary words within one edit of
      the query, and on a trie with no null edge it always completes. */
  lemma SuggestionsSound(root: Node, word: string, max: int)
    requires root.Branch?
    ensures SuggestCorrections(root, word, max).Ok? ==>
      forall s :: s in SuggestCorrections(root, word, max).value ==> s in Words(root) && WithinOneEdit(word, s)
    ensures Complete(root) ==> SuggestCorrections(root, word, max).Ok?
  {
    forall x | x in Words(root) ensures [] + x in Words(root) {
      assert [] + x == x;
    }
    assert word[..0] == [];
    DfsSound(root, root, word, 0, [], 0, [], max);
  }
}
