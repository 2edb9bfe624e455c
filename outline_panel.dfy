/**
 * The two list updates of the outline panel body: reordering the root's notes after a drag
 * (`_moveNotes`) and updating the list of selected note ids (`_selectNote`). Blocks are values,
 * so "the same block" is value equality; the permutation law asks for distinct blocks, which
 * the document's blocks (distinct objects with distinct ids) are.
 */
module OutlinePanel {
  import opened Wrappers
  import opened JsArrays
  import opened OutlineQuery

  /**
   * The `TypeError`s `_moveNotes` can throw: a selected id with no entry in the notes map, and a
   * drop index with no entry in the note list.
   */
  datatype MoveError = MissingNote(id: string) | NoTarget(index: int)

  /** `selected.map(id => notesMap.get(id).note)`: throws at the first id the map lacks. */
  function DraggedBlocks(selected: seq<string>, notesMap: map<string, NoteItem>): (r: Result<seq<Block>, MoveError>)
    ensures r.Ok? <==> forall i :: 0 <= i < |selected| ==> selected[i] in notesMap
    ensures r.Ok? ==> |r.value| == |selected|
    ensures r.Ok? ==> forall i :: 0 <= i < |selected| ==> r.value[i] == notesMap[selected[i]].note
    ensures r.Err? ==> exists i :: 0 <= i < |selected| && r.error == MissingNote(selected[i]) && selected[i] !in notesMap
    decreases |selected|
  {
    if selected == [] then Ok([])
    else if selected[0] !in notesMap then Err(MissingNote(selected[0]))
    else
      var rest := DraggedBlocks(selected[1..], notesMap);
      if rest.Err? then
        var i :| 0 <= i < |selected[1..]| && rest.error == MissingNote(selected[1..][i]) && selected[1..][i] !in notesMap;
        assert selected[i + 1] == selected[1..][i];
        rest
      else
        var r := [notesMap[selected[0]].note] + rest.value;
        assert forall i :: 1 <= i < |selected| ==> selected[i] == selected[1..][i - 1];
        Ok(r)
  }

  /**
   * The insertion point among the root's children: after the last note when dropping at the
   * end of the note list, before the note dropped on otherwise.
   */
  function TargetIndex(index: int, notes: seq<NoteItem>): (r: Result<int, MoveError>)
    ensures r.Ok? <==> 0 <= index <= |notes| && |notes| > 0
    ensures r.Ok? && index == |notes| ==> r.value == notes[|notes| - 1].index + 1
    ensures r.Ok? && index < |notes| ==> r.value == notes[index].index
  {
    if index == |notes| then
      if |notes| > 0 then Ok(notes[index - 1].index + 1) else Err(NoTarget(index))
    else if 0 <= index < |notes| then Ok(notes[index].index)
    else Err(NoTarget(index))
  }

  /** `s.filter(block => !dragging.has(block))`. */
  function Without(s: seq<Block>, dragging: set<Block>): (r: seq<Block>)
    ensures forall b :: b in r <==> b in s && b !in dragging
    decreases |s|
  {
    if s == [] then []
    else
      var n := |s| - 1;
      assert s == s[..n] + [s[n]];
      if s[n] in dragging then Without(s[..n], dragging) else Without(s[..n], dragging) + [s[n]]
  }

  /** `s.filter(block => dragging.has(block))`: the counterpart of `Without` used in the proofs. */
  function Only(s: seq<Block>, dragging: set<Block>): (r: seq<Block>)
    ensures forall b :: b in r <==> b in s && b in dragging
    decreases |s|
  {
    if s == [] then []
    else
      var n := |s| - 1;
      assert s == s[..n] + [s[n]];
      if s[n] in dragging then Only(s[..n], dragging) + [s[n]] else Only(s[..n], dragging)
  }

  function SetOf(s: seq<Block>): (r: set<Block>)
    ensures forall b :: b in r <==> b in s
  {
    set b | b in s
  }

  /**
   * `_moveNotes(index, selected, notesMap, notes, children)`: `Ok(None)` when it does nothing,
   * `Ok(Some(c))` when it sets the root's children to `c`, `Err` when it throws.
   */
  function MovedChildren(index: int, selected: seq<string>, notesMap: map<string, NoteItem>,
                         notes: seq<NoteItem>, children: seq<Block>, hasRoot: bool): Result<Option<seq<Block>>, MoveError>
  {
    if |children| == 0 || !hasRoot then Ok(None)
    else
      var blocks := DraggedBlocks(selected, notesMap);
      if blocks.Err? then Err(blocks.error)
      else
        var target := TargetIndex(index, notes);
        if target.Err? then Err(target.error)
        else
          var dragging := SetOf(blocks.value);
          var left := Without(Slice(children, 0, target.value), dragging);
          var right := Without(Slice(children, target.value, |children|), dragging);
          Ok(Some(left + blocks.value + right))
  }

  lemma {:induction false} WithoutAppend(a: seq<Block>, b: seq<Block>, dragging: set<Block>)
    ensures Without(a + b, dragging) == Without(a, dragging) + Without(b, dragging)
    decreases |b|
  {
    if b == [] {
      assert a + b == a;
    } else {
      var n := |b| - 1;
      assert (a + b)[..|a + b| - 1] == a + b[..n];
      WithoutAppend(a, b[..n], dragging);
    }
  }

  /** Each block of `s` goes to exactly one side of the split by `dragging`. */
  lemma {:induction false} SplitMultiset(s: seq<Block>, dragging: set<Block>)
    ensures multiset(s) == multiset(Without(s, dragging)) + multiset(Only(s, dragging))
    decreases |s|
  {
    if s != [] {
      var n := |s| - 1;
      SplitMultiset(s[..n], dragging);
      assert s == s[..n] + [s[n]];
    }
  }

  lemma {:induction false} OnlyDistinct(s: seq<Block>, dragging: set<Block>)
    requires Distinct(s)
    ensures Distinct(Only(s, dragging))
    decreases |s|
  {
    if s != [] {
      var n := |s| - 1;
      OnlyDistinct(s[..n], dragging);
      assert s[n] !in s[..n];
    }
  }

  /** A distinct sequence holds each of its elements once. */
  lemma {:induction false} DistinctCounts(s: seq<Block>, b: Block)
    requires Distinct(s)
    ensures multiset(s)[b] == if b in s then 1 else 0
    decreases |s|
  {
    if s != [] {
      var n := |s| - 1;
      assert s == s[..n] + [s[n]];
      DistinctCounts(s[..n], b);
    }
  }

  /** Two distinct sequences with the same elements are permutations of each other. */
  lemma SameDistinct(a: seq<Block>, b: seq<Block>)
    requires Distinct(a) && Distinct(b)
    requires forall x :: x in a <==> x in b
    ensures multiset(a) == multiset(b)
  {
    forall x
      ensures multiset(a)[x] == multiset(b)[x]
    {
      DistinctCounts(a, x);
      DistinctCounts(b, x);
    }
  }

  /** `slice(0, t)` and `slice(t)` split the list at the index `t` resolves to. */
  lemma SliceSplit(s: seq<Block>, t: int)
    ensures Slice(s, 0, t) == s[..RelativeIndex(t, |s|)]
    ensures Slice(s, t, |s|) == s[RelativeIndex(t, |s|)..]
  {
  }

  /**
   * The non-dragged children before position `k`, then the dragged blocks, then the
   * non-dragged children from `k` on.
   */
  function Arranged(children: seq<Block>, blocks: seq<Block>, k: nat): seq<Block>
    requires k <= |children|
  {
    Without(children[..k], SetOf(blocks)) + blocks + Without(children[k..], SetOf(blocks))
  }

  /**
   * A move that sets the children arranges them around the index the target resolves to, with
   * the dragged blocks in selection order; it does nothing when there are no children or no root.
   */
  lemma MoveLayout(index: int, selected: seq<string>, notesMap: map<string, NoteItem>,
                   notes: seq<NoteItem>, children: seq<Block>, hasRoot: bool)
    ensures |children| == 0 || !hasRoot ==> MovedChildren(index, selected, notesMap, notes, children, hasRoot) == Ok(None)
    ensures var r := MovedChildren(index, selected, notesMap, notes, children, hasRoot);
      r.Ok? && r.value.Some? ==>
        && DraggedBlocks(selected, notesMap).Ok? && TargetIndex(index, notes).Ok?
        && r.value.value == Arranged(children, DraggedBlocks(selected, notesMap).value,
                                     RelativeIndex(TargetIndex(index, notes).value, |children|))
  {
    var r := MovedChildren(index, selected, notesMap, notes, children, hasRoot);
    if r.Ok? && r.value.Some? {
      SliceSplit(children, TargetIndex(index, notes).value);
    }
  }

  /** A list is its prefix followed by its suffix. */
  lemma SplitJoin<T>(s: seq<T>, k: nat)
    requires k <= |s|
    ensures s[..k] + s[k..] == s
  {
  }

  /** Filtering out the dragged blocks from kept blocks, the dragged ones, then kept blocks again. */
  lemma {:induction false} WithoutAround(left: seq<Block>, blocks: seq<Block>, right: seq<Block>, dragging: set<Block>)
    requires forall b :: b in left ==> b !in dragging
    requires forall b :: b in right ==> b !in dragging
    requires forall b :: b in blocks ==> b in dragging
    ensures Without(left + blocks + right, dragging) == left + right
  {
    var kept := left + blocks;
    calc {
      Without(kept + right, dragging);
    == { WithoutAppend(kept, right, dragging); }
      Without(kept, dragging) + Without(right, dragging);
    == { WithoutAppend(left, blocks, dragging); WithoutNone(left, dragging); WithoutAll(blocks, dragging);
         assert left + [] == left; }
      left + Without(right, dragging);
    == { WithoutNone(right, dragging); }
      left + right;
    }
  }

  /** Arranging never changes the relative order of the children that are not dragged. */
  lemma ArrangedKeepsOrder(children: seq<Block>, blocks: seq<Block>, k: nat)
    requires k <= |children|
    ensures Without(Arranged(children, blocks, k), SetOf(blocks)) == Without(children, SetOf(blocks))
  {
    var dragging := SetOf(blocks);
    var left, right := Without(children[..k], dragging), Without(children[k..], dragging);
    assert forall b :: b in blocks ==> b in dragging;
    calc {
      Without(Arranged(children, blocks, k), dragging);
    ==
      Without(left + blocks + right, dragging);
    == { WithoutAround(left, blocks, right, dragging); }
      left + right;
    == { WithoutAppend(children[..k], children[k..], dragging); }
      Without(children[..k] + children[k..], dragging);
    == { SplitJoin(children, k); }
      Without(children, dragging);
    }
  }

  /** Arranging distinct dragged children of distinct children permutes them. */
  lemma {:induction false} ArrangedPermutes(children: seq<Block>, blocks: seq<Block>, k: nat)
    requires k <= |children|
    requires Distinct(children) && Distinct(blocks)
    requires forall b :: b in blocks ==> b in children
    ensures multiset(Arranged(children, blocks, k)) == multiset(children)
  {
    var dragging := SetOf(blocks);
    var left, right := Without(children[..k], dragging), Without(children[k..], dragging);
    SplitJoin(children, k);
    WithoutAppend(children[..k], children[k..], dragging);
    assert multiset(Arranged(children, blocks, k)) == multiset(left + right) + multiset(blocks);
    SplitMultiset(children, dragging);
    OnlyDistinct(children, dragging);
    SameDistinct(Only(children, dragging), blocks);
  }

  /** A move never changes the relative order of the children that are not dragged. */
  lemma MoveKeepsOrder(index: int, selected: seq<string>, notesMap: map<string, NoteItem>,
                       notes: seq<NoteItem>, children: seq<Block>, hasRoot: bool)
    ensures var r := MovedChildren(index, selected, notesMap, notes, children, hasRoot);
      r.Ok? && r.value.Some? ==>
        var dragging := SetOf(DraggedBlocks(selected, notesMap).value);
        Without(r.value.value, dragging) == Without(children, dragging)
  {
    var r := MovedChildren(index, selected, notesMap, notes, children, hasRoot);
    if r.Ok? && r.value.Some? {
      MoveLayout(index, selected, notesMap, notes, children, hasRoot);
      ArrangedKeepsOrder(children, DraggedBlocks(selected, notesMap).value,
                         RelativeIndex(TargetIndex(index, notes).value, |children|));
    }
  }

  /**
   * When the dragged blocks are distinct children of a list of distinct children, the new
   * children are a permutation of the old ones.
   */
  lemma MovePermutes(index: int, selected: seq<string>, notesMap: map<string, NoteItem>,
                     notes: seq<NoteItem>, children: seq<Block>, hasRoot: bool)
    requires Distinct(children)
    requires DraggedBlocks(selected, notesMap).Ok? ==>
      var blocks := DraggedBlocks(selected, notesMap).value;
      Distinct(blocks) && forall b :: b in blocks ==> b in children
    ensures var r := MovedChildren(index, selected, notesMap, notes, children, hasRoot);
      r.Ok? && r.value.Some? ==> multiset(r.value.value) == multiset(children)
  {
    var r := MovedChildren(index, selected, notesMap, notes, children, hasRoot);
    if r.Ok? && r.value.Some? {
      MoveLayout(index, selected, notesMap, notes, children, hasRoot);
      ArrangedPermutes(children, DraggedBlocks(selected, notesMap).value,
                       RelativeIndex(TargetIndex(index, notes).value, |children|));
    }
  }

  lemma {:induction false} WithoutNone(s: seq<Block>, dragging: set<Block>)
    requires forall b :: b in s ==> b !in dragging
    ensures Without(s, dragging) == s
    decreases |s|
  {
    if s != [] {
      var n := |s| - 1;
      assert s == s[..n] + [s[n]];
      WithoutNone(s[..n], dragging);
    }
  }

  lemma {:induction false} WithoutAll(s: seq<Block>, dragging: set<Block>)
    requires forall b :: b in s ==> b in dragging
    ensures Without(s, dragging) == []
  {
    if Without(s, dragging) != [] {
      assert Without(s, dragging)[0] in Without(s, dragging);
    }
  }

  // ---------------------------------------------------------------------------------------------
  // Selection

  /** `s.filter(noteId => noteId !== id)`. */
  function DropId(s: seq<string>, id: string): (r: seq<string>)
    decreases |s|
  {
    if s == [] then [] else
      var n := |s| - 1;
      if s[n] == id then DropId(s[..n], id) else DropId(s[..n], id) + [s[n]]
  }

  /** The new selection `_selectNote` computes from the current one and the event. */
  function Selection(current: seq<string>, selected: bool, id: string, multiselect: bool): seq<string> {
    if !selected then DropId(current, id)
    else if multiselect then current + [id]
    else [id]
  }

  /**
   * Deselecting removes every occurrence of the id and keeps the other ids in order (dropping
   * it again changes nothing); a multiselect appends the id; a plain select leaves only it.
   */
  lemma {:induction false} SelectionLaws(current: seq<string>, id: string)
    ensures forall x :: x in Selection(current, false, id, false) <==> x in current && x != id
    ensures DropId(Selection(current, false, id, false), id) == Selection(current, false, id, false)
    ensures |Selection(current, false, id, false)| == |current| - multiset(current)[id]
    ensures Selection(current, true, id, true) == current + [id]
    ensures Selection(current, true, id, false) == [id]
    decreases |current|
  {
    if current != [] {
      var n := |current| - 1;
      SelectionLaws(current[..n], id);
      assert current == current[..n] + [current[n]];
      var d := DropId(current[..n], id);
      if current[n] != id {
        assert (d + [current[n]])[..|d + [current[n]]| - 1] == d;
      }
    }
  }

  // ---------------------------------------------------------------------------------------------
  // The panel's state

  class OutlinePanelBody {
    /** The document's root block, if it has one. */
    var root: Option<Block>
    /** The `_selectedNotes$` signal. */
    var selectedNotes: seq<string>
    /** The edgeless selection the panel writes when the editor is in edgeless mode. */
    var edgelessSelection: seq<string>

    constructor(root: Option<Block>)
      ensures this.root == root && selectedNotes == [] && edgelessSelection == []
    {
      this.root := root;
      selectedNotes := [];
      edgelessSelection := [];
    }

    /** `_moveNotes`: writes the new children into the root, or does nothing, or throws. */
    method MoveNotes(index: int, selected: seq<string>, notesMap: map<string, NoteItem>,
                     notes: seq<NoteItem>, children: seq<Block>) returns (outcome: Result<Option<seq<Block>>, MoveError>)
      modifies this
      ensures outcome == MovedChildren(index, selected, notesMap, notes, children, old(root).Some?)
      ensures outcome.Ok? && outcome.value.Some? ==> root == Some(old(root).value.(children := outcome.value.value))
      ensures !(outcome.Ok? && outcome.value.Some?) ==> root == old(root)
      ensures selectedNotes == old(selectedNotes) && edgelessSelection == old(edgelessSelection)
    {
      outcome := MovedChildren(index, selected, notesMap, notes, children, root.Some?);
      if outcome.Ok? && outcome.value.Some? {
        root := Some(root.value.(children := outcome.value.value));
      }
    }

    /**
     * `_selectNote(e)`: computes the new selection from the signal's current value and stores it
     * in the edgeless selection when the editor is in edgeless mode, in the signal otherwise.
     */
    method SelectNote(selected: bool, id: string, multiselect: bool, inEdgeless: bool)
      modifies this
      ensures var next := Selection(old(selectedNotes), selected, id, multiselect);
        if inEdgeless then edgelessSelection == next && selectedNotes == old(selectedNotes)
        else selectedNotes == next && edgelessSelection == old(edgelessSelection)
      ensures root == old(root)
    {
      var next := Selection(selectedNotes, selected, id, multiselect);
      if inEdgeless {
        edgelessSelection := next;
      } else {
        selectedNotes := next;
      }
    }
  }
}
