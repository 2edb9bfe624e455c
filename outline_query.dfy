/**
 * The outline panel's queries over a document's block tree: the notes the panel lists (with
 * their position among the root's children and the number shown for them) and the heading
 * paragraphs inside those notes. Blocks are values; each carries the few properties the queries
 * read (flavour, display mode, paragraph type and text).
 */
module OutlineQuery {
  import opened Wrappers

  datatype DisplayMode = DocOnly | DocAndEdgeless | EdgelessOnly

  datatype Block = Block(
    id: string,
    flavour: string,
    displayMode: DisplayMode,
    blockType: string,
    text: Option<string>,
    children: seq<Block>)

  /** An outline entry: the note, its index in the root's children, and `index + 1`. */
  datatype NoteItem = NoteItem(note: Block, index: nat, number: nat)

  const NoteFlavour := "affine:note"
  const ParagraphFlavour := "affine:paragraph"

  /** A root child the panel lists for `modes`: a note whose display mode is one of them. */
  predicate Listed(b: Block, modes: seq<DisplayMode>) {
    b.flavour == NoteFlavour && b.displayMode in modes
  }

  /** The root-child indexes of a list of outline entries. */
  function Indexes(items: seq<NoteItem>): seq<nat> {
    seq(|items|, k requires 0 <= k < |items| => items[k].index)
  }

  /**
   * The `forEach` of `getNotesFromDoc` over the root's children: one entry per listed note, in
   * children order, carrying its index and number; every listed note has an entry.
   */
  function NotesOf(children: seq<Block>, modes: seq<DisplayMode>): (r: seq<NoteItem>)
    ensures forall k :: 0 <= k < |r| ==>
      && r[k].index < |children| && children[r[k].index] == r[k].note
      && Listed(r[k].note, modes) && r[k].number == r[k].index + 1
    ensures forall k, l :: 0 <= k < l < |r| ==> r[k].index < r[l].index
    ensures forall i :: 0 <= i < |children| && Listed(children[i], modes) ==> i in Indexes(r)
    decreases |children|
  {
    if children == [] then []
    else
      var n := |children| - 1;
      var before := NotesOf(children[..n], modes);
      if Listed(children[n], modes) then
        var r := before + [NoteItem(children[n], n, n + 1)];
        assert Indexes(r) == Indexes(before) + [n];
        r
      else before
  }

  /** `getNotesFromDoc(doc, modes)`: no entries without a root, the root's listed notes otherwise. */
  function GetNotesFromDoc(root: Option<Block>, modes: seq<DisplayMode>): (r: seq<NoteItem>)
    ensures root.None? ==> r == []
    ensures root.Some? ==>
      && (forall k :: 0 <= k < |r| ==>
            && r[k].index < |root.value.children| && root.value.children[r[k].index] == r[k].note
            && Listed(r[k].note, modes) && r[k].number == r[k].index + 1)
      && (forall i :: 0 <= i < |root.value.children| && Listed(root.value.children[i], modes) ==>
            i in Indexes(r))
  {
    if root.None? then [] else NotesOf(root.value.children, modes)
  }

  /** `isHeadingBlock(block)`: a paragraph whose type is one of the heading keys. */
  predicate IsHeading(b: Block, headingKeys: set<string>) {
    b.flavour == ParagraphFlavour && b.blockType in headingKeys
  }

  /** `block.text && block.text.length > 0`. */
  predicate HasText(b: Block) {
    b.text.Some? && |b.text.value| > 0
  }

  /** The filter of `getHeadingBlocksFromNote`. */
  predicate Kept(b: Block, headingKeys: set<string>, ignoreEmpty: bool) {
    IsHeading(b, headingKeys) && (!ignoreEmpty || HasText(b))
  }

  /** `children.filter(Kept)`. */
  function KeepHeadings(children: seq<Block>, headingKeys: set<string>, ignoreEmpty: bool): (r: seq<Block>)
    ensures |r| <= |children|
    ensures forall b :: b in r <==> b in children && Kept(b, headingKeys, ignoreEmpty)
    decreases |children|
  {
    if children == [] then []
    else
      var n := |children| - 1;
      var before := KeepHeadings(children[..n], headingKeys, ignoreEmpty);
      assert children == children[..n] + [children[n]];
      if Kept(children[n], headingKeys, ignoreEmpty) then before + [children[n]] else before
  }

  /** `getHeadingBlocksFromNote(note, ignoreEmpty)`. */
  function HeadingsOfNote(note: Block, headingKeys: set<string>, ignoreEmpty: bool): seq<Block> {
    KeepHeadings(note.children, headingKeys, ignoreEmpty)
  }

  /** The `map(...).flat()` of `getHeadingBlocksFromDoc`: each entry's headings, in entry order. */
  function HeadingsOfNotes(items: seq<NoteItem>, headingKeys: set<string>, ignoreEmpty: bool): seq<Block>
    decreases |items|
  {
    if items == [] then []
    else
      var n := |items| - 1;
      HeadingsOfNotes(items[..n], headingKeys, ignoreEmpty) + HeadingsOfNote(items[n].note, headingKeys, ignoreEmpty)
  }

  /** `getHeadingBlocksFromDoc(doc, modes, ignoreEmpty)`. */
  function HeadingsOfDoc(root: Option<Block>, modes: seq<DisplayMode>, headingKeys: set<string>, ignoreEmpty: bool): seq<Block> {
    HeadingsOfNotes(GetNotesFromDoc(root, modes), headingKeys, ignoreEmpty)
  }

  lemma AppendEmpty<T>(a: seq<T>)
    ensures a + [] == a
  {
  }

  lemma DropLastOfAppend<T>(a: seq<T>, b: seq<T>)
    requires b != []
    ensures (a + b)[..|a + b| - 1] == a + b[..|b| - 1]
    ensures (a + b)[|a + b| - 1] == b[|b| - 1]
  {
  }

  lemma AppendAssoc<T>(a: seq<T>, b: seq<T>, c: seq<T>)
    ensures a + b + c == a + (b + c)
  {
  }

  /** Filtering a concatenation filters each part. */
  lemma {:induction false} KeepAppend(a: seq<Block>, b: seq<Block>, headingKeys: set<string>, ignoreEmpty: bool)
    ensures KeepHeadings(a + b, headingKeys, ignoreEmpty)
         == KeepHeadings(a, headingKeys, ignoreEmpty) + KeepHeadings(b, headingKeys, ignoreEmpty)
    decreases |b|
  {
    if b == [] {
      AppendEmpty(a);
      AppendEmpty(KeepHeadings(a, headingKeys, ignoreEmpty));
    } else {
      var n := |b| - 1;
      DropLastOfAppend(a, b);
      KeepAppend(a, b[..n], headingKeys, ignoreEmpty);
      var last := if Kept(b[n], headingKeys, ignoreEmpty) then [b[n]] else [];
      AppendAssoc(KeepHeadings(a, headingKeys, ignoreEmpty), KeepHeadings(b[..n], headingKeys, ignoreEmpty), last);
    }
  }

  /**
   * The headings of a list of notes are the headings of its first part followed by those of the
   * rest: the document's heading list is the per-note lists concatenated in note order.
   */
  lemma {:induction false} HeadingsOfNotesAppend(xs: seq<NoteItem>, ys: seq<NoteItem>, headingKeys: set<string>, ignoreEmpty: bool)
    ensures HeadingsOfNotes(xs + ys, headingKeys, ignoreEmpty)
         == HeadingsOfNotes(xs, headingKeys, ignoreEmpty) + HeadingsOfNotes(ys, headingKeys, ignoreEmpty)
    decreases |ys|
  {
    if ys == [] {
      AppendEmpty(xs);
      AppendEmpty(HeadingsOfNotes(xs, headingKeys, ignoreEmpty));
    } else {
      var n := |ys| - 1;
      DropLastOfAppend(xs, ys);
      HeadingsOfNotesAppend(xs, ys[..n], headingKeys, ignoreEmpty);
      AppendAssoc(HeadingsOfNotes(xs, headingKeys, ignoreEmpty), HeadingsOfNotes(ys[..n], headingKeys, ignoreEmpty),
                  HeadingsOfNote(ys[n].note, headingKeys, ignoreEmpty));
    }
  }

  /** Some entry's note has `b` among its children. */
  predicate InSomeNote(items: seq<NoteItem>, b: Block) {
    exists k :: 0 <= k < |items| && b in items[k].note.children
  }

  /** `b` is inside one of the entries exactly when it is inside one of all but the last, or the last. */
  lemma InSomeNoteSnoc(items: seq<NoteItem>, b: Block)
    requires items != []
    ensures InSomeNote(items, b) <==>
      InSomeNote(items[..|items| - 1], b) || b in items[|items| - 1].note.children
  {
    var n := |items| - 1;
    if InSomeNote(items, b) {
      var k :| 0 <= k < |items| && b in items[k].note.children;
      if k < n {
        assert items[..n][k] == items[k];
      }
    }
    if InSomeNote(items[..n], b) {
      var k :| 0 <= k < n && b in items[..n][k].note.children;
      assert items[..n][k] == items[k];
    }
  }

  /** A block is among the document's headings exactly when it is a kept child of a listed note. */
  lemma {:induction false} HeadingsOfNotesMembers(items: seq<NoteItem>, headingKeys: set<string>, ignoreEmpty: bool, b: Block)
    ensures b in HeadingsOfNotes(items, headingKeys, ignoreEmpty) <==>
      Kept(b, headingKeys, ignoreEmpty) && InSomeNote(items, b)
    decreases |items|
  {
    if items != [] {
      var n := |items| - 1;
      HeadingsOfNotesMembers(items[..n], headingKeys, ignoreEmpty, b);
      InSomeNoteSnoc(items, b);
    }
  }

  /** With `ignoreEmpty`, the headings are those without it, keeping only the ones with text. */
  lemma {:induction false} IgnoreEmptyFilters(children: seq<Block>, headingKeys: set<string>)
    ensures KeepHeadings(children, headingKeys, true)
         == KeepText(KeepHeadings(children, headingKeys, false))
    decreases |children|
  {
    if children != [] {
      var n := |children| - 1;
      IgnoreEmptyFilters(children[..n], headingKeys);
      KeepTextAppend(KeepHeadings(children[..n], headingKeys, false), [children[n]]);
    }
  }

  /** The blocks of `s` with text, in order. */
  function KeepText(s: seq<Block>): seq<Block>
    decreases |s|
  {
    if s == [] then [] else
      var n := |s| - 1;
      if HasText(s[n]) then KeepText(s[..n]) + [s[n]] else KeepText(s[..n])
  }

  lemma {:induction false} KeepTextAppend(a: seq<Block>, b: seq<Block>)
    ensures KeepText(a + b) == KeepText(a) + KeepText(b)
    decreases |b|
  {
    if b == [] {
      AppendEmpty(a);
      AppendEmpty(KeepText(a));
    } else {
      var n := |b| - 1;
      DropLastOfAppend(a, b);
      KeepTextAppend(a, b[..n]);
      AppendAssoc(KeepText(a), KeepText(b[..n]), if HasText(b[n]) then [b[n]] else []);
    }
  }

  /**
   * The document's headings: none without a root; otherwise a block is among them exactly when
   * it is a kept child of a root child that is a listed note.
   */
  lemma HeadingsOfDocMembers(root: Option<Block>, modes: seq<DisplayMode>, headingKeys: set<string>, ignoreEmpty: bool, b: Block)
    ensures root.None? ==> HeadingsOfDoc(root, modes, headingKeys, ignoreEmpty) == []
    ensures root.Some? ==>
      (b in HeadingsOfDoc(root, modes, headingKeys, ignoreEmpty) <==>
        Kept(b, headingKeys, ignoreEmpty)
        && exists i :: 0 <= i < |root.value.children| && Listed(root.value.children[i], modes)
                       && b in root.value.children[i].children)
  {
    if root.Some? {
      var children, items := root.value.children, GetNotesFromDoc(root, modes);
      HeadingsOfNotesMembers(items, headingKeys, ignoreEmpty, b);
      ItemsAreListedNotes(children, items, modes, b);
    }
  }

  /** A block is inside some outline entry's note exactly when it is inside some listed root child. */
  lemma ItemsAreListedNotes(children: seq<Block>, items: seq<NoteItem>, modes: seq<DisplayMode>, b: Block)
    requires forall k :: 0 <= k < |items| ==>
      items[k].index < |children| && children[items[k].index] == items[k].note && Listed(items[k].note, modes)
    requires forall i :: 0 <= i < |children| && Listed(children[i], modes) ==> i in Indexes(items)
    ensures (exists k :: 0 <= k < |items| && b in items[k].note.children) <==>
      (exists i :: 0 <= i < |children| && Listed(children[i], modes) && b in children[i].children)
  {
    if exists k :: 0 <= k < |items| && b in items[k].note.children {
      var k :| 0 <= k < |items| && b in items[k].note.children;
      var i := items[k].index;
      assert Listed(children[i], modes) && b in children[i].children;
    }
    if exists i :: 0 <= i < |children| && Listed(children[i], modes) && b in children[i].children {
      var i :| 0 <= i < |children| && Listed(children[i], modes) && b in children[i].children;
      assert i in Indexes(items);
      var k :| 0 <= k < |items| && Indexes(items)[k] == i;
      assert b in items[k].note.children;
    }
  }
}
