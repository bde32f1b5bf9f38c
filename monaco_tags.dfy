/**
 * `MonacoTagManager` of src/code-editor.jsx: atomic inline tags in a Monaco
 * editor. A tag is a placeholder (the tag text between two zero-width
 * spaces) inserted at the cursor and covered by a decoration; the arrow keys
 * jump over a tag and Backspace/Delete remove a whole tag.
 *
 * The editor is modelled by what the manager reads and changes: the lines
 * of the text, the cursor, and the decorations (by id, each a range on one
 * line). Positions are 1-based, as in Monaco.
 */
module MonacoTags {
  import opened Wrappers

  const ZeroWidthSpace: char := '\U{200B}'

  datatype Position = Position(lineNumber: int, column: int)

  /** A decoration range; every range the manager creates lies on one line. */
  datatype Range = Range(lineNumber: int, startColumn: int, endColumn: int)

  /** A record of `this.tags` (the DOM widget is not modelled). */
  datatype Tag = Tag(tagId: string, tagText: string, decorationId: nat)

  /** The four hit tests: arrow left, arrow right, Backspace, Delete. */
  datatype HitKind = ArrowLeft | ArrowRight | BackspaceKey | DeleteKey

  /** The `direction` argument of `deleteTagAtCursor`. */
  datatype Direction = Backspace | Delete

  function KindOf(direction: Direction): HitKind
  {
    match direction
    case Backspace => BackspaceKey
    case Delete => DeleteKey
  }

  /** Does the cursor `pos` hit the range `r` for this key? */
  predicate Hit(kind: HitKind, pos: Position, r: Range)
  {
    && pos.lineNumber == r.lineNumber
    && match kind
       case ArrowLeft => r.startColumn < pos.column <= r.endColumn
       case ArrowRight => r.startColumn <= pos.column < r.endColumn
       case BackspaceKey => (r.startColumn < pos.column <= r.endColumn) || pos.column == r.endColumn
       case DeleteKey => (r.startColumn <= pos.column < r.endColumn) || pos.column == r.startColumn
  }

  /** A tag whose decoration range is missing is never hit. */
  predicate TagHit(decorations: map<nat, Range>, kind: HitKind, pos: Position, t: Tag)
  {
    t.decorationId in decorations && Hit(kind, pos, decorations[t.decorationId])
  }

  /** The index of the first tag, in list order, that the cursor hits. */
  function FirstHit(tags: seq<Tag>, decorations: map<nat, Range>, kind: HitKind, pos: Position): (found: Option<nat>)
    ensures found.Some? ==>
      && found.value < |tags|
      && TagHit(decorations, kind, pos, tags[found.value])
      && forall j :: 0 <= j < found.value ==> !TagHit(decorations, kind, pos, tags[j])
    ensures found.None? ==> forall j :: 0 <= j < |tags| ==> !TagHit(decorations, kind, pos, tags[j])
    decreases |tags|
  {
    if tags == [] then None
    else if TagHit(decorations, kind, pos, tags[0]) then Some(0)
    else match FirstHit(tags[1..], decorations, kind, pos)
      case None => None
      case Some(i) => Some(i + 1)
  }

  /**
   * For a range of positive width, the Backspace test is the left-arrow test
   * and the Delete test is the right-arrow test; the extra `col === end` and
   * `col === start` disjuncts only matter for an empty range.
   */
  lemma DeleteTestsMatchArrowTests(pos: Position, r: Range)
    requires r.startColumn < r.endColumn
    ensures Hit(BackspaceKey, pos, r) <==> Hit(ArrowLeft, pos, r)
    ensures Hit(DeleteKey, pos, r) <==> Hit(ArrowRight, pos, r)
  {
  }

  /** `tags.filter(t => t.tagId !== tagId)`. */
  function RemoveTagId(tags: seq<Tag>, tagId: string): (rest: seq<Tag>)
    ensures |rest| <= |tags|
    decreases |tags|
  {
    if tags == [] then []
    else (if tags[0].tagId == tagId then [] else [tags[0]]) + RemoveTagId(tags[1..], tagId)
  }

  /** The records kept are exactly those of another id. */
  lemma {:induction false} RemoveTagIdMembers(tags: seq<Tag>, tagId: string)
    ensures forall t :: t in RemoveTagId(tags, tagId) <==> t in tags && t.tagId != tagId
    decreases |tags|
  {
    if tags != [] {
      RemoveTagIdMembers(tags[1..], tagId);
      assert forall t :: t in tags <==> t == tags[0] || t in tags[1..];
    }
  }

  /** Filtering keeps order: filtering a concatenation concatenates the filtered parts. */
  lemma {:induction false} RemoveTagIdConcat(a: seq<Tag>, b: seq<Tag>, tagId: string)
    ensures RemoveTagId(a + b, tagId) == RemoveTagId(a, tagId) + RemoveTagId(b, tagId)
    decreases |a|
  {
    if a != [] {
      assert (a + b)[1..] == a[1..] + b;
      RemoveTagIdConcat(a[1..], b, tagId);
    } else {
      assert a + b == b;
    }
  }

  /** The placeholder `​${tagText}​`. */
  function Placeholder(tagText: string): (p: string)
    ensures |p| == |tagText| + 2
    ensures p[0] == ZeroWidthSpace && p[|p| - 1] == ZeroWidthSpace && p[1..|p| - 1] == tagText
  {
    [ZeroWidthSpace] + tagText + [ZeroWidthSpace]
  }

  /** Cutting the placeholder's columns out of the line it was put into gives the line back. */
  lemma PlaceholderCutRestoresLine(line: string, column: int, tagText: string)
    requires 1 <= column <= |line| + 1
    ensures var w, after := |tagText| + 2, line[..column - 1] + Placeholder(tagText) + line[column - 1..];
      after[..column - 1] + after[column - 1 + w..] == line
  {
    var w, after := |tagText| + 2, line[..column - 1] + Placeholder(tagText) + line[column - 1..];
    assert after[..column - 1] == line[..column - 1];
    assert after[column - 1 + w..] == line[column - 1..];
  }

  /** Dropping an id no record carries changes nothing. */
  lemma {:induction false} RemoveAbsentTagId(tags: seq<Tag>, tagId: string)
    requires forall i :: 0 <= i < |tags| ==> tags[i].tagId != tagId
    ensures RemoveTagId(tags, tagId) == tags
    decreases |tags|
  {
    if tags != [] {
      RemoveAbsentTagId(tags[1..], tagId);
      assert [tags[0]] + tags[1..] == tags;
    }
  }

  /** A line of the editor's model: Monaco splits text at line breaks, so no line holds one. */
  predicate LineFree(line: string)
  {
    '\n' !in line && '\r' !in line
  }

  /** Every line of the text is free of line breaks. */
  predicate LinesFree(lines: seq<string>)
  {
    forall k :: 0 <= k < |lines| ==> LineFree(lines[k])
  }

  function Clamp(x: int, lo: int, hi: int): int
    requires lo <= hi
  {
    if x < lo then lo else if x > hi then hi else x
  }

  predicate ValidPosition(lines: seq<string>, pos: Position)
  {
    1 <= pos.lineNumber <= |lines| && 1 <= pos.column <= |lines[pos.lineNumber - 1]| + 1
  }

  /** Monaco's `validatePosition`: the nearest position inside the text. */
  function ValidatePosition(lines: seq<string>, pos: Position): (v: Position)
    requires |lines| >= 1
    ensures ValidPosition(lines, v)
    ensures ValidPosition(lines, pos) ==> v == pos
  {
    var line := Clamp(pos.lineNumber, 1, |lines|);
    Position(line, Clamp(pos.column, 1, |lines[line - 1]| + 1))
  }

  /** A range lies inside its line of the text. */
  predicate RangeInText(lines: seq<string>, r: Range)
  {
    1 <= r.lineNumber <= |lines| && 1 <= r.startColumn <= r.endColumn <= |lines[r.lineNumber - 1]| + 1
  }

  /** Monaco's `validateRange`, for a one-line range: clamp both ends into the line. */
  function ValidateRange(lines: seq<string>, r: Range): (v: Range)
    requires |lines| >= 1
    ensures RangeInText(lines, v)
    ensures RangeInText(lines, r) ==> v == r
  {
    var line := Clamp(r.lineNumber, 1, |lines|);
    var len := |lines[line - 1]|;
    var s := Clamp(r.startColumn, 1, len + 1);
    Range(line, s, Clamp(r.endColumn, s, len + 1))
  }

  /** Monaco's `cursorLeft`: one character left, or to the end of the previous line. */
  function EditorCursorLeft(lines: seq<string>, pos: Position): (p: Position)
    requires ValidPosition(lines, pos)
    ensures ValidPosition(lines, p)
  {
    if pos.column > 1 then Position(pos.lineNumber, pos.column - 1)
    else if pos.lineNumber > 1 then Position(pos.lineNumber - 1, |lines[pos.lineNumber - 2]| + 1)
    else pos
  }

  /** Monaco's `cursorRight`: one character right, or to the start of the next line. */
  function EditorCursorRight(lines: seq<string>, pos: Position): (p: Position)
    requires ValidPosition(lines, pos)
    ensures ValidPosition(lines, p)
  {
    if pos.column <= |lines[pos.lineNumber - 1]| then Position(pos.lineNumber, pos.column + 1)
    else if pos.lineNumber < |lines| then Position(pos.lineNumber + 1, 1)
    else pos
  }

  /** An edited text with its cursor. */
  datatype TextAndCursor = TextAndCursor(lines: seq<string>, cursor: Position)

  /** Monaco's `deleteLeft`: remove the character before the cursor, or join with the previous line. */
  function EditorDeleteLeft(lines: seq<string>, pos: Position): (r: TextAndCursor)
    requires ValidPosition(lines, pos)
    ensures |r.lines| >= 1 && ValidPosition(r.lines, r.cursor)
    ensures LinesFree(lines) ==> LinesFree(r.lines)
  {
    var n := pos.lineNumber;
    var t := lines[n - 1];
    if pos.column > 1 then
      TextAndCursor(lines[n - 1 := t[..pos.column - 2] + t[pos.column - 1..]], Position(n, pos.column - 1))
    else if n > 1 then
      TextAndCursor(lines[..n - 2] + [lines[n - 2] + t] + lines[n..], Position(n - 1, |lines[n - 2]| + 1))
    else TextAndCursor(lines, pos)
  }

  /** Monaco's `deleteRight`: remove the character after the cursor, or join with the next line. */
  function EditorDeleteRight(lines: seq<string>, pos: Position): (r: TextAndCursor)
    requires ValidPosition(lines, pos)
    ensures |r.lines| >= 1 && ValidPosition(r.lines, r.cursor)
    ensures LinesFree(lines) ==> LinesFree(r.lines)
  {
    var n := pos.lineNumber;
    var t := lines[n - 1];
    if pos.column <= |t| then
      TextAndCursor(lines[n - 1 := t[..pos.column - 1] + t[pos.column..]], pos)
    else if n < |lines| then
      TextAndCursor(lines[..n - 1] + [t + lines[n]] + lines[n + 1..], pos)
    else TextAndCursor(lines, pos)
  }

  /** Every decoration the manager creates starts at a real column and is not reversed. */
  predicate WellFormedRange(r: Range)
  {
    1 <= r.lineNumber && 1 <= r.startColumn <= r.endColumn
  }

  /**
   * A tag appended after tags none of which the cursor hits, with a new
   * decoration the cursor does hit, is the first tag hit.
   */
  lemma AddedTagIsFirstHit(tags0: seq<Tag>, decorations0: map<nat, Range>, added: Tag, r: Range, pos: Position)
    requires forall i :: 0 <= i < |tags0| ==> tags0[i].decorationId < added.decorationId
    requires FirstHit(tags0, decorations0, BackspaceKey, pos) == None
    requires Hit(BackspaceKey, pos, r)
    ensures FirstHit(tags0 + [added], decorations0[added.decorationId := r], BackspaceKey, pos) == Some(|tags0|)
  {
    var tags, decorations := tags0 + [added], decorations0[added.decorationId := r];
    forall j | 0 <= j < |tags0|
      ensures !TagHit(decorations, BackspaceKey, pos, tags[j])
    {
      assert tags[j] == tags0[j];
    }
    assert tags[|tags0|] == added;
  }

  /** Replacing line k by the original line k, when the other lines are the original ones, gives the original text. */
  lemma CutLineRestores(lines: seq<string>, lines0: seq<string>, k: nat, restored: seq<string>)
    requires |lines| == |lines0| && k < |lines|
    requires forall j :: 0 <= j < |lines| && j != k ==> lines[j] == lines0[j]
    requires |restored| == |lines| && restored[k] == lines0[k]
    requires forall j :: 0 <= j < |lines| && j != k ==> restored[j] == lines[j]
    ensures restored == lines0
  {
  }

  class MonacoTagManager {
    /** The editor's text, one string per line. */
    var lines: seq<string>
    /** The editor's cursor. */
    var cursor: Position
    /** The editor's decorations: `getDecorationRange(id)` is `decorations[id]`, or null when absent. */
    var decorations: map<nat, Range>
    /** The id the next `deltaDecorations` call hands out. */
    var nextDecorationId: nat
    /** `this.tags`. */
    var tags: seq<Tag>

    ghost predicate Valid()
      reads this
    {
      && |lines| >= 1
      && LinesFree(lines)
      && ValidPosition(lines, cursor)
      && (forall id :: id in decorations ==> id < nextDecorationId && WellFormedRange(decorations[id]))
      && forall i :: 0 <= i < |tags| ==> tags[i].decorationId < nextDecorationId
    }

    /** `new MonacoTagManager(editor)` over an editor showing `initialLines` with the cursor at `initialCursor`. */
    constructor (initialLines: seq<string>, initialCursor: Position)
      requires |initialLines| >= 1 && LinesFree(initialLines) && ValidPosition(initialLines, initialCursor)
      ensures Valid()
      ensures lines == initialLines && cursor == initialCursor
      ensures decorations == map[] && tags == []
    {
      lines := initialLines;
      cursor := initialCursor;
      decorations := map[];
      nextDecorationId := 0;
      tags := [];
    }

    /** The `for (const tag of this.tags)` scan shared by the four actions: the first tag hit. */
    method FindTag(kind: HitKind) returns (found: Option<nat>)
      ensures found == FirstHit(tags, decorations, kind, cursor)
    {
      var i := 0;
      while i < |tags|
        invariant 0 <= i <= |tags|
        invariant forall j :: 0 <= j < i ==> !TagHit(decorations, kind, cursor, tags[j])
      {
        var tag := tags[i];
        if tag.decorationId in decorations {
          var range := decorations[tag.decorationId];
          if Hit(kind, cursor, range) {
            return Some(i);
          }
        }
        i := i + 1;
      }
      return None;
    }

    /** The custom left-arrow action: from inside or the end of a tag, jump to its start. */
    method CursorLeft()
      requires Valid()
      modifies this`cursor
      ensures Valid()
      ensures match FirstHit(tags, decorations, ArrowLeft, old(cursor))
        case Some(i) =>
          var r := decorations[tags[i].decorationId];
          cursor == Position(r.lineNumber, r.startColumn)
        case None => cursor == EditorCursorLeft(lines, old(cursor))
    {
      var found := FindTag(ArrowLeft);
      match found
      case Some(i) =>
        var range := decorations[tags[i].decorationId];
        cursor := Position(range.lineNumber, range.startColumn);
      case None =>
        cursor := EditorCursorLeft(lines, cursor);
    }

    /**
     * The custom right-arrow action: from the start or inside of a tag, jump
     * to its end (kept inside the line, as `setPosition` does).
     */
    method CursorRight()
      requires Valid()
      modifies this`cursor
      ensures Valid()
      ensures match FirstHit(tags, decorations, ArrowRight, old(cursor))
        case Some(i) =>
          var r := decorations[tags[i].decorationId];
          && cursor == ValidatePosition(lines, Position(r.lineNumber, r.endColumn))
          && (RangeInText(lines, r) ==> cursor == Position(r.lineNumber, r.endColumn))
        case None => cursor == EditorCursorRight(lines, old(cursor))
    {
      var found := FindTag(ArrowRight);
      match found
      case Some(i) =>
        var range := decorations[tags[i].decorationId];
        cursor := ValidatePosition(lines, Position(range.lineNumber, range.endColumn));
      case None =>
        cursor := EditorCursorRight(lines, cursor);
    }

    /**
     * `insertTag(tagText)` with the tag id supplied by the caller: the
     * placeholder goes in at the cursor, a decoration covers exactly it, and
     * one record is appended to `tags`. The cursor ends after the placeholder.
     */
    method InsertTag(tagText: string, tagId: string)
      requires Valid()
      requires LineFree(tagText)
      modifies this
      ensures Valid()
      ensures |lines| == |old(lines)|
      ensures
        var n, c, w := old(cursor).lineNumber, old(cursor).column, |tagText| + 2;
        var before, after := old(lines)[n - 1], lines[n - 1];
        && (forall k :: 0 <= k < |lines| && k != n - 1 ==> lines[k] == old(lines)[k])
        && after == before[..c - 1] + Placeholder(tagText) + before[c - 1..]
        && decorations == old(decorations)[old(nextDecorationId) := Range(n, c, c + w)]
        && tags == old(tags) + [Tag(tagId, tagText, old(nextDecorationId))]
        && cursor == Position(n, c + w)
        && RangeInText(lines, decorations[old(nextDecorationId)])
        && after[c - 1..c - 1 + w] == Placeholder(tagText)
      ensures old(nextDecorationId) !in old(decorations)
      ensures forall id :: id in old(decorations) ==> id in decorations && decorations[id] == old(decorations)[id]
    {
      var placeholder := Placeholder(tagText);
      var n, c := cursor.lineNumber, cursor.column;
      var line := lines[n - 1];
      lines := lines[n - 1 := line[..c - 1] + placeholder + line[c - 1..]];
      var decorationId := nextDecorationId;
      decorations := decorations[decorationId := Range(n, c, c + |placeholder|)];
      nextDecorationId := nextDecorationId + 1;
      cursor := Position(n, c + |placeholder|);
      tags := tags + [Tag(tagId, tagText, decorationId)];
      assert lines[n - 1][c - 1..c - 1 + |placeholder|] == placeholder;
    }

    /**
     * `deleteTagAtCursor(direction)`: the first tag the key hits loses its
     * text, its decoration and its record (with every record of the same
     * `tagId`), and the cursor goes to where the tag started; when no tag is
     * hit, the editor's own deleteLeft/deleteRight runs and `tags` stays.
     */
    method DeleteTagAtCursor(direction: Direction)
      requires Valid()
      modifies this
      ensures Valid()
      ensures nextDecorationId == old(nextDecorationId)
      ensures match FirstHit(old(tags), old(decorations), KindOf(direction), old(cursor))
        case Some(i) =>
          var tag := old(tags)[i];
          var r := ValidateRange(old(lines), old(decorations)[tag.decorationId]);
          var before := old(lines)[r.lineNumber - 1];
          && (RangeInText(old(lines), old(decorations)[tag.decorationId]) ==> r == old(decorations)[tag.decorationId])
          && lines == old(lines)[r.lineNumber - 1 := before[..r.startColumn - 1] + before[r.endColumn - 1..]]
          && cursor == Position(r.lineNumber, r.startColumn)
          && decorations == old(decorations) - {tag.decorationId}
          && tags == RemoveTagId(old(tags), tag.tagId)
        case None =>
          var edited := if direction == Backspace then EditorDeleteLeft(old(lines), old(cursor))
                        else EditorDeleteRight(old(lines), old(cursor));
          && lines == edited.lines && cursor == edited.cursor
          && decorations == old(decorations) && tags == old(tags)
    {
      var found := FindTag(KindOf(direction));
      match found
      case Some(i) =>
        RemoveTag(i);
      case None =>
        DefaultDelete(direction);
    }

    /** The `if (tagToDelete)` branch: cut the tag's text, drop its decoration and records, move to its start. */
    method RemoveTag(i: nat)
      requires Valid()
      requires i < |tags| && tags[i].decorationId in decorations
      modifies this
      ensures Valid()
      ensures nextDecorationId == old(nextDecorationId)
      ensures
        var tag := old(tags)[i];
        var r := ValidateRange(old(lines), old(decorations)[tag.decorationId]);
        var before := old(lines)[r.lineNumber - 1];
        && (RangeInText(old(lines), old(decorations)[tag.decorationId]) ==> r == old(decorations)[tag.decorationId])
        && lines == old(lines)[r.lineNumber - 1 := before[..r.startColumn - 1] + before[r.endColumn - 1..]]
        && cursor == Position(r.lineNumber, r.startColumn)
        && decorations == old(decorations) - {tag.decorationId}
        && tags == RemoveTagId(old(tags), tag.tagId)
    {
      var tagToDelete := tags[i];
      var range := ValidateRange(lines, decorations[tagToDelete.decorationId]);
      var line := lines[range.lineNumber - 1];
      lines := lines[range.lineNumber - 1 := line[..range.startColumn - 1] + line[range.endColumn - 1..]];
      decorations := decorations - {tagToDelete.decorationId};
      cursor := Position(range.lineNumber, range.startColumn);
      var kept := RemoveTagId(tags, tagToDelete.tagId);
      RemoveTagIdMembers(tags, tagToDelete.tagId);
      assert forall j :: 0 <= j < |kept| ==> kept[j] in tags;
      tags := kept;
    }

    /** The `else` branch: the editor's own deleteLeft or deleteRight; decorations and records stay. */
    method DefaultDelete(direction: Direction)
      requires Valid()
      modifies this
      ensures Valid()
      ensures nextDecorationId == old(nextDecorationId)
      ensures
        var edited := if direction == Backspace then EditorDeleteLeft(old(lines), old(cursor))
                      else EditorDeleteRight(old(lines), old(cursor));
        && lines == edited.lines && cursor == edited.cursor
        && decorations == old(decorations) && tags == old(tags)
    {
      var edited := if direction == Backspace then EditorDeleteLeft(lines, cursor)
                    else EditorDeleteRight(lines, cursor);
      lines, cursor := edited.lines, edited.cursor;
    }

    /**
     * Inserting a tag and pressing Backspace right after removes that tag
     * again and restores the editor, when no earlier tag is hit at the new
     * cursor and no earlier record shares the new tag's id.
     */
    method InsertThenBackspace(tagText: string, tagId: string)
      requires Valid()
      requires LineFree(tagText)
      requires FirstHit(tags, decorations, BackspaceKey, Position(cursor.lineNumber, cursor.column + |tagText| + 2)) == None
      requires forall i :: 0 <= i < |tags| ==> tags[i].tagId != tagId
      modifies this
      ensures Valid()
      ensures lines == old(lines) && cursor == old(cursor)
      ensures decorations == old(decorations) && tags == old(tags)
    {
      var n, c := cursor.lineNumber, cursor.column;
      var id := nextDecorationId;
      var tags0, decorations0, lines0 := tags, decorations, lines;
      InsertTag(tagText, tagId);
      PlaceholderCutRestoresLine(lines0[n - 1], c, tagText);
      BackspaceAfterInsert(lines0, decorations0, tags0, Tag(tagId, tagText, id), Position(n, c));
    }

    /** The second half of the round trip: Backspace at the end of the tag inserted last. */
    method BackspaceAfterInsert(lines0: seq<string>, decorations0: map<nat, Range>, tags0: seq<Tag>, added: Tag, at: Position)
      requires Valid()
      requires ValidPosition(lines0, at)
      requires added.decorationId !in decorations0
      requires forall i :: 0 <= i < |tags0| ==> tags0[i].decorationId < added.decorationId
      requires forall i :: 0 <= i < |tags0| ==> tags0[i].tagId != added.tagId
      requires var w := |added.tagText| + 2;
        && FirstHit(tags0, decorations0, BackspaceKey, Position(at.lineNumber, at.column + w)) == None
        && tags == tags0 + [added]
        && decorations == decorations0[added.decorationId := Range(at.lineNumber, at.column, at.column + w)]
        && cursor == Position(at.lineNumber, at.column + w)
        && RangeInText(lines, decorations[added.decorationId])
        && |lines| == |lines0|
        && (forall k :: 0 <= k < |lines| && k != at.lineNumber - 1 ==> lines[k] == lines0[k])
        && lines[at.lineNumber - 1][..at.column - 1] + lines[at.lineNumber - 1][at.column - 1 + w..] == lines0[at.lineNumber - 1]
      modifies this
      ensures Valid()
      ensures lines == lines0 && cursor == at
      ensures decorations == decorations0 && tags == tags0
    {
      var n, c, w := at.lineNumber, at.column, |added.tagText| + 2;
      var r := Range(n, c, c + w);
      AddedTagIsFirstHit(tags0, decorations0, added, r, cursor);
      assert ValidateRange(lines, decorations[added.decorationId]) == r;
      var restored := lines[n - 1 := lines[n - 1][..c - 1] + lines[n - 1][c - 1 + w..]];
      CutLineRestores(lines, lines0, n - 1, restored);
      DeleteTagAtCursor(Backspace);
      assert lines == restored;
      assert decorations == decorations0;
      assert tags == tags0 by {
        RemoveTagIdConcat(tags0, [added], added.tagId);
        RemoveAbsentTagId(tags0, added.tagId);
      }
    }
  }
}
