/**
 * The inline diff view of src/code-differ.jsx: diff chunks (as produced by
 * the `diff` library's `diffLines`, taken here as input), the start line of
 * each chunk in the current and the new text, and "apply" for one chunk,
 * which splices its lines into, or out of, the current text.
 */
module CodeDiffer {
  import opened TextLines

  /** One chunk of `diffLines` output: its text and whether it was added or removed. */
  datatype Chunk = Chunk(value: string, added: bool, removed: bool)

  /** What `computeIndices` records per chunk. */
  datatype ChunkIndex = ChunkIndex(startCurrent: nat, startNew: nat, lineCount: nat)

  /**
   * The number of lines of a chunk: the pieces of `value.split('\n')`,
   * not counting a trailing empty piece.
   */
  function LineCount(value: string): nat
  {
    var lines := Split(value, '\n');
    if lines[|lines| - 1] == "" then |lines| - 1 else |lines|
  }

  /** The lines shown for a chunk: the split with a trailing empty piece popped. */
  function DisplayLines(value: string): (lines: seq<string>)
    ensures |lines| == LineCount(value)
    ensures NoSeparator(lines, '\n')
  {
    var pieces := Split(value, '\n');
    SplitHasNoSeparator(value, '\n');
    if pieces[|pieces| - 1] == "" then pieces[..|pieces| - 1] else pieces
  }

  /** Lines that the chunks `cs` occupy in the current text (every chunk that is not `added`). */
  function CurrentLines(cs: seq<Chunk>): nat
    decreases |cs|
  {
    if cs == [] then 0
    else CurrentLines(cs[..|cs| - 1]) + (if cs[|cs| - 1].added then 0 else LineCount(cs[|cs| - 1].value))
  }

  /** Lines that the chunks `cs` occupy in the new text (every chunk that is not `removed`). */
  function NewLines(cs: seq<Chunk>): nat
    decreases |cs|
  {
    if cs == [] then 0
    else NewLines(cs[..|cs| - 1]) + (if cs[|cs| - 1].removed then 0 else LineCount(cs[|cs| - 1].value))
  }

  /**
   * `lineCount` counts the newlines of the value, plus one for a last line
   * that has no newline after it. (An empty value has no lines, so the count
   * is not "pieces minus one exactly when the value ends in a newline".)
   */
  lemma LineCountByNewlines(value: string)
    ensures LineCount(value) == Count(value, '\n') + (if value != "" && value[|value| - 1] != '\n' then 1 else 0)
  {
    LineCountByPieces(value);
    SplitLength(value, '\n');
  }

  /** The pieces of the split, less one exactly when the value is empty or ends in a newline. */
  lemma LineCountByPieces(value: string)
    ensures LineCount(value) == |Split(value, '\n')| - (if value == "" || value[|value| - 1] == '\n' then 1 else 0)
  {
    SplitLastEmpty(value, '\n');
  }

  /** Lines before a later prefix are at least the lines before an earlier one. */
  lemma {:induction false} PrefixLinesMonotone(cs: seq<Chunk>, j: nat, k: nat)
    requires j <= k <= |cs|
    ensures CurrentLines(cs[..j]) <= CurrentLines(cs[..k])
    ensures NewLines(cs[..j]) <= NewLines(cs[..k])
    decreases k - j
  {
    if j < k {
      PrefixLinesMonotone(cs, j, k - 1);
      assert cs[..k][..k - 1] == cs[..k - 1];
    }
  }

  /** Extending a prefix by one chunk adds that chunk's lines to the texts it belongs to. */
  lemma PrefixLinesStep(cs: seq<Chunk>, i: nat)
    requires i < |cs|
    ensures CurrentLines(cs[..i + 1]) == CurrentLines(cs[..i]) + (if cs[i].added then 0 else LineCount(cs[i].value))
    ensures NewLines(cs[..i + 1]) == NewLines(cs[..i]) + (if cs[i].removed then 0 else LineCount(cs[i].value))
  {
    assert cs[..i + 1][..i] == cs[..i];
  }

  /** The entry `computeIndices` should record for chunk k. */
  function ExpectedIndex(chunks: seq<Chunk>, k: nat): ChunkIndex
    requires k < |chunks|
  {
    ChunkIndex(CurrentLines(chunks[..k]), NewLines(chunks[..k]), LineCount(chunks[k].value))
  }

  /**
   * `computeIndices`: one entry per chunk, in chunk order; each chunk starts
   * after the lines of the earlier chunks that belong to that text.
   */
  method ComputeIndices(chunks: seq<Chunk>) returns (indices: seq<ChunkIndex>)
    ensures |indices| == |chunks|
    ensures forall k :: 0 <= k < |chunks| ==>
      indices[k] == ChunkIndex(CurrentLines(chunks[..k]), NewLines(chunks[..k]), LineCount(chunks[k].value))
    ensures forall j, k :: 0 <= j <= k < |chunks| ==>
      indices[j].startCurrent <= indices[k].startCurrent && indices[j].startNew <= indices[k].startNew
  {
    var currentIndex, newIndex := 0, 0;
    indices := [];
    var i := 0;
    while i < |chunks|
      invariant 0 <= i <= |chunks|
      invariant |indices| == i
      invariant currentIndex == CurrentLines(chunks[..i]) && newIndex == NewLines(chunks[..i])
      invariant forall k :: 0 <= k < i ==> indices[k] == ExpectedIndex(chunks, k)
    {
      var chunk := chunks[i];
      var lines := Split(chunk.value, '\n');
      var lineCount := if lines[|lines| - 1] == "" then |lines| - 1 else |lines|;
      assert ChunkIndex(currentIndex, newIndex, lineCount) == ExpectedIndex(chunks, i);
      PrefixLinesStep(chunks, i);
      indices := indices + [ChunkIndex(currentIndex, newIndex, lineCount)];
      if !chunk.added {
        currentIndex := currentIndex + lineCount;
      }
      if !chunk.removed {
        newIndex := newIndex + lineCount;
      }
      i := i + 1;
    }
    forall j, k | 0 <= j <= k < |chunks|
      ensures indices[j].startCurrent <= indices[k].startCurrent && indices[j].startNew <= indices[k].startNew
    {
      assert indices[j] == ExpectedIndex(chunks, j) && indices[k] == ExpectedIndex(chunks, k);
      PrefixLinesMonotone(chunks, j, k);
    }
  }

  function Min(a: nat, b: nat): nat { if a <= b then a else b }

  /** `codeLines.splice(start, 0, ...items)`: a start past the end inserts at the end. */
  function SpliceInsert(lines: seq<string>, start: nat, items: seq<string>): seq<string>
  {
    var p := Min(start, |lines|);
    lines[..p] + items + lines[p..]
  }

  /** `codeLines.splice(start, count)`: removes at most the lines that remain after `start`. */
  function SpliceDelete(lines: seq<string>, start: nat, count: nat): seq<string>
  {
    var p := Min(start, |lines|);
    lines[..p] + lines[Min(p + count, |lines|)..]
  }

  /** Inserting keeps the lines before the insertion point, then the items, then the rest. */
  lemma SpliceInsertShape(lines: seq<string>, start: nat, items: seq<string>)
    ensures var r, p := SpliceInsert(lines, start, items), Min(start, |lines|);
      && |r| == |lines| + |items|
      && r[..p] == lines[..p] && r[p..p + |items|] == items && r[p + |items|..] == lines[p..]
  {
  }

  /** Inserting lines without newlines into lines without newlines gives lines without newlines. */
  lemma SpliceInsertNoSeparator(lines: seq<string>, start: nat, items: seq<string>)
    requires NoSeparator(lines, '\n') && NoSeparator(items, '\n')
    ensures NoSeparator(SpliceInsert(lines, start, items), '\n')
  {
    var r, p := SpliceInsert(lines, start, items), Min(start, |lines|);
    forall i | 0 <= i < |r| ensures '\n' !in r[i] {
      if i < p {
        assert r[i] == lines[i];
      } else if i < p + |items| {
        assert r[i] == items[i - p];
      } else {
        assert r[i] == lines[i - |items|];
      }
    }
  }

  /** Deleting keeps the lines before the deletion point, then the lines after the deleted ones. */
  lemma SpliceDeleteShape(lines: seq<string>, start: nat, count: nat)
    ensures var r, p := SpliceDelete(lines, start, count), Min(start, |lines|);
      var q := Min(p + count, |lines|);
      && |r| == |lines| - (q - p)
      && r[..p] == lines[..p] && r[p..] == lines[q..]
  {
  }

  /** Deleting lines from lines without newlines leaves lines without newlines. */
  lemma SpliceDeleteNoSeparator(lines: seq<string>, start: nat, count: nat)
    requires NoSeparator(lines, '\n')
    ensures NoSeparator(SpliceDelete(lines, start, count), '\n')
  {
    var r, p := SpliceDelete(lines, start, count), Min(start, |lines|);
    var q := Min(p + count, |lines|);
    forall i | 0 <= i < |r| ensures '\n' !in r[i] {
      if i < p {
        assert r[i] == lines[i];
      } else {
        assert r[i] == lines[i + (q - p)];
      }
    }
  }

  /**
   * What applying `chunk` does to the current lines when the chunk starts
   * at line `start` of the current text: an added chunk's display lines go
   * in there, a removed chunk's `lineCount` lines come out from there, any
   * other chunk changes nothing.
   */
  function ApplyToLines(before: seq<string>, start: nat, chunk: Chunk): seq<string>
  {
    if chunk.added then SpliceInsert(before, start, DisplayLines(chunk.value))
    else if chunk.removed then SpliceDelete(before, start, LineCount(chunk.value))
    else before
  }

  /** The lines `handleApplyChunk(chunkIndex)` leaves. */
  function AppliedLines(currentCode: string, chunks: seq<Chunk>, chunkIndex: nat): seq<string>
    requires chunkIndex < |chunks|
  {
    ApplyToLines(Split(currentCode, '\n'), CurrentLines(chunks[..chunkIndex]), chunks[chunkIndex])
  }

  /**
   * Applying an added chunk: its lines are inserted at the chunk's start
   * (or at the end if the text is shorter); the lines before stay, and the
   * old lines from there follow the inserted ones.
   */
  lemma ApplyAddedChunk(before: seq<string>, start: nat, chunk: Chunk)
    requires chunk.added
    ensures var n, p := LineCount(chunk.value), Min(start, |before|);
      var lines := ApplyToLines(before, start, chunk);
      && |lines| == |before| + n
      && lines[..p] == before[..p]
      && lines[p..p + n] == DisplayLines(chunk.value)
      && lines[p + n..] == before[p..]
  {
    SpliceInsertShape(before, start, DisplayLines(chunk.value));
  }

  /**
   * Applying a removed chunk: `lineCount` lines from the chunk's start are
   * deleted, or all lines from there if fewer remain; the others keep their order.
   */
  lemma ApplyRemovedChunk(before: seq<string>, start: nat, chunk: Chunk)
    requires !chunk.added && chunk.removed
    ensures var n, p := LineCount(chunk.value), Min(start, |before|);
      var q := Min(p + n, |before|);
      var lines := ApplyToLines(before, start, chunk);
      && |lines| == |before| - (q - p)
      && lines[..p] == before[..p]
      && lines[p..] == before[q..]
  {
    SpliceDeleteShape(before, start, LineCount(chunk.value));
  }

  /** Applying an unchanged chunk gives back the current text exactly. */
  lemma ApplyUnchangedChunk(currentCode: string, chunks: seq<Chunk>, chunkIndex: nat)
    requires chunkIndex < |chunks| && !chunks[chunkIndex].added && !chunks[chunkIndex].removed
    ensures Join(AppliedLines(currentCode, chunks, chunkIndex), '\n') == currentCode
  {
    JoinSplit(currentCode, '\n');
  }

  /** Applying a chunk keeps lines free of newlines. */
  lemma ApplyToLinesNoSeparator(before: seq<string>, start: nat, chunk: Chunk)
    requires NoSeparator(before, '\n')
    ensures NoSeparator(ApplyToLines(before, start, chunk), '\n')
  {
    if chunk.added {
      SpliceInsertNoSeparator(before, start, DisplayLines(chunk.value));
    } else if chunk.removed {
      SpliceDeleteNoSeparator(before, start, LineCount(chunk.value));
    }
  }

  /** No applied line holds a newline, so the new text splits back into exactly these lines. */
  lemma AppliedLinesRoundTrip(currentCode: string, chunks: seq<Chunk>, chunkIndex: nat)
    requires chunkIndex < |chunks|
    ensures var lines := AppliedLines(currentCode, chunks, chunkIndex);
      && NoSeparator(lines, '\n')
      && (|lines| >= 1 ==> Split(Join(lines, '\n'), '\n') == lines)
  {
    SplitHasNoSeparator(currentCode, '\n');
    ApplyToLinesNoSeparator(Split(currentCode, '\n'), CurrentLines(chunks[..chunkIndex]), chunks[chunkIndex]);
    var lines := AppliedLines(currentCode, chunks, chunkIndex);
    if |lines| >= 1 {
      SplitJoin(lines, '\n');
    }
  }

  /**
   * `value.split('\n')`, with a trailing empty piece popped: the lines an
   * added chunk inserts. The step-by-step code of `handleApplyChunk`;
   * `DisplayLines` is its specification, and the lemmas are about that.
   */
  method PoppedLines(value: string) returns (newLines: seq<string>)
    ensures newLines == DisplayLines(value)
  {
    newLines := Split(value, '\n');
    if newLines[|newLines| - 1] == "" {
      newLines := newLines[..|newLines| - 1];
    }
  }

  /**
   * The in-place splice step of `handleApplyChunk`, given the chunk's
   * recorded start and line count. Its specification is `ApplyToLines`,
   * about which `ApplyAddedChunk`, `ApplyRemovedChunk` and
   * `ApplyUnchangedChunk` state what applying does.
   */
  method SpliceChunk(lines: seq<string>, start: nat, lineCount: nat, chunk: Chunk) returns (codeLines: seq<string>)
    requires lineCount == LineCount(chunk.value)
    ensures codeLines == ApplyToLines(lines, start, chunk)
  {
    codeLines := lines;
    if chunk.added {
      var newLines := PoppedLines(chunk.value);
      codeLines := SpliceInsert(codeLines, start, newLines);
    } else if chunk.removed {
      codeLines := SpliceDelete(codeLines, start, lineCount);
    }
  }

  /**
   * `handleApplyChunk(chunkIndex)`: splits the current text into lines,
   * splices the chunk's lines in or out at the index `computeIndices`
   * recorded, and joins the lines into the new current text.
   */
  method ApplyChunk(currentCode: string, chunks: seq<Chunk>, chunkIndex: nat)
    returns (codeLines: seq<string>, newMergedCode: string)
    requires chunkIndex < |chunks|
    ensures codeLines == AppliedLines(currentCode, chunks, chunkIndex)
    ensures newMergedCode == Join(codeLines, '\n')
  {
    var indices := ComputeIndices(chunks);
    var index := indices[chunkIndex];
    assert index == ChunkIndex(CurrentLines(chunks[..chunkIndex]), NewLines(chunks[..chunkIndex]), LineCount(chunks[chunkIndex].value));
    codeLines := SpliceChunk(Split(currentCode, '\n'), index.startCurrent, index.lineCount, chunks[chunkIndex]);
    newMergedCode := Join(codeLines, '\n');
  }
}
