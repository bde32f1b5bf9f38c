/**
 * JavaScript's `String.prototype.split(sep)` and `Array.prototype.join(sep)`
 * for a one-character separator, which the editor components use to turn a
 * document into lines (and back), and the TSV export uses to build rows.
 */
module TextLines {

  /** `s.split(sep)`: the pieces between separators; never empty (`"".split` is `[""]`). */
  function Split(s: string, sep: char): (pieces: seq<string>)
    ensures |pieces| >= 1
    decreases |s|
  {
    if s == [] then [""]
    else
      var rest := Split(s[1..], sep);
      if s[0] == sep then [""] + rest
      else [[s[0]] + rest[0]] + rest[1..]
  }

  /** `pieces.join(sep)`: `[].join` is the empty string. */
  function Join(pieces: seq<string>, sep: char): string
    decreases |pieces|
  {
    if |pieces| == 0 then ""
    else if |pieces| == 1 then pieces[0]
    else pieces[0] + [sep] + Join(pieces[1..], sep)
  }

  /** Number of occurrences of `c` in `s`. */
  function Count(s: string, c: char): nat
    decreases |s|
  {
    if s == [] then 0 else (if s[0] == c then 1 else 0) + Count(s[1..], c)
  }

  predicate NoSeparator(pieces: seq<string>, sep: char)
  {
    forall i :: 0 <= i < |pieces| ==> sep !in pieces[i]
  }

  /** Joining the pieces of a split restores the original string. */
  lemma {:induction false} JoinSplit(s: string, sep: char)
    ensures Join(Split(s, sep), sep) == s
    decreases |s|
  {
    if s != [] {
      var rest := Split(s[1..], sep);
      JoinSplit(s[1..], sep);
      if s[0] == sep {
        assert Split(s, sep) == [""] + rest;
      } else {
        var pieces := Split(s, sep);
        assert pieces == [[s[0]] + rest[0]] + rest[1..];
        if |rest| == 1 {
          assert Join(pieces, sep) == [s[0]] + rest[0];
        } else {
          assert pieces[1..] == rest[1..];
          assert Join(rest, sep) == rest[0] + [sep] + Join(rest[1..], sep);
          assert Join(pieces, sep) == [s[0]] + rest[0] + [sep] + Join(rest[1..], sep);
        }
        assert s == [s[0]] + s[1..];
      }
    }
  }

  /** No piece of a split contains the separator. */
  lemma {:induction false} SplitHasNoSeparator(s: string, sep: char)
    ensures NoSeparator(Split(s, sep), sep)
    decreases |s|
  {
    if s != [] {
      SplitHasNoSeparator(s[1..], sep);
      var rest := Split(s[1..], sep);
      if s[0] != sep {
        var pieces := Split(s, sep);
        forall i | 0 <= i < |pieces| ensures sep !in pieces[i] {
          if i == 0 {
            assert pieces[0] == [s[0]] + rest[0];
          } else {
            assert pieces[i] == rest[i];
          }
        }
      }
    }
  }

  /** A split has one more piece than the string has separators. */
  lemma {:induction false} SplitLength(s: string, sep: char)
    ensures |Split(s, sep)| == Count(s, sep) + 1
    decreases |s|
  {
    if s != [] {
      SplitLength(s[1..], sep);
    }
  }

  /** The last piece of a split is empty exactly when the string is empty or ends with the separator. */
  lemma {:induction false} SplitLastEmpty(s: string, sep: char)
    ensures var pieces := Split(s, sep);
      pieces[|pieces| - 1] == "" <==> (s == "" || s[|s| - 1] == sep)
    decreases |s|
  {
    if s != [] {
      SplitLastEmpty(s[1..], sep);
      var rest := Split(s[1..], sep);
      var pieces := Split(s, sep);
      if s[0] == sep {
        assert pieces[|pieces| - 1] == rest[|rest| - 1];
      } else if |rest| == 1 {
        assert pieces == [[s[0]] + rest[0]];
        assert s[1..] == "" || s[1..][|s[1..]| - 1] == sep ==> rest[0] == "";
        assert s[1..] != "" ==> s[1..][|s[1..]| - 1] == s[|s| - 1];
      } else {
        assert pieces[|pieces| - 1] == rest[|rest| - 1];
      }
      assert s[1..] != "" ==> s[1..][|s[1..]| - 1] == s[|s| - 1];
    }
  }

  /** Splitting a separator-free prefix glued to a rest extends the rest's first piece. */
  lemma {:induction false} SplitPrefix(a: string, rest: string, sep: char)
    requires sep !in a
    ensures Split(a + rest, sep) == [a + Split(rest, sep)[0]] + Split(rest, sep)[1..]
    decreases |a|
  {
    if a != [] {
      SplitPrefix(a[1..], rest, sep);
      assert (a + rest)[1..] == a[1..] + rest;
      assert (a + rest)[0] == a[0];
      assert [a[0]] + (a[1..] + Split(rest, sep)[0]) == a + Split(rest, sep)[0];
    } else {
      var pieces := Split(rest, sep);
      assert a + rest == rest;
      assert a + pieces[0] == pieces[0];
      assert pieces == [pieces[0]] + pieces[1..];
    }
  }

  /** Splitting a join of separator-free pieces gives back the pieces. */
  lemma {:induction false} SplitJoin(pieces: seq<string>, sep: char)
    requires |pieces| >= 1
    requires NoSeparator(pieces, sep)
    ensures Split(Join(pieces, sep), sep) == pieces
    decreases |pieces|
  {
    if |pieces| == 1 {
      SplitPrefix(pieces[0], "", sep);
      assert pieces[0] + "" == pieces[0];
      assert pieces[0] + Split("", sep)[0] == pieces[0];
      assert Join(pieces, sep) == pieces[0];
    } else {
      var tail := Join(pieces[1..], sep);
      assert NoSeparator(pieces[1..], sep) by {
        forall i | 0 <= i < |pieces[1..]| ensures sep !in pieces[1..][i] {
          assert pieces[1..][i] == pieces[i + 1];
        }
      }
      SplitJoin(pieces[1..], sep);
      assert sep !in pieces[0];
      var rest := [sep] + tail;
      assert Join(pieces, sep) == pieces[0] + rest;
      SplitPrefix(pieces[0], rest, sep);
      assert rest[1..] == tail;
      assert Split(rest, sep) == [""] + pieces[1..];
      assert pieces[0] + "" == pieces[0];
      assert pieces == [pieces[0]] + pieces[1..];
    }
  }
}
