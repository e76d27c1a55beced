/** The resume analyzer's extracted text: the pages' texts joined, then the
    cleanup that squeezes runs of spaces, trims every line, caps runs of
    newlines at two and trims the whole. How a page's text is assembled from
    positioned text items is left to the PDF library and is an input here.

    The cleanup's guarantees are proved through the set of adjacent
    character pairs a text contains: each squeezing step only deletes a
    character whose neighbour repeats it, so it introduces no new pair and
    keeps the first and last characters. */
module PdfText {
  import opened Strings
  import Seqs

  // Adjacent pairs

  /** The pairs of characters that stand next to each other in `s`. */
  function Pairs(s: string): set<(char, char)> {
    set i | 0 <= i < |s| - 1 :: PairAt(s, i)
  }

  function PairAt(s: string, i: nat): (char, char)
    requires i < |s| - 1
  {
    (s[i], s[i + 1])
  }

  lemma PairsCons(c: char, t: string)
    ensures Pairs([c] + t) == (if |t| > 0 then {(c, t[0])} else {}) + Pairs(t)
  {
    var s := [c] + t;
    forall p | p in Pairs(s) ensures p in (if |t| > 0 then {(c, t[0])} else {}) + Pairs(t) {
      var i :| 0 <= i < |s| - 1 && p == PairAt(s, i);
      if i > 0 {
        assert p == PairAt(t, i - 1);
      }
    }
    forall p | p in (if |t| > 0 then {(c, t[0])} else {}) + Pairs(t) ensures p in Pairs(s) {
      if p in Pairs(t) {
        var i :| 0 <= i < |t| - 1 && p == PairAt(t, i);
        assert p == PairAt(s, i + 1);
      } else {
        assert p == PairAt(s, 0);
      }
    }
  }

  lemma PairsConcat(a: string, b: string)
    ensures Pairs(a + b) == Pairs(a) + Pairs(b) + (if |a| > 0 && |b| > 0 then {(a[|a| - 1], b[0])} else {})
  {
    var s := a + b;
    var joint: set<(char, char)> := if |a| > 0 && |b| > 0 then {(a[|a| - 1], b[0])} else {};
    forall p | p in Pairs(s) ensures p in Pairs(a) + Pairs(b) + joint {
      var i :| 0 <= i < |s| - 1 && p == PairAt(s, i);
      if i < |a| - 1 {
        assert p == PairAt(a, i);
      } else if i >= |a| {
        assert p == PairAt(b, i - |a|);
      }
    }
    forall p | p in Pairs(a) + Pairs(b) + joint ensures p in Pairs(s) {
      if p in Pairs(a) {
        var i :| 0 <= i < |a| - 1 && p == PairAt(a, i);
        assert p == PairAt(s, i);
      } else if p in Pairs(b) {
        var i :| 0 <= i < |b| - 1 && p == PairAt(b, i);
        assert p == PairAt(s, |a| + i);
      } else {
        assert p == PairAt(s, |a| - 1);
      }
    }
  }

  lemma PairsSlice(s: string, i: nat, j: nat)
    requires i <= j <= |s|
    ensures Pairs(s[i..j]) <= Pairs(s)
  {
    var t := s[i..j];
    forall p | p in Pairs(t) ensures p in Pairs(s) {
      var k :| 0 <= k < |t| - 1 && p == PairAt(t, k);
      assert p == PairAt(s, i + k);
    }
  }

  lemma PairsMembers(s: string)
    ensures forall p :: p in Pairs(s) ==> p.0 in s && p.1 in s
  {
  }

  // The properties of clean text

  /** No two spaces in a row. */
  predicate NoDoubleSpace(s: string) {
    forall i :: 0 <= i < |s| - 1 ==> !(s[i] == ' ' && s[i + 1] == ' ')
  }

  lemma NoDoubleSpacePairs(s: string)
    ensures NoDoubleSpace(s) <==> (' ', ' ') !in Pairs(s)
  {
    if !NoDoubleSpace(s) {
      var i :| 0 <= i < |s| - 1 && s[i] == ' ' && s[i + 1] == ' ';
      assert PairAt(s, i) in Pairs(s);
    }
  }

  /** No three newlines in a row: at most one empty line between lines. */
  predicate NoTripleNewline(s: string) {
    forall i :: 0 <= i < |s| - 2 ==> !(s[i] == '\n' && s[i + 1] == '\n' && s[i + 2] == '\n')
  }

  /** Whitespace that is not a line break. */
  predicate Pad(c: char) {
    IsWhitespace(c) && c != '\n'
  }

  /** A pair that neither starts a line with whitespace nor ends one with it. */
  predicate BreakOk(p: (char, char)) {
    !(p.0 == '\n' && Pad(p.1)) && !(Pad(p.0) && p.1 == '\n')
  }

  /** Every line starts and ends with a non-whitespace character or is empty. */
  predicate LinesTrimmed(s: string) {
    && (forall p | p in Pairs(s) :: BreakOk(p))
    && (|s| > 0 ==> !Pad(s[0]) && !Pad(s[|s| - 1]))
  }

  /** `r` is `s` with some characters deleted in a way that creates no new
      neighbours and keeps both ends. */
  predicate Squeezed(r: string, s: string) {
    && |r| <= |s|
    && (|r| == 0 <==> |s| == 0)
    && (|r| > 0 ==> r[0] == s[0] && r[|r| - 1] == s[|s| - 1])
    && Pairs(r) <= Pairs(s)
  }

  lemma SqueezedKeeps(r: string, s: string)
    requires Squeezed(r, s)
    ensures NoDoubleSpace(s) ==> NoDoubleSpace(r)
    ensures LinesTrimmed(s) ==> LinesTrimmed(r)
  {
    NoDoubleSpacePairs(s);
    NoDoubleSpacePairs(r);
  }

  // The cleanup steps

  /** `replace(/ +/g, ' ')`: every run of spaces becomes one space. */
  function CollapseSpaces(s: string): (r: string)
    ensures Squeezed(r, s)
    ensures NoDoubleSpace(r)
    ensures RemoveChar(r, ' ') == RemoveChar(s, ' ')
    ensures Pairs(r) == Pairs(s) - {(' ', ' ')}
  {
    if |s| == 0 then s
    else
      var rest := CollapseSpaces(s[1..]);
      if |s| >= 2 && s[0] == ' ' && s[1] == ' ' then
        SqueezeDrop(s, rest);
        RemoveCharDrop(s, ' ');
        PairsDrop(s, rest, {(' ', ' ')});
        rest
      else
        SqueezeKeep(s, rest);
        RemoveCharCons(s[0], rest, ' ');
        RemoveCharCons(s[0], s[1..], ' ');
        SpaceCons(s[0], rest);
        PairsKeep(s, rest, {(' ', ' ')});
        [s[0]] + rest
  }

  /** Collapsing spaces removes only whitespace and keeps the words. */
  lemma CollapseSpacesText(s: string)
    ensures NonWs(CollapseSpaces(s)) == NonWs(s)
    ensures Words(CollapseSpaces(s)) == Words(s)
  {
    NonWsRemove(CollapseSpaces(s), ' ');
    NonWsRemove(s, ' ');
    CollapseSpacesWords(s);
  }

  lemma {:induction false} CollapseSpacesWords(s: string)
    ensures Words(CollapseSpaces(s)) == Words(s)
  {
    if |s| > 0 {
      var t := s[1..];
      var rest := CollapseSpaces(t);
      CollapseSpacesWords(t);
      if |s| >= 2 && s[0] == ' ' && s[1] == ' ' {
        assert CollapseSpaces(s) == rest;
        assert Words(s) == Words(t);
      } else {
        assert CollapseSpaces(s) == [s[0]] + rest;
        WordsCongruent(s, rest);
      }
    }
  }

  /** `replace(/\n{3,}/g, '\n\n')`: every run of three or more newlines
      becomes two. */
  function CollapseNewlines(s: string): (r: string)
    ensures Squeezed(r, s)
    ensures NoTripleNewline(r)
    ensures |s| >= 2 && s[1] != '\n' ==> |r| >= 2 && r[1] == s[1]
    ensures RemoveChar(r, '\n') == RemoveChar(s, '\n')
    ensures Pairs(r) == Pairs(s)
  {
    if |s| == 0 then s
    else
      var rest := CollapseNewlines(s[1..]);
      if |s| >= 3 && s[0] == '\n' && s[1] == '\n' && s[2] == '\n' then
        NewlinesDrop(s, rest);
        rest
      else
        NewlinesKeep(s, rest);
        [s[0]] + rest
  }

  /** The step that drops the first of three newlines. */
  lemma NewlinesDrop(s: string, rest: string)
    requires |s| >= 3 && s[0] == '\n' && s[1] == '\n' && s[2] == '\n'
    requires Squeezed(rest, s[1..]) && NoTripleNewline(rest)
    requires RemoveChar(rest, '\n') == RemoveChar(s[1..], '\n')
    requires Pairs(rest) == Pairs(s[1..])
    ensures Squeezed(rest, s) && RemoveChar(rest, '\n') == RemoveChar(s, '\n')
    ensures Pairs(rest) == Pairs(s)
  {
    SqueezeDrop(s, rest);
    RemoveCharDrop(s, '\n');
    PairsDropRepeat(s, rest);
  }

  /** The step that keeps the first character. */
  lemma NewlinesKeep(s: string, rest: string)
    requires |s| >= 1 && !(|s| >= 3 && s[0] == '\n' && s[1] == '\n' && s[2] == '\n')
    requires Squeezed(rest, s[1..]) && NoTripleNewline(rest)
    requires |s| >= 3 && s[2] != '\n' ==> |rest| >= 2 && rest[1] == s[2]
    requires RemoveChar(rest, '\n') == RemoveChar(s[1..], '\n')
    requires Pairs(rest) == Pairs(s[1..])
    ensures Squeezed([s[0]] + rest, s) && NoTripleNewline([s[0]] + rest)
    ensures |s| >= 2 && s[1] != '\n' ==> |[s[0]] + rest| >= 2 && ([s[0]] + rest)[1] == s[1]
    ensures RemoveChar([s[0]] + rest, '\n') == RemoveChar(s, '\n')
    ensures Pairs([s[0]] + rest) == Pairs(s)
  {
    SqueezeKeep(s, rest);
    RemoveCharCons(s[0], rest, '\n');
    RemoveCharCons(s[0], s[1..], '\n');
    assert s == [s[0]] + s[1..];
    NewlineCons(s, rest);
    PairsKeepAll(s, rest);
  }

  /** Collapsing newlines removes only whitespace and keeps the words. */
  lemma CollapseNewlinesText(s: string)
    ensures NonWs(CollapseNewlines(s)) == NonWs(s)
    ensures Words(CollapseNewlines(s)) == Words(s)
  {
    NonWsRemove(CollapseNewlines(s), '\n');
    NonWsRemove(s, '\n');
    CollapseNewlinesWords(s);
  }

  lemma {:induction false} CollapseNewlinesWords(s: string)
    ensures Words(CollapseNewlines(s)) == Words(s)
  {
    if |s| > 0 {
      var t := s[1..];
      var rest := CollapseNewlines(t);
      CollapseNewlinesWords(t);
      if |s| >= 3 && s[0] == '\n' && s[1] == '\n' && s[2] == '\n' {
        assert CollapseNewlines(s) == rest;
        assert Words(s) == Words(t);
      } else {
        assert CollapseNewlines(s) == [s[0]] + rest;
        WordsCongruent(s, rest);
      }
    }
  }


  /** Dropping the first of two equal characters keeps a squeeze. */
  lemma SqueezeDrop(s: string, rest: string)
    requires |s| >= 2 && s[0] == s[1] && Squeezed(rest, s[1..])
    ensures Squeezed(rest, s)
  {
    PairsCons(s[0], s[1..]);
    assert s == [s[0]] + s[1..];
  }

  /** Keeping the first character keeps a squeeze. */
  lemma SqueezeKeep(s: string, rest: string)
    requires |s| >= 1 && Squeezed(rest, s[1..])
    ensures Squeezed([s[0]] + rest, s)
  {
    PairsCons(s[0], s[1..]);
    PairsCons(s[0], rest);
    assert s == [s[0]] + s[1..];
  }

  /** Dropping the first character, whose pair with the next is excluded or
      occurs later anyway, keeps the pairs outside `gone`. */
  lemma PairsDrop(s: string, rest: string, gone: set<(char, char)>)
    requires |s| >= 2 && Pairs(rest) == Pairs(s[1..]) - gone
    requires (s[0], s[1]) in gone || (s[0], s[1]) in Pairs(s[1..])
    ensures Pairs(rest) == Pairs(s) - gone
  {
    PairsCons(s[0], s[1..]);
    assert s == [s[0]] + s[1..];
  }

  /** Dropping the first of three equal characters keeps every pair. */
  lemma PairsDropRepeat(s: string, rest: string)
    requires |s| >= 3 && s[0] == s[1] == s[2] && Pairs(rest) == Pairs(s[1..])
    ensures Pairs(rest) == Pairs(s)
  {
    assert PairAt(s[1..], 0) in Pairs(s[1..]);
    PairsDrop(s, rest, {});
    assert Pairs(s[1..]) - {} == Pairs(s[1..]);
    assert Pairs(s) - {} == Pairs(s);
  }

  /** Keeping the first character in front of a squeezed rest keeps every pair. */
  lemma PairsKeepAll(s: string, rest: string)
    requires |s| >= 1 && Pairs(rest) == Pairs(s[1..])
    requires |rest| == 0 <==> |s| == 1
    requires |rest| > 0 ==> rest[0] == s[1]
    ensures Pairs([s[0]] + rest) == Pairs(s)
  {
    PairsCons(s[0], s[1..]);
    PairsCons(s[0], rest);
    assert s == [s[0]] + s[1..];
  }

  /** Keeping the first character in front of a squeezed rest keeps the
      pairs outside `gone`. */
  lemma PairsKeep(s: string, rest: string, gone: set<(char, char)>)
    requires |s| >= 1 && Pairs(rest) == Pairs(s[1..]) - gone
    requires |rest| == 0 <==> |s| == 1
    requires |rest| > 0 ==> rest[0] == s[1]
    requires |s| >= 2 ==> (s[0], s[1]) !in gone
    ensures Pairs([s[0]] + rest) == Pairs(s) - gone
  {
    PairsCons(s[0], s[1..]);
    PairsCons(s[0], rest);
    assert s == [s[0]] + s[1..];
  }

  lemma RemoveCharCons(x: char, t: string, c: char)
    ensures RemoveChar([x] + t, c) == (if x == c then "" else [x]) + RemoveChar(t, c)
  {
    assert ([x] + t)[1..] == t;
  }

  lemma RemoveCharDrop(s: string, c: char)
    requires |s| >= 1 && s[0] == c
    ensures RemoveChar(s, c) == RemoveChar(s[1..], c)
  {
  }

  lemma SpaceCons(c: char, t: string)
    requires NoDoubleSpace(t)
    requires !(c == ' ' && |t| >= 1 && t[0] == ' ')
    ensures NoDoubleSpace([c] + t)
  {
    var r := [c] + t;
    forall i | 0 <= i < |r| - 1 ensures !(r[i] == ' ' && r[i + 1] == ' ') {
      if i > 0 {
        assert r[i] == t[i - 1] && r[i + 1] == t[i];
      }
    }
  }

  /** Keeping a first character that does not start a run of three
      newlines keeps the guarantees of the newline cap. */
  lemma NewlineCons(s: string, rest: string)
    requires |s| >= 1 && Squeezed(rest, s[1..]) && NoTripleNewline(rest)
    requires |s| >= 3 && s[2] != '\n' ==> |rest| >= 2 && rest[1] == s[2]
    requires !(|s| >= 3 && s[0] == '\n' && s[1] == '\n' && s[2] == '\n')
    ensures NoTripleNewline([s[0]] + rest)
    ensures |s| >= 2 && s[1] != '\n' ==> |[s[0]] + rest| >= 2 && ([s[0]] + rest)[1] == s[1]
  {
    ConsNewline(s[0], rest);
  }

  lemma ConsNewline(c: char, t: string)
    requires NoTripleNewline(t)
    requires !(c == '\n' && |t| >= 2 && t[0] == '\n' && t[1] == '\n')
    ensures NoTripleNewline([c] + t)
  {
    var r := [c] + t;
    forall i | 0 <= i < |r| - 2 ensures !(r[i] == '\n' && r[i + 1] == '\n' && r[i + 2] == '\n') {
      if i > 0 {
        assert r[i] == t[i - 1] && r[i + 1] == t[i] && r[i + 2] == t[i + 1];
      }
    }
  }

  /** `split('\n').map(line => line.trim()).join('\n')`. */
  function TrimLines(s: string): (r: string)
    ensures LinesTrimmed(r)
    ensures NoDoubleSpace(s) ==> NoDoubleSpace(r)
    ensures NonWs(r) == NonWs(s)
    ensures Split(r, '\n') == TrimAll(Split(s, '\n'))
  {
    var parts := TrimAll(Split(s, '\n'));
    NonWsJoinTrim(Split(s, '\n'), "\n");
    JoinSplit(s, '\n');
    TrimmedPieces(s);
    SplitJoin(parts, '\n');
    JoinLines(parts, s);
    NoDoubleSpacePairs(s);
    NoDoubleSpacePairs(Join(parts, "\n"));
    Join(parts, "\n")
  }

  /** Trimming the lines keeps the words. */
  lemma TrimLinesWords(s: string)
    ensures Words(TrimLines(s)) == Words(s)
  {
    WordsJoinTrim(Split(s, '\n'), '\n');
    JoinSplit(s, '\n');
  }

  // Lines of a split

  /** The first piece of a split is a prefix that stops at the separator. */
  lemma {:induction false} SplitFirst(s: string, sep: char)
    ensures |Split(s, sep)[0]| <= |s| && Split(s, sep)[0] == s[..|Split(s, sep)[0]|]
    ensures |Split(s, sep)[0]| < |s| ==> s[|Split(s, sep)[0]|] == sep
  {
    if |s| > 0 {
      SplitFirst(s[1..], sep);
    }
  }

  /** Every piece of a split has only neighbours the whole has. */
  lemma {:induction false} SplitPairs(s: string, sep: char)
    ensures forall k :: 0 <= k < |Split(s, sep)| ==> Pairs(Split(s, sep)[k]) <= Pairs(s)
  {
    if |s| > 0 {
      var rest := Split(s[1..], sep);
      SplitPairs(s[1..], sep);
      PairsCons(s[0], s[1..]);
      assert s == [s[0]] + s[1..];
      if s[0] != sep {
        SplitFirst(s[1..], sep);
        PairsCons(s[0], rest[0]);
      }
    }
  }

  /** Lines free of newlines, each trimmed, with only neighbours `s` has. */
  predicate CleanLines(parts: seq<string>, s: string) {
    forall k :: 0 <= k < |parts| ==> '\n' !in parts[k] && IsTrimmed(parts[k]) && Pairs(parts[k]) <= Pairs(s)
  }

  /** Trimming one piece keeps it free of the separator and adds no neighbour. */
  lemma TrimmedPiece(piece: string, s: string)
    requires '\n' !in piece && Pairs(piece) <= Pairs(s)
    ensures '\n' !in Trim(piece) && IsTrimmed(Trim(piece)) && Pairs(Trim(piece)) <= Pairs(s)
  {
    TrimKeepsAbsent(piece, '\n');
    TrimPairs(piece);
  }

  /** The trimmed lines of `s` are clean lines of `s`. */
  lemma TrimmedPieces(s: string)
    ensures CleanLines(TrimAll(Split(s, '\n')), s)
  {
    var pieces := Split(s, '\n');
    var parts := TrimAll(pieces);
    SplitPairs(s, '\n');
    forall k | 0 <= k < |parts|
      ensures '\n' !in parts[k] && IsTrimmed(parts[k]) && Pairs(parts[k]) <= Pairs(s)
    {
      TrimmedPiece(pieces[k], s);
    }
  }

  /** Joining newline-free trimmed lines with newlines gives text whose every
      line is trimmed, with no double space unless a line has one. */
  lemma {:induction false} JoinLines(parts: seq<string>, s: string)
    requires CleanLines(parts, s)
    ensures LinesTrimmed(Join(parts, "\n"))
    ensures (' ', ' ') !in Pairs(s) ==> (' ', ' ') !in Pairs(Join(parts, "\n"))
  {
    if |parts| == 1 {
      PairsMembers(parts[0]);
    } else if |parts| > 1 {
      var tail := Join(parts[1..], "\n");
      JoinLines(parts[1..], s);
      assert Join(parts, "\n") == parts[0] + (['\n'] + tail);
      JoinLine(parts[0], tail);
    }
  }

  /** One trimmed line in front of a newline and trimmed lines. */
  lemma JoinLine(line: string, tail: string)
    requires '\n' !in line && IsTrimmed(line) && LinesTrimmed(tail)
    ensures LinesTrimmed(line + (['\n'] + tail))
    ensures Pairs(line + (['\n'] + tail)) <= Pairs(line) + Pairs(tail) + {(' ', '\n'), ('\n', ' ')} + (set c | c in line :: (c, '\n')) + (set c | c in tail :: ('\n', c))
  {
    var x := ['\n'] + tail;
    PairsCons('\n', tail);
    PairsConcat(line, x);
    PairsMembers(line);
    var s := line + x;
    if |line| == 0 {
      assert s == x;
    }
    assert s[|s| - 1] == x[|x| - 1];
  }

  /** In text whose line breaks are clean and which does not end in
      whitespace, every line after the first is trimmed and the first does
      not end in whitespace. */
  lemma {:induction false} LaterLinesTrimmed(s: string)
    requires forall p | p in Pairs(s) :: BreakOk(p)
    requires |s| > 0 ==> !Pad(s[|s| - 1])
    ensures forall k :: 1 <= k < |Split(s, '\n')| ==> IsTrimmed(Split(s, '\n')[k])
    ensures var first := Split(s, '\n')[0]; |first| > 0 ==> !IsWhitespace(first[|first| - 1])
  {
    if |s| > 0 {
      var rest := Split(s[1..], '\n');
      PairsCons(s[0], s[1..]);
      assert s == [s[0]] + s[1..];
      LaterLinesTrimmed(s[1..]);
      SplitFirst(s[1..], '\n');
      if s[0] == '\n' {
        if |rest[0]| > 0 {
          assert rest[0][0] == s[1];
          assert PairAt(s, 0) in Pairs(s);
        }
        assert Split(s, '\n') == [""] + rest;
      } else {
        if |rest[0]| == 0 && |s| > 1 {
          assert PairAt(s, 0) in Pairs(s);
        }
      }
    }
  }

  /** Text whose every line is trimmed splits into trimmed lines. */
  lemma LinesTrimmedSplit(s: string)
    requires LinesTrimmed(s)
    ensures forall k :: 0 <= k < |Split(s, '\n')| ==> IsTrimmed(Split(s, '\n')[k])
  {
    LaterLinesTrimmed(s);
    SplitFirst(s, '\n');
  }

  /** Trimming the lines of text whose lines are trimmed changes nothing. */
  lemma TrimLinesFixed(s: string)
    requires LinesTrimmed(s)
    ensures TrimLines(s) == s
  {
    LinesTrimmedSplit(s);
    TrimAllFixed(Split(s, '\n'));
    JoinSplit(s, '\n');
  }

  // The whole cleanup

  /** Trimming the whole keeps the guarantees of the earlier steps. */
  lemma TrimKeeps(s: string)
    ensures NoDoubleSpace(s) ==> NoDoubleSpace(Trim(s))
    ensures NoTripleNewline(s) ==> NoTripleNewline(Trim(s))
    ensures LinesTrimmed(s) ==> LinesTrimmed(Trim(s))
  {
    TrimKeepsSpaces(s);
    TrimKeepsTriple(s);
    if LinesTrimmed(s) {
      TrimLinesTrimmed(s);
    }
  }

  lemma TrimKeepsSpaces(s: string)
    ensures NoDoubleSpace(s) ==> NoDoubleSpace(Trim(s))
  {
    TrimPairs(s);
    NoDoubleSpacePairs(s);
    NoDoubleSpacePairs(Trim(s));
  }

  lemma TrimKeepsTriple(s: string)
    ensures NoTripleNewline(s) ==> NoTripleNewline(Trim(s))
  {
    TrimTriples(s);
    NoTripleTriples(s);
    NoTripleTriples(Trim(s));
  }

  lemma TrimTriples(s: string)
    ensures Triples(Trim(s)) <= Triples(s)
  {
    var t, off := Trim(s), TrimOffset(s);
    assert t == s[off..off + |t|];
    TriplesSlice(s, off, off + |t|, t);
  }

  lemma TrimPairs(s: string)
    ensures Pairs(Trim(s)) <= Pairs(s)
  {
    var t := Trim(s);
    var off := TrimOffset(s);
    assert t == s[off..off + |t|];
    PairsSlice(s, off, off + |t|);
  }

  lemma TrimLinesTrimmed(s: string)
    requires LinesTrimmed(s)
    ensures LinesTrimmed(Trim(s))
  {
    TrimPairs(s);
    var r := Trim(s);
    if |r| > 0 {
      assert !IsWhitespace(r[0]) && !IsWhitespace(r[|r| - 1]);
    }
  }

  /** The runs of three characters in `s`. */
  function Triples(s: string): set<(char, char, char)> {
    set i | 0 <= i < |s| - 2 :: TripleAt(s, i)
  }

  function TripleAt(s: string, i: nat): (char, char, char)
    requires i < |s| - 2
  {
    (s[i], s[i + 1], s[i + 2])
  }

  lemma NoTripleTriples(s: string)
    ensures NoTripleNewline(s) <==> ('\n', '\n', '\n') !in Triples(s)
  {
    if !NoTripleNewline(s) {
      var i :| 0 <= i < |s| - 2 && s[i] == '\n' && s[i + 1] == '\n' && s[i + 2] == '\n';
      assert TripleAt(s, i) in Triples(s);
    }
  }

  lemma TriplesSlice(s: string, i: nat, j: nat, t: string)
    requires i <= j <= |s| && t == s[i..j]
    ensures Triples(t) <= Triples(s)
  {
    forall p | p in Triples(t) ensures p in Triples(s) {
      var k :| 0 <= k < |t| - 2 && p == TripleAt(t, k);
      assert p == TripleAt(s, i + k);
    }
  }

  /** The text the analyzer keeps: spaces squeezed, lines trimmed, newline
      runs capped at two, and the whole trimmed. */
  function Clean(s: string): (r: string)
    ensures NoDoubleSpace(r) && NoTripleNewline(r) && IsTrimmed(r)
    ensures LinesTrimmed(r)
    ensures forall k :: 0 <= k < |Split(r, '\n')| ==> IsTrimmed(Split(r, '\n')[k])
    ensures NonWs(r) == NonWs(s)
    ensures Words(r) == Words(s)
  {
    var a := CollapseSpaces(s);
    var b := TrimLines(a);
    var c := CollapseNewlines(b);
    CollapseSpacesText(s);
    TrimLinesWords(a);
    CollapseNewlinesText(b);
    NonWsTrim(c);
    WordsTrim(c);
    SqueezedKeeps(c, b);
    TrimKeeps(c);
    LinesTrimmedSplit(Trim(c));
    Trim(c)
  }

  /** Collapsing spaces in text without a double space changes nothing. */
  lemma {:induction false} CollapseSpacesFixed(s: string)
    requires NoDoubleSpace(s)
    ensures CollapseSpaces(s) == s
  {
    if |s| > 0 {
      CollapseSpacesFixed(s[1..]);
      assert s == [s[0]] + s[1..];
    }
  }

  lemma DropNoTripleNewline(s: string)
    requires |s| > 0 && NoTripleNewline(s)
    ensures NoTripleNewline(s[1..])
  {
    var t := s[1..];
    forall k | 0 <= k < |t| - 2 ensures !(t[k] == '\n' && t[k + 1] == '\n' && t[k + 2] == '\n') {
      assert t[k] == s[k + 1] && t[k + 1] == s[k + 2] && t[k + 2] == s[k + 3];
    }
  }

  /** Capping newline runs in text without three newlines in a row changes nothing. */
  lemma {:induction false} CollapseNewlinesFixed(s: string)
    requires NoTripleNewline(s)
    ensures CollapseNewlines(s) == s
  {
    if |s| > 0 {
      DropNoTripleNewline(s);
      CollapseNewlinesFixed(s[1..]);
      NewlinesFixedStep(s);
    }
  }

  /** A first character that starts no run of three newlines is kept in
      front of a fixed rest. */
  lemma NewlinesFixedStep(s: string)
    requires |s| > 0 && !(|s| >= 3 && s[0] == '\n' && s[1] == '\n' && s[2] == '\n')
    requires CollapseNewlines(s[1..]) == s[1..]
    ensures CollapseNewlines(s) == s
  {
    assert s == [s[0]] + s[1..];
  }

  /** Cleaning clean text changes nothing. */
  lemma CleanIdempotent(s: string)
    ensures Clean(Clean(s)) == Clean(s)
  {
    var t := Clean(s);
    CollapseSpacesFixed(t);
    TrimLinesFixed(t);
    CollapseNewlinesFixed(t);
    TrimFixedPoint(t);
  }

  // Pages

  /** A page as the library reports it: how many text items it has, and the
      text assembled from them. */
  datatype Page = Page(itemCount: nat, text: string)

  predicate HasItems(p: Page) {
    p.itemCount > 0
  }

  /** The loop over the pages: a page without items is skipped; every other
      page adds its text and a blank line. */
  function JoinPages(pages: seq<Page>): (r: string)
    ensures (forall i :: 0 <= i < |pages| ==> !HasItems(pages[i])) ==> r == ""
    ensures (exists i :: 0 <= i < |pages| && HasItems(pages[i])) ==> |r| >= 2 && r[|r| - 2..] == "\n\n"
  {
    if |pages| == 0 then ""
    else
      var rest := JoinPages(pages[1..]);
      assert forall i :: 1 <= i < |pages| ==> pages[i] == pages[1..][i - 1];
      if HasItems(pages[0]) then
        var r := pages[0].text + "\n\n" + rest;
        assert |rest| > 0 ==> r[|r| - 2..] == rest[|rest| - 2..];
        r
      else rest
  }

  /** Only the pages with items matter, in their order. */
  lemma {:induction false} JoinPagesSkips(pages: seq<Page>)
    ensures JoinPages(pages) == JoinPages(Seqs.Filter(pages, HasItems))
  {
    if |pages| > 0 {
      JoinPagesSkips(pages[1..]);
      var kept := Seqs.Filter(pages[1..], HasItems);
      if HasItems(pages[0]) {
        assert Seqs.Filter(pages, HasItems) == [pages[0]] + kept;
        assert ([pages[0]] + kept)[1..] == kept;
      } else {
        assert Seqs.Filter(pages, HasItems) == kept;
      }
    }
  }

  /** Two pages with items: their texts, each followed by a blank line. */
  lemma TwoPages(a: Page, b: Page)
    requires HasItems(a) && HasItems(b)
    ensures JoinPages([a, b]) == a.text + "\n\n" + (b.text + "\n\n")
  {
    assert [a, b][1..] == [b];
    assert [b][1..] == [];
    assert b.text + "\n\n" + "" == b.text + "\n\n";
  }

  /** The text the analyzer keeps from a PDF. */
  function ExtractedText(pages: seq<Page>): (r: string)
    ensures NoDoubleSpace(r) && NoTripleNewline(r) && IsTrimmed(r)
    ensures forall k :: 0 <= k < |Split(r, '\n')| ==> IsTrimmed(Split(r, '\n')[k])
    ensures (forall i :: 0 <= i < |pages| ==> !HasItems(pages[i])) ==> r == ""
    ensures NonWs(r) == NonWs(JoinPages(pages))
    ensures Words(r) == Words(JoinPages(pages))
  {
    var joined := JoinPages(pages);
    var r := Clean(joined);
    assert (forall i :: 0 <= i < |pages| ==> !HasItems(pages[i])) ==> r == "" by {
      if forall i :: 0 <= i < |pages| ==> !HasItems(pages[i]) {
        assert joined == "";
        CleanEmpty();
      }
    }
    r
  }

  /** Empty text stays empty. */
  lemma CleanEmpty()
    ensures Clean("") == ""
  {
    assert CollapseSpaces("") == "";
    assert Split("", '\n') == [""];
    assert TrimAll([""]) == [Trim("")] == [""];
    assert TrimLines("") == "";
    assert CollapseNewlines("") == "";
  }
}
