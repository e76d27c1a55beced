/** String primitives with the JavaScript semantics the components rely on:
    `trim`, `split` on a single character, `join`, `parseInt(_, 10)` and the
    decimal rendering of a non-negative integer. Strings are `seq<char>`. */
module Strings {
  import opened Options
  import Seqs

  /** The characters `String.prototype.trim` strips: ECMAScript WhiteSpace
      and LineTerminator code points. */
  predicate IsWhitespace(c: char) {
    || c == '\t' || c == '\n' || c == '\U{000B}' || c == '\U{000C}' || c == '\r' || c == ' '
    || c == '\U{00A0}' || c == '\U{1680}' || ('\U{2000}' <= c <= '\U{200A}')
    || c == '\U{2028}' || c == '\U{2029}' || c == '\U{202F}' || c == '\U{205F}'
    || c == '\U{3000}' || c == '\U{FEFF}'
  }

  /** No whitespace at either end. */
  predicate IsTrimmed(s: string) {
    |s| == 0 || (!IsWhitespace(s[0]) && !IsWhitespace(s[|s| - 1]))
  }

  /** Every character is whitespace (so `s.trim()` is falsy). */
  predicate IsBlank(s: string) {
    forall i :: 0 <= i < |s| ==> IsWhitespace(s[i])
  }

  function TrimStart(s: string): (r: string)
    ensures |r| <= |s| && r == s[|s| - |r|..]
    ensures |r| > 0 ==> !IsWhitespace(r[0])
    ensures forall i :: 0 <= i < |s| - |r| ==> IsWhitespace(s[i])
  {
    if |s| > 0 && IsWhitespace(s[0]) then TrimStart(s[1..]) else s
  }

  function TrimEnd(s: string): (r: string)
    ensures |r| <= |s| && r == s[..|r|]
    ensures |r| > 0 ==> !IsWhitespace(r[|r| - 1])
    ensures forall i :: |r| <= i < |s| ==> IsWhitespace(s[i])
  {
    if |s| > 0 && IsWhitespace(s[|s| - 1]) then TrimEnd(s[..|s| - 1]) else s
  }

  /** `s.trim()`: the longest slice of `s` with no whitespace at either end. */
  function Trim(s: string): (r: string)
    ensures IsTrimmed(r)
    ensures |r| <= |s|
    ensures TrimOffset(s) + |r| <= |s| && r == s[TrimOffset(s)..TrimOffset(s) + |r|]
    ensures |r| == 0 <==> IsBlank(s)
    ensures forall i :: 0 <= i < TrimOffset(s) ==> IsWhitespace(s[i])
    ensures forall i :: TrimOffset(s) + |r| <= i < |s| ==> IsWhitespace(s[i])
  {
    TrimTail(s);
    TrimEnd(TrimStart(s))
  }

  /** What `Trim` drops at the end is whitespace. */
  lemma TrimTail(s: string)
    ensures forall i :: TrimOffset(s) + |TrimEnd(TrimStart(s))| <= i < |s| ==> IsWhitespace(s[i])
  {
    var t := TrimStart(s);
    TailBlank(s, t, TrimEnd(t));
  }

  /** Whitespace at the end of a suffix `t` of `s` is whitespace of `s`. */
  lemma TailBlank(s: string, t: string, r: string)
    requires |t| <= |s| && t == s[|s| - |t|..] && |r| <= |t|
    requires forall i :: |r| <= i < |t| ==> IsWhitespace(t[i])
    ensures forall i :: |s| - |t| + |r| <= i < |s| ==> IsWhitespace(s[i])
  {
    var k := |s| - |t|;
    forall i | k + |r| <= i < |s| ensures IsWhitespace(s[i]) {
      assert s[i] == t[i - k];
    }
  }

  /** Number of characters `Trim` drops from the front. */
  function TrimOffset(s: string): nat {
    |s| - |TrimStart(s)|
  }

  /** Trimming is the identity exactly on trimmed strings. */
  lemma TrimFixedPoint(s: string)
    ensures Trim(s) == s <==> IsTrimmed(s)
  {
    if IsTrimmed(s) {
      assert TrimStart(s) == s;
      assert TrimEnd(s) == s;
    }
  }

  /** Trimming twice is trimming once. */
  lemma TrimIdempotent(s: string)
    ensures Trim(Trim(s)) == Trim(s)
  {
    TrimFixedPoint(Trim(s));
  }

  /** A character absent from `s` is absent from its trimmed form. */
  lemma TrimKeepsAbsent(s: string, c: char)
    requires c !in s
    ensures c !in Trim(s)
  {
    var r, k := Trim(s), TrimOffset(s);
    SliceAbsent(s, k, k + |r|, c);
  }

  lemma SliceAbsent(s: string, i: nat, j: nat, c: char)
    requires i <= j <= |s| && c !in s
    ensures c !in s[i..j]
  {
    var t := s[i..j];
    forall n | 0 <= n < |t| ensures t[n] != c {
      assert t[n] == s[i + n];
    }
  }

  /** Every piece trimmed. */
  function TrimAll(parts: seq<string>): (r: seq<string>)
    ensures |r| == |parts|
    ensures forall i :: 0 <= i < |r| ==> r[i] == Trim(parts[i])
  {
    if |parts| == 0 then [] else [Trim(parts[0])] + TrimAll(parts[1..])
  }

  /** Trimming already-trimmed pieces changes none of them. */
  lemma TrimAllFixed(parts: seq<string>)
    requires forall i :: 0 <= i < |parts| ==> IsTrimmed(parts[i])
    ensures TrimAll(parts) == parts
  {
    forall i | 0 <= i < |parts| ensures TrimAll(parts)[i] == parts[i] {
      TrimFixedPoint(parts[i]);
    }
  }

  /** Every occurrence of `c` dropped: the other characters, each as often
      as it occurs and in their order. */
  function RemoveChar(s: string, c: char): (r: string)
    ensures c !in r
    ensures forall i :: 0 <= i < |s| && s[i] != c ==> s[i] in r
    ensures forall i :: 0 <= i < |r| ==> r[i] in s
    ensures Seqs.IsSubseq(r, s)
    ensures forall x :: multiset(r)[x] == (if x == c then 0 else multiset(s)[x])
  {
    if |s| == 0 then ""
    else
      assert s == [s[0]] + s[1..];
      var rest := RemoveChar(s[1..], c);
      if s[0] == c then
        rest
      else
        assert ([s[0]] + rest)[1..] == rest;
        [s[0]] + rest
  }

  /** A quote-free string loses nothing to `RemoveChar`. */
  lemma {:induction false} RemoveCharAbsent(s: string, c: char)
    requires c !in s
    ensures RemoveChar(s, c) == s
  {
    if |s| > 0 {
      RemoveCharAbsent(s[1..], c);
      assert s == [s[0]] + s[1..];
    }
  }

  // The text that survives whitespace edits

  /** The non-whitespace characters of `s`, in order: what an edit that
      only removes whitespace must keep. */
  function NonWs(s: string): string {
    if |s| == 0 then ""
    else (if IsWhitespace(s[0]) then "" else [s[0]]) + NonWs(s[1..])
  }

  lemma NonWsCons(c: char, t: string)
    ensures NonWs([c] + t) == (if IsWhitespace(c) then "" else [c]) + NonWs(t)
  {
    assert ([c] + t)[1..] == t;
  }

  lemma {:induction false} NonWsConcat(a: string, b: string)
    ensures NonWs(a + b) == NonWs(a) + NonWs(b)
  {
    if |a| > 0 {
      var c, t := a[0], a[1..];
      var head := if IsWhitespace(c) then "" else [c];
      NonWsConcat(t, b);
      assert a + b == [c] + (t + b);
      assert a == [c] + t;
      NonWsCons(c, t + b);
      NonWsCons(c, t);
      assert head + (NonWs(t) + NonWs(b)) == (head + NonWs(t)) + NonWs(b);
    } else {
      assert a + b == b;
    }
  }

  lemma {:induction false} NonWsBlank(s: string)
    requires IsBlank(s)
    ensures NonWs(s) == ""
  {
    if |s| > 0 {
      NonWsBlank(s[1..]);
    }
  }

  /** Gluing with whitespace keeps just the two sides' text. */
  lemma NonWsGlue(x: string, sep: string, y: string)
    requires IsBlank(sep)
    ensures NonWs(x + sep + y) == NonWs(x) + NonWs(y)
  {
    var head := x + sep;
    NonWsBlank(sep);
    NonWsConcat(x, sep);
    assert NonWs(head) == NonWs(x) + "";
    NonWsConcat(head, y);
  }

  /** Trimming removes only whitespace. */
  lemma NonWsTrim(s: string)
    ensures NonWs(Trim(s)) == NonWs(s)
  {
    var r, k := Trim(s), TrimOffset(s);
    TrimEndsBlank(s);
    SliceThree(s, k, k + |r|);
    NonWsBetween(s[..k], s[k..k + |r|], s[k + |r|..]);
  }

  lemma TrimEndsBlank(s: string)
    ensures IsBlank(s[..TrimOffset(s)]) && IsBlank(s[TrimOffset(s) + |Trim(s)|..])
  {
    var r, k := Trim(s), TrimOffset(s);
    var front, back := s[..k], s[k + |r|..];
    forall i | 0 <= i < |front| ensures IsWhitespace(front[i]) {
      assert front[i] == s[i];
    }
    forall i | 0 <= i < |back| ensures IsWhitespace(back[i]) {
      assert back[i] == s[k + |r| + i];
    }
  }

  lemma SliceThree(s: string, i: nat, j: nat)
    requires i <= j <= |s|
    ensures s == s[..i] + s[i..j] + s[j..]
  {
  }

  /** Whitespace around a string adds no text. */
  lemma NonWsBetween(front: string, mid: string, back: string)
    requires IsBlank(front) && IsBlank(back)
    ensures NonWs(front + mid + back) == NonWs(mid)
  {
    var head := front + mid;
    NonWsBlank(front);
    NonWsBlank(back);
    NonWsConcat(front, mid);
    assert NonWs(head) == NonWs(mid);
    NonWsConcat(head, back);
    assert NonWs(head + back) == NonWs(head) + "";
  }

  /** Dropping one whitespace character everywhere removes only whitespace. */
  lemma {:induction false} NonWsRemove(s: string, c: char)
    requires IsWhitespace(c)
    ensures NonWs(RemoveChar(s, c)) == NonWs(s)
  {
    if |s| > 0 {
      NonWsRemove(s[1..], c);
      var rest := RemoveChar(s[1..], c);
      if s[0] != c {
        NonWsCons(s[0], rest);
      }
    }
  }

  /** Trimming every piece of a whitespace-joined list removes only whitespace. */
  lemma {:induction false} NonWsJoinTrim(parts: seq<string>, sep: string)
    requires IsBlank(sep)
    ensures NonWs(Join(TrimAll(parts), sep)) == NonWs(Join(parts, sep))
  {
    if |parts| == 1 {
      NonWsTrim(parts[0]);
    } else if |parts| > 1 {
      var trimmed := TrimAll(parts);
      assert trimmed[1..] == TrimAll(parts[1..]);
      NonWsJoinTrim(parts[1..], sep);
      NonWsGlue(trimmed[0], sep, Join(trimmed[1..], sep));
      NonWsGlue(parts[0], sep, Join(parts[1..], sep));
      NonWsTrim(parts[0]);
    }
  }

  // Words

  /** How many non-whitespace characters `s` starts with. */
  function WordLength(s: string): (n: nat)
    ensures n <= |s|
    ensures forall i :: 0 <= i < n ==> !IsWhitespace(s[i])
    ensures n < |s| ==> IsWhitespace(s[n])
  {
    if |s| == 0 || IsWhitespace(s[0]) then 0 else 1 + WordLength(s[1..])
  }

  /** The words of `s`: its maximal runs of non-whitespace characters, in
      order, which is what splitting at whitespace and dropping the empty
      pieces gives. Two texts with the same words differ only in how much
      whitespace separates them, never in where it does. */
  function Words(s: string): seq<string>
    decreases |s|
  {
    if |s| == 0 then []
    else if IsWhitespace(s[0]) then Words(s[1..])
    else
      var n := WordLength(s);
      [s[..n]] + Words(s[n..])
  }

  /** A word ends where whitespace follows it. */
  lemma {:induction false} WordLengthStop(x: string, z: string)
    requires |z| == 0 || IsWhitespace(z[0])
    ensures WordLength(x + z) == WordLength(x)
  {
    if |x| == 0 {
      assert x + z == z;
    } else if !IsWhitespace(x[0]) {
      assert (x + z)[1..] == x[1..] + z;
      WordLengthStop(x[1..], z);
    }
  }

  /** Whitespace separates: the words on either side of it stay apart. */
  lemma {:induction false} WordsSplitAt(x: string, w: char, y: string)
    requires IsWhitespace(w)
    ensures Words(x + [w] + y) == Words(x) + Words(y)
    decreases |x|
  {
    var s := x + [w] + y;
    if |x| == 0 {
      assert s[1..] == y;
    } else if IsWhitespace(x[0]) {
      assert s[1..] == x[1..] + [w] + y;
      WordsSplitAt(x[1..], w, y);
    } else {
      var n := WordLength(x);
      WordLengthStop(x, [w] + y);
      assert s == x + ([w] + y);
      assert s[..n] == x[..n];
      assert s[n..] == x[n..] + [w] + y;
      WordsSplitAt(x[n..], w, y);
    }
  }

  /** The words of a text that starts with one more character. */
  lemma WordsCons(c: char, t: string)
    ensures IsWhitespace(c) ==> Words([c] + t) == Words(t)
    ensures !IsWhitespace(c) && (|t| == 0 || IsWhitespace(t[0])) ==> Words([c] + t) == [[c]] + Words(t)
    ensures !IsWhitespace(c) && |t| > 0 && !IsWhitespace(t[0]) ==>
      |Words(t)| > 0 && Words([c] + t) == [[c] + Words(t)[0]] + Words(t)[1..]
  {
    var s := [c] + t;
    assert s[1..] == t;
    if !IsWhitespace(c) {
      var m := WordLength(t);
      assert s[1 + m..] == t[m..];
      assert s[..1 + m] == [c] + t[..m];
    }
  }

  /** The words of a non-empty `s` depend on its tail only through the
      tail's words and first character. */
  lemma WordsCongruent(s: string, u: string)
    requires |s| > 0 && Words(s[1..]) == Words(u)
    requires |s| == 1 <==> |u| == 0
    requires |u| > 0 ==> s[1] == u[0]
    ensures Words(s) == Words([s[0]] + u)
  {
    WordsCons(s[0], s[1..]);
    WordsCons(s[0], u);
    assert s == [s[0]] + s[1..];
  }

  lemma {:induction false} WordsBlank(s: string)
    requires IsBlank(s)
    ensures Words(s) == []
  {
    if |s| > 0 {
      WordsBlank(s[1..]);
    }
  }

  /** Whitespace around a text adds no words. */
  lemma WordsBetween(front: string, mid: string, back: string)
    requires IsBlank(front) && IsBlank(back)
    ensures Words(front + mid + back) == Words(mid)
  {
    var body := mid + back;
    WordsBlankAfter(mid, back);
    WordsBlankBefore(front, body);
    assert front + mid + back == front + body;
  }

  lemma WordsBlankAfter(mid: string, back: string)
    requires IsBlank(back)
    ensures Words(mid + back) == Words(mid)
  {
    if |back| > 0 {
      var rest := back[1..];
      WordsSplitAt(mid, back[0], rest);
      assert mid + back == mid + [back[0]] + rest;
      WordsBlank(rest);
      assert Words(mid) + Words(rest) == Words(mid);
    } else {
      assert mid + back == mid;
    }
  }

  lemma WordsBlankBefore(front: string, body: string)
    requires IsBlank(front)
    ensures Words(front + body) == Words(body)
  {
    if |front| > 0 {
      var k := |front| - 1;
      var lead := front[..k];
      WordsSplitAt(lead, front[k], body);
      assert front + body == lead + [front[k]] + body;
      WordsBlank(lead);
      assert Words(lead) + Words(body) == Words(body);
    } else {
      assert front + body == body;
    }
  }

  /** Trimming keeps the words. */
  lemma WordsTrim(s: string)
    ensures Words(Trim(s)) == Words(s)
  {
    var r, k := Trim(s), TrimOffset(s);
    TrimEndsBlank(s);
    SliceThree(s, k, k + |r|);
    WordsBetween(s[..k], s[k..k + |r|], s[k + |r|..]);
  }

  /** Trimming every piece of a list joined by a whitespace character keeps
      the words. */
  lemma {:induction false} WordsJoinTrim(parts: seq<string>, sep: char)
    requires IsWhitespace(sep)
    ensures Words(Join(TrimAll(parts), [sep])) == Words(Join(parts, [sep]))
  {
    if |parts| == 1 {
      WordsTrim(parts[0]);
    } else if |parts| > 1 {
      var trimmed := TrimAll(parts);
      assert trimmed[1..] == TrimAll(parts[1..]);
      WordsJoinTrim(parts[1..], sep);
      WordsSplitAt(trimmed[0], sep, Join(trimmed[1..], [sep]));
      WordsSplitAt(parts[0], sep, Join(parts[1..], [sep]));
      WordsTrim(parts[0]);
    }
  }

  /** `s.startsWith(p)`. */
  predicate StartsWith(s: string, p: string) {
    |p| <= |s| && s[..|p|] == p
  }

  /** Number of occurrences of `c` in `s`. */
  function Count(s: string, c: char): nat {
    if |s| == 0 then 0 else (if s[0] == c then 1 else 0) + Count(s[1..], c)
  }

  /** `s.split(sep)` for a one-character separator: the maximal
      separator-free pieces, one more than there are separators. */
  function Split(s: string, sep: char): (r: seq<string>)
    ensures |r| == Count(s, sep) + 1
    ensures forall i :: 0 <= i < |r| ==> sep !in r[i]
  {
    if |s| == 0 then [""]
    else
      var rest := Split(s[1..], sep);
      if s[0] == sep then [""] + rest
      else [[s[0]] + rest[0]] + rest[1..]
  }

  /** `parts.join(sep)`; the empty list joins to the empty string. */
  function Join(parts: seq<string>, sep: string): string {
    if |parts| == 0 then ""
    else if |parts| == 1 then parts[0]
    else parts[0] + sep + Join(parts[1..], sep)
  }

  /** Joining the pieces of a split with the same separator gives back the input. */
  lemma {:induction false} JoinSplit(s: string, sep: char)
    ensures Join(Split(s, sep), [sep]) == s
  {
    if |s| > 0 {
      var rest := Split(s[1..], sep);
      JoinSplit(s[1..], sep);
      if s[0] == sep {
        assert Split(s, sep) == [""] + rest;
        assert ([""] + rest)[1..] == rest;
        assert s == [sep] + s[1..];
      } else if |rest| == 1 {
        assert s == [s[0]] + s[1..];
      } else {
        var parts := Split(s, sep);
        assert parts[1..] == rest[1..];
        assert Join(rest, [sep]) == rest[0] + [sep] + Join(rest[1..], [sep]);
        assert s == [s[0]] + s[1..];
      }
    }
  }

  /** Splitting a string whose first piece is the separator-free `a`. */
  lemma {:induction false} SplitPrefix(a: string, t: string, sep: char)
    requires sep !in a
    ensures Split(a + t, sep) == [a + Split(t, sep)[0]] + Split(t, sep)[1..]
  {
    if |a| > 0 {
      SplitPrefix(a[1..], t, sep);
      assert (a + t)[1..] == a[1..] + t;
      assert [a[0]] + (a[1..] + Split(t, sep)[0]) == a + Split(t, sep)[0];
    } else {
      var parts := Split(t, sep);
      assert a + t == t;
      assert a + parts[0] == parts[0];
      assert parts == [parts[0]] + parts[1..];
    }
  }

  /** Splitting a join of separator-free pieces gives back the pieces. */
  lemma {:induction false} SplitJoin(parts: seq<string>, sep: char)
    requires |parts| >= 1
    requires forall i :: 0 <= i < |parts| ==> sep !in parts[i]
    ensures Split(Join(parts, [sep]), sep) == parts
  {
    if |parts| == 1 {
      SplitPrefix(parts[0], "", sep);
      assert parts[0] + "" == parts[0];
    } else {
      var tail := Join(parts[1..], [sep]);
      SplitJoin(parts[1..], sep);
      assert Join(parts, [sep]) == parts[0] + ([sep] + tail);
      SplitPrefix(parts[0], [sep] + tail, sep);
      assert ([sep] + tail)[1..] == tail;
      assert parts[0] + "" == parts[0];
      assert parts == [parts[0]] + parts[1..];
    }
  }

  predicate IsDigit(c: char) {
    '0' <= c <= '9'
  }

  function DigitValue(c: char): nat
    requires IsDigit(c)
  {
    c as int - '0' as int
  }

  function DigitChar(d: nat): (c: char)
    requires d < 10
    ensures IsDigit(c) && DigitValue(c) == d
  {
    ('0' as int + d) as char
  }

  predicate AllDigits(s: string) {
    forall i :: 0 <= i < |s| ==> IsDigit(s[i])
  }

  /** `n.toString()` for a non-negative integer: its decimal digits. */
  function NatToString(n: nat): (r: string)
    ensures |r| >= 1 && AllDigits(r)
  {
    if n < 10 then [DigitChar(n)] else NatToString(n / 10) + [DigitChar(n % 10)]
  }

  /** The value of a string of decimal digits, most significant first. */
  function DigitsValue(s: string): nat
    requires AllDigits(s)
  {
    if |s| == 0 then 0 else DigitsValue(s[..|s| - 1]) * 10 + DigitValue(s[|s| - 1])
  }

  /** Number of decimal digits `s` starts with. */
  function DigitPrefix(s: string): (k: nat)
    ensures k <= |s| && AllDigits(s[..k])
    ensures k < |s| ==> !IsDigit(s[k])
  {
    if |s| > 0 && IsDigit(s[0]) then
      var k := 1 + DigitPrefix(s[1..]);
      assert s[..k] == [s[0]] + s[1..][..k - 1];
      k
    else 0
  }

  /** `parseInt(s, 10)`: leading whitespace skipped, an optional sign, then the
      longest run of decimal digits; `None` stands for `NaN` (no digit). */
  function ParseInt(s: string): Option<int>
  {
    var u := Unsigned(TrimStart(s));
    var k := DigitPrefix(u);
    if k == 0 then None
    else
      var v: int := DigitsValue(u[..k]);
      Some(if |TrimStart(s)| > 0 && TrimStart(s)[0] == '-' then -v else v)
  }

  /** What follows an optional leading sign. */
  function Unsigned(t: string): string {
    if |t| > 0 && (t[0] == '-' || t[0] == '+') then t[1..] else t
  }

  /** Decimal rendering and parsing are inverse: the digits of `n` read back as `n`. */
  lemma {:induction false} DigitsRoundTrip(n: nat)
    ensures DigitsValue(NatToString(n)) == n
  {
    if n >= 10 {
      DigitsRoundTrip(n / 10);
      var s := NatToString(n);
      assert s[..|s| - 1] == NatToString(n / 10);
    }
  }

  /** `parseInt(String(n), 10) == n` for every non-negative integer `n`. */
  lemma ParseIntRoundTrip(n: nat)
    ensures ParseInt(NatToString(n)) == Some(n)
  {
    var s := NatToString(n);
    assert !IsWhitespace(s[0]);
    assert TrimStart(s) == s;
    assert Unsigned(s) == s;
    DigitPrefixAll(s);
    assert s[..|s|] == s;
    DigitsRoundTrip(n);
  }

  /** A string of digits is all digit prefix. */
  lemma {:induction false} DigitPrefixAll(s: string)
    requires AllDigits(s)
    ensures DigitPrefix(s) == |s|
  {
    if |s| > 0 {
      DigitPrefixAll(s[1..]);
    }
  }

  /** Pieces of a split never contain the separator, so neither does their trim. */
  lemma SplitPiecesTrimmedFree(s: string, sep: char, i: nat)
    requires i < |Split(s, sep)|
    ensures sep !in Trim(Split(s, sep)[i])
  {
    TrimKeepsAbsent(Split(s, sep)[i], sep);
  }
}
