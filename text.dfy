/**
 * The .NET string operations the core relies on: `char.IsWhiteSpace`,
 * `String.Trim`, `String.StartsWith`, `String.Split(char)`, `String.Join("", ..)`
 * and the line splitting of `File.ReadAllLines`.
 */
module Text {

  /** `char.IsWhiteSpace`: the characters with the Unicode White_Space property. */
  predicate IsWhiteSpace(c: char)
  {
    || ('\U{0009}' <= c <= '\U{000D}')
    || c == '\U{0020}' || c == '\U{0085}' || c == '\U{00A0}' || c == '\U{1680}'
    || ('\U{2000}' <= c <= '\U{200A}')
    || c == '\U{2028}' || c == '\U{2029}' || c == '\U{202F}' || c == '\U{205F}' || c == '\U{3000}'
  }

  /** No leading and no trailing white space. */
  predicate IsTrimmed(s: string)
  {
    s == [] || (!IsWhiteSpace(s[0]) && !IsWhiteSpace(s[|s| - 1]))
  }

  function TrimStart(s: string): (r: string)
    ensures |r| <= |s| && r == s[|s| - |r|..]
    ensures r == [] || !IsWhiteSpace(r[0])
  {
    if |s| > 0 && IsWhiteSpace(s[0]) then TrimStart(s[1..]) else s
  }

  function TrimEnd(s: string): (r: string)
    ensures |r| <= |s| && r == s[..|r|]
    ensures r == [] || !IsWhiteSpace(r[|r| - 1])
  {
    if |s| > 0 && IsWhiteSpace(s[|s| - 1]) then TrimEnd(s[..|s| - 1]) else s
  }

  /** `TrimStart` removes white space only. */
  lemma {:induction false} TrimStartRemovesWhiteSpace(s: string)
    ensures forall k :: 0 <= k < |s| - |TrimStart(s)| ==> IsWhiteSpace(s[k])
    decreases |s|
  {
    if |s| > 0 && IsWhiteSpace(s[0]) {
      TrimStartRemovesWhiteSpace(s[1..]);
      forall k | 1 <= k < |s| - |TrimStart(s)| ensures IsWhiteSpace(s[k]) {
        assert s[k] == s[1..][k - 1];
      }
    }
  }

  /** `TrimEnd` removes white space only. */
  lemma {:induction false} TrimEndRemovesWhiteSpace(s: string)
    ensures forall k :: |TrimEnd(s)| <= k < |s| ==> IsWhiteSpace(s[k])
    decreases |s|
  {
    if |s| > 0 && IsWhiteSpace(s[|s| - 1]) {
      TrimEndRemovesWhiteSpace(s[..|s| - 1]);
      forall k | |TrimEnd(s)| <= k < |s| - 1 ensures IsWhiteSpace(s[k]) {
        assert s[k] == s[..|s| - 1][k];
      }
    }
  }

  /** `String.Trim()`: the longest middle part of `s` that neither starts nor ends
      with white space, obtained by removing only white space from both ends. */
  function Trim(s: string): (r: string)
    ensures IsTrimmed(r)
  {
    TrimEnd(TrimStart(s))
  }

  /** Every character is white space. */
  predicate AllWhiteSpace(s: string)
  {
    forall k :: 0 <= k < |s| ==> IsWhiteSpace(s[k])
  }

  /** What `Trim` keeps is a contiguous part of its input, and all it removes
      from either end is white space. */
  lemma TrimIsSlice(s: string)
    ensures exists i, j :: 0 <= i <= j <= |s| && Trim(s) == s[i..j] && AllWhiteSpace(s[..i]) && AllWhiteSpace(s[j..])
  {
    var t := TrimStart(s);
    var i := |s| - |t|;
    var j := i + |TrimEnd(t)|;
    assert Trim(s) == s[i..j];
    LeadingWhiteSpace(s);
    TrailingWhiteSpace(s, t);
  }

  /** What `TrimStart` drops is white space. */
  lemma LeadingWhiteSpace(s: string)
    ensures AllWhiteSpace(s[..|s| - |TrimStart(s)|])
  {
    TrimStartRemovesWhiteSpace(s);
    var p := s[..|s| - |TrimStart(s)|];
    forall k | 0 <= k < |p| ensures IsWhiteSpace(p[k]) {
      assert p[k] == s[k];
    }
  }

  /** What `TrimEnd` drops is white space. */
  lemma TrimEndSuffix(t: string)
    ensures AllWhiteSpace(t[|TrimEnd(t)|..])
  {
    TrimEndRemovesWhiteSpace(t);
    var n := |TrimEnd(t)|;
    forall k | 0 <= k < |t| - n ensures IsWhiteSpace(t[n..][k]) {
      assert t[n..][k] == t[n + k];
    }
  }

  /** What `TrimEnd` then drops from the suffix `t` of `s` is white space. */
  lemma TrailingWhiteSpace(s: string, t: string)
    requires |t| <= |s| && t == s[|s| - |t|..]
    ensures AllWhiteSpace(s[|s| - |t| + |TrimEnd(t)|..])
  {
    var i, n := |s| - |t|, |TrimEnd(t)|;
    assert s[i + n..] == t[n..];
    TrimEndSuffix(t);
  }




  /** Trimming adds no character: one absent from the input is absent from the result. */
  lemma TrimExcludes(s: string, c: char)
    requires c !in s
    ensures c !in Trim(s)
  {
    var t := TrimStart(s);
    assert forall x :: x in t ==> x in s;
    assert forall x :: x in TrimEnd(t) ==> x in t;
  }

  /** Trimming a string that is already trimmed changes nothing. */
  lemma TrimOfTrimmed(s: string)
    requires IsTrimmed(s)
    ensures Trim(s) == s
  {
  }

  /** `Trim` yields the empty string exactly for blank (all white space) strings. */
  lemma TrimEmptyIffBlank(s: string)
    ensures Trim(s) == [] <==> AllWhiteSpace(s)
  {
    if Trim(s) == [] {
      var t := TrimStart(s);
      TrimStartRemovesWhiteSpace(s);
      TrimEndRemovesWhiteSpace(t);
      assert TrimEnd(t) == [];
      assert t == [];
    } else {
      var r := Trim(s);
      TrimIsSlice(s);
      var i, j :| 0 <= i <= j <= |s| && r == s[i..j];
      assert s[i] == r[0] && !IsWhiteSpace(r[0]);
    }
  }

  /** `String.StartsWith(prefix)`, compared ordinally. */
  predicate StartsWith(s: string, prefix: string)
  {
    |prefix| <= |s| && s[..|prefix|] == prefix
  }

  /** `String.Split(sep)`: the pieces between occurrences of `sep`, empty pieces
      included, so `n` separators give `n + 1` pieces. */
  function Split(s: string, sep: char): (r: seq<string>)
    ensures |r| >= 1
    ensures forall k :: 0 <= k < |r| ==> sep !in r[k]
  {
    if s == [] then [[]]
    else if s[0] == sep then [[]] + Split(s[1..], sep)
    else
      var t := Split(s[1..], sep);
      [[s[0]] + t[0]] + t[1..]
  }

  /** `String.Join(sep, parts)`. */
  function Join(parts: seq<string>, sep: string): string
  {
    if parts == [] then []
    else if |parts| == 1 then parts[0]
    else parts[0] + sep + Join(parts[1..], sep)
  }

  /** `String.Join("", parts)`: plain concatenation. */
  function Concat(parts: seq<string>): string
  {
    if parts == [] then [] else parts[0] + Concat(parts[1..])
  }

  /** A character absent from every part is absent from their concatenation. */
  lemma {:induction false} ConcatExcludes(parts: seq<string>, c: char)
    requires forall k :: 0 <= k < |parts| ==> c !in parts[k]
    ensures c !in Concat(parts)
    decreases |parts|
  {
    if parts != [] {
      ConcatExcludes(parts[1..], c);
    }
  }

  /** Joining the pieces of a split with the separator gives back the string. */
  lemma {:induction false} JoinSplit(s: string, sep: char)
    ensures Join(Split(s, sep), [sep]) == s
  {
    if s == [] {
    } else if s[0] == sep {
      var t := Split(s[1..], sep);
      JoinSplit(s[1..], sep);
      assert Split(s, sep) == [[]] + t;
      assert Join([[]] + t, [sep]) == [] + [sep] + Join(t, [sep]);
      assert s == [s[0]] + s[1..];
    } else {
      var t := Split(s[1..], sep);
      assert Split(s, sep) == [[s[0]] + t[0]] + t[1..];
      JoinExtendFirst(s[0], t, [sep]);
      JoinSplit(s[1..], sep);
      assert s == [s[0]] + s[1..];
    }
  }

  /** Putting a character in front of the first part puts it in front of the join. */
  lemma JoinExtendFirst(c: char, parts: seq<string>, sep: string)
    requires |parts| >= 1
    ensures Join([[c] + parts[0]] + parts[1..], sep) == [c] + Join(parts, sep)
  {
    var r := [[c] + parts[0]] + parts[1..];
    if |parts| > 1 {
      assert r[1..] == parts[1..];
    }
  }

  /** A piece free of the separator, followed by the separator, splits off as one piece. */
  lemma {:induction false} SplitPiece(a: string, sep: char, rest: string)
    requires sep !in a
    ensures Split(a + [sep] + rest, sep) == [a] + Split(rest, sep)
  {
    if a == [] {
      assert a + [sep] + rest == [sep] + rest;
      assert ([sep] + rest)[1..] == rest;
    } else {
      var s := a + [sep] + rest;
      assert s[0] == a[0] && s[1..] == a[1..] + [sep] + rest;
      SplitPiece(a[1..], sep, rest);
      assert [a[0]] + a[1..] == a;
    }
  }

  /** A string free of the separator is one piece. */
  lemma {:induction false} SplitWhole(a: string, sep: char)
    requires sep !in a
    ensures Split(a, sep) == [a]
  {
    if a != [] {
      SplitWhole(a[1..], sep);
      assert [a[0]] + a[1..] == a;
    }
  }

  /** Splitting a join of separator-free pieces gives back the pieces. */
  lemma {:induction false} SplitJoin(parts: seq<string>, sep: char)
    requires |parts| >= 1
    requires forall k :: 0 <= k < |parts| ==> sep !in parts[k]
    ensures Split(Join(parts, [sep]), sep) == parts
  {
    if |parts| == 1 {
      SplitWhole(parts[0], sep);
    } else {
      SplitJoin(parts[1..], sep);
      SplitPiece(parts[0], sep, Join(parts[1..], [sep]));
      assert [parts[0]] + parts[1..] == parts;
    }
  }

  // ---------------------------------------------------------------------------
  // Lines of a text file, as `File.ReadAllLines` returns them

  /** The line terminators `StreamReader.ReadLine` recognises: "\n", "\r" and "\r\n". */
  predicate IsLineBreak(c: char)
  {
    c == '\n' || c == '\r'
  }

  /** Index of the first line-break character of `s`, or `|s|` if there is none. */
  function LineEnd(s: string): (r: nat)
    ensures r <= |s|
    ensures forall k :: 0 <= k < r ==> !IsLineBreak(s[k])
    ensures r < |s| ==> IsLineBreak(s[r])
  {
    if s == [] || IsLineBreak(s[0]) then 0 else 1 + LineEnd(s[1..])
  }

  /** Length of the terminator that starts at index `i`: 2 for "\r\n", else 1. */
  function TerminatorLength(s: string, i: nat): nat
    requires i < |s|
  {
    if s[i] == '\r' && i + 1 < |s| && s[i + 1] == '\n' then 2 else 1
  }

  /** `File.ReadAllLines` applied to a file whose content is `s`: one entry per
      line, without its terminator; a final terminator does not open an extra
      empty line, and a last line without terminator still counts. */
  function ReadAllLines(s: string): (r: seq<string>)
    ensures forall k, i :: 0 <= k < |r| && 0 <= i < |r[k]| ==> !IsLineBreak(r[k][i])
    decreases |s|
  {
    if s == [] then []
    else
      var i := LineEnd(s);
      if i == |s| then [s]
      else
        [s[..i]] + ReadAllLines(s[i + TerminatorLength(s, i)..])
  }

  /** "\r\n" ends a line as one terminator: it opens no empty line of its own. */
  lemma ReadAllLinesCrLf(a: string, rest: string)
    requires forall c :: c in a ==> !IsLineBreak(c)
    ensures ReadAllLines(a + "\r\n" + rest) == [a] + ReadAllLines(rest)
  {
    var u := a + "\r\n" + rest;
    assert u == a + ("\r\n" + rest);
    LineEndNoBreak(a, "\r\n" + rest);
    assert u[|a|] == '\r' && u[|a| + 1] == '\n';
    assert TerminatorLength(u, |a|) == 2;
    ReadAllLinesUnfold(u);
    assert u[..|a|] == a && u[|a| + 2..] == rest;
  }

  /** Why `ReadAllLinesAppend` asks for a non-empty line: after a text ending in
      "\r", an empty line and its "\n" only complete a "\r\n" terminator, and
      no line is added. */
  lemma EmptyLineAfterCarriageReturn(a: string)
    requires forall c :: c in a ==> !IsLineBreak(c)
    ensures EndsWithLineBreak(a + "\r")
    ensures ReadAllLines(a + "\r" + [] + "\n") == [a]
    ensures ReadAllLines(a + "\r") == [a]
  {
    ReadAllLinesCrLf(a, []);
    assert a + "\r" + [] + "\n" == a + "\r\n" + [];
    var s := a + "\r";
    LineEndNoBreak(a, "\r");
    assert s[|a|] == '\r' && TerminatorLength(s, |a|) == 1;
    ReadAllLinesUnfold(s);
    assert s[..|a|] == a && s[|a| + 1..] == [];
  }

  /** The content is empty or ends with a line terminator, so that what is
      appended next starts a new line. */
  predicate EndsWithLineBreak(s: string)
  {
    s == [] || IsLineBreak(s[|s| - 1])
  }

  /** `LineEnd` only looks up to the first line break. */
  lemma {:induction false} LineEndOfPrefix(s: string, t: string)
    requires LineEnd(s) < |s|
    ensures LineEnd(s + t) == LineEnd(s)
  {
    if !IsLineBreak(s[0]) {
      assert (s + t)[1..] == s[1..] + t;
      LineEndOfPrefix(s[1..], t);
    }
  }

  /** One step of `ReadAllLines` on content whose first line is terminated. */
  lemma {:induction false} ReadAllLinesUnfold(s: string)
    requires LineEnd(s) < |s|
    ensures ReadAllLines(s) == [s[..LineEnd(s)]] + ReadAllLines(s[LineEnd(s) + TerminatorLength(s, LineEnd(s))..])
  {
    assert s != [] && LineEnd(s) != |s|;
  }

  /** Appending text after a terminated first line leaves that line and its
      terminator as they were. */
  lemma {:induction false} FirstLineKept(s: string, tail: string, u: string)
    requires LineEnd(s) < |s|
    requires tail != [] ==> !IsLineBreak(tail[0])
    requires u == s + tail
    ensures LineEnd(u) == LineEnd(s)
    ensures TerminatorLength(u, LineEnd(s)) == TerminatorLength(s, LineEnd(s))
  {
    var i := LineEnd(s);
    LineEndOfPrefix(s, tail);
    if i + 1 == |s| && tail != [] {
      assert u[i + 1] == tail[0];
    } else if i + 1 < |s| {
      assert u[i + 1] == s[i + 1];
    }
  }

  /** A file holding one terminated line reads back as that line. */
  lemma {:induction false} ReadAllLinesSingle(line: string)
    requires forall c :: c in line ==> !IsLineBreak(c)
    ensures ReadAllLines(line + "\n") == [line]
  {
    var u := line + "\n";
    LineEndNoBreak(line, "\n");
    ReadAllLinesUnfold(u);
    assert u[..|line|] == line;
    assert u[|line| + 1..] == [];
  }

  /** Appending a line (non-empty, without line breaks) and a "\n" to a file
      that is empty or ends with a terminator adds exactly that line to what
      `ReadAllLines` returns. The line must be non-empty: see
      `EmptyLineAfterCarriageReturn`. */
  lemma {:induction false} ReadAllLinesAppend(s: string, line: string)
    requires EndsWithLineBreak(s)
    requires line != [] && forall c :: c in line ==> !IsLineBreak(c)
    ensures ReadAllLines(s + line + "\n") == ReadAllLines(s) + [line]
    decreases |s|
  {
    var u := s + line + "\n";
    if s == [] {
      assert u == line + "\n";
      ReadAllLinesSingle(line);
    } else {
      assert line[0] in line;
      var i := LineEnd(s);
      assert IsLineBreak(s[|s| - 1]);
      assert i < |s|;
      var t := TerminatorLength(s, i);
      var rest := s[i + t..];
      FirstLineKept(s, line + "\n", u);
      AppendLineSlices(s, line, i, i + t);
      EndsWithLineBreakSuffix(s, i + t);
      calc {
        ReadAllLines(u);
        { ReadAllLinesUnfold(u); }
        [s[..i]] + ReadAllLines(rest + line + "\n");
        { ReadAllLinesAppend(rest, line); }
        [s[..i]] + (ReadAllLines(rest) + [line]);
        { ReadAllLinesUnfold(s); }
        ReadAllLines(s) + [line];
      }
    }
  }

  /** Slicing text with a terminated line appended: the part before `i` is
      untouched, and the part from `j` on gains the line. */
  lemma AppendLineSlices(s: string, line: string, i: nat, j: nat)
    requires i <= j <= |s|
    ensures (s + line + "\n")[..i] == s[..i]
    ensures (s + line + "\n")[j..] == s[j..] + line + "\n"
  {
  }

  /** A suffix of text ending with a terminator ends with one too (or is empty). */
  lemma EndsWithLineBreakSuffix(s: string, j: nat)
    requires EndsWithLineBreak(s) && j <= |s|
    ensures EndsWithLineBreak(s[j..])
  {
    if j < |s| {
      assert s[j..][|s| - j - 1] == s[|s| - 1];
    }
  }

  /** A break-free prefix puts the first break right after it. */
  lemma {:induction false} LineEndNoBreak(a: string, t: string)
    requires forall c :: c in a ==> !IsLineBreak(c)
    requires t != [] && IsLineBreak(t[0])
    ensures LineEnd(a + t) == |a|
  {
    if a == [] {
      assert a + t == t;
    } else {
      assert a[0] in a;
      assert (a + t)[1..] == a[1..] + t;
      forall c | c in a[1..] ensures !IsLineBreak(c) { assert c in a; }
      LineEndNoBreak(a[1..], t);
    }
  }
}
