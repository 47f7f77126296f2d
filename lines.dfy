/** The line filter both scripts apply to a page's text: split it into lines,
    strip each line, keep the lines that are non-empty and longer than minLen,
    and join them with "\n".
    `str.splitlines` and `str.strip` are modelled with Python's own sets of
    line boundaries and of whitespace characters. A Dafny `char` is a Unicode
    scalar value, so `|line|` counts code points, as Python's `len` does. */
module Lines {

  /** The characters at which Python's `str.splitlines` ends a line. */
  predicate IsLineBreak(c: char) {
    c == '\n' || c == '\r' || c == '\U{b}' || c == '\U{c}'
    || c == '\U{1c}' || c == '\U{1d}' || c == '\U{1e}'
    || c == '\U{85}' || c == '\U{2028}' || c == '\U{2029}'
  }

  /** The characters for which Python's `str.isspace` holds, which are the
      ones `str.strip()` removes. */
  predicate IsSpace(c: char) {
    ('\t' <= c <= '\r') || ('\U{1c}' <= c <= '\U{1f}') || c == ' '
    || c == '\U{85}' || c == '\U{a0}' || c == '\U{1680}'
    || ('\U{2000}' <= c <= '\U{200a}')
    || c == '\U{2028}' || c == '\U{2029}' || c == '\U{202f}'
    || c == '\U{205f}' || c == '\U{3000}'
  }

  predicate NoBreak(s: string) {
    forall k :: 0 <= k < |s| ==> !IsLineBreak(s[k])
  }

  /** A string `strip()` leaves unchanged. */
  predicate IsStripped(s: string) {
    s == [] || (!IsSpace(s[0]) && !IsSpace(s[|s| - 1]))
  }

  /** The position of the first line boundary, or |s| if there is none. */
  function FirstBreak(s: string): (i: nat)
    ensures i <= |s|
    ensures i < |s| ==> IsLineBreak(s[i])
    ensures forall k :: 0 <= k < i ==> !IsLineBreak(s[k])
  {
    if s == [] then 0
    else if IsLineBreak(s[0]) then 0
    else 1 + FirstBreak(s[1..])
  }

  /** Where the next line starts after the boundary at i: "\r\n" is one
      boundary. */
  function BreakEnd(s: string, i: nat): (j: nat)
    requires i < |s| && IsLineBreak(s[i])
    ensures i < j <= |s|
    ensures j == i + 2 <==> (s[i] == '\r' && i + 1 < |s| && s[i + 1] == '\n')
  {
    if s[i] == '\r' && i + 1 < |s| && s[i + 1] == '\n' then i + 2 else i + 1
  }

  /** Python's `str.splitlines()`: the pieces between boundaries, with no
      piece after a final boundary ("".splitlines() == [],
      "a\n".splitlines() == ["a"], "\n".splitlines() == [""]). */
  function SplitLines(s: string): (r: seq<string>)
    ensures forall i :: 0 <= i < |r| ==> NoBreak(r[i])
    ensures s == [] <==> r == []
    decreases |s|
  {
    if s == [] then []
    else
      var i := FirstBreak(s);
      if i == |s| then [s]
      else [s[..i]] + SplitLines(s[BreakEnd(s, i)..])
  }

  /** The pieces, concatenated. */
  function Concat(pieces: seq<string>): string
    decreases |pieces|
  {
    if pieces == [] then "" else pieces[0] + Concat(pieces[1..])
  }

  /** s with every line boundary character removed. */
  function DropBreaks(s: string): string
    decreases |s|
  {
    if s == [] then "" else (if IsLineBreak(s[0]) then "" else [s[0]]) + DropBreaks(s[1..])
  }

  lemma {:induction false} DropBreaksAppend(a: string, b: string)
    ensures DropBreaks(a + b) == DropBreaks(a) + DropBreaks(b)
    decreases |a|
  {
    if a == [] {
      assert a + b == b;
    } else {
      assert (a + b)[0] == a[0];
      assert (a + b)[1..] == a[1..] + b;
      DropBreaksAppend(a[1..], b);
    }
  }

  lemma {:induction false} DropBreaksNone(s: string)
    requires NoBreak(s)
    ensures DropBreaks(s) == s
    decreases |s|
  {
    if s != [] {
      assert !IsLineBreak(s[0]);
      assert NoBreak(s[1..]) by {
        assert forall k :: 0 <= k < |s| - 1 ==> s[1..][k] == s[k + 1];
      }
      DropBreaksNone(s[1..]);
      assert [s[0]] + s[1..] == s;
    }
  }

  lemma {:induction false} DropBreaksAll(s: string)
    requires forall k :: 0 <= k < |s| ==> IsLineBreak(s[k])
    ensures DropBreaks(s) == ""
    decreases |s|
  {
    if s != [] {
      assert IsLineBreak(s[0]);
      assert forall k :: 0 <= k < |s| - 1 ==> s[1..][k] == s[k + 1];
      DropBreaksAll(s[1..]);
    }
  }

  /** A first line, a boundary, and what follows: dropping the boundary
      characters keeps the first line and goes on with the rest. */
  lemma DropBreaksSplice(head: string, mid: string, rest: string)
    requires NoBreak(head)
    requires forall k :: 0 <= k < |mid| ==> IsLineBreak(mid[k])
    ensures DropBreaks(head + mid + rest) == head + DropBreaks(rest)
  {
    calc {
      DropBreaks(head + mid + rest);
      { DropBreaksAppend(head + mid, rest); }
      DropBreaks(head + mid) + DropBreaks(rest);
      { DropBreaksAppend(head, mid); }
      DropBreaks(head) + DropBreaks(mid) + DropBreaks(rest);
      { DropBreaksNone(head); DropBreaksAll(mid); }
      head + "" + DropBreaks(rest);
      { assert head + "" == head; }
      head + DropBreaks(rest);
    }
  }

  /** A boundary ("\r\n" or a single character) leaves nothing behind, so
      dropping the boundaries of s keeps its first line and continues after
      the boundary that ends it. */
  lemma DropBreaksAt(s: string, i: nat)
    requires i < |s| && IsLineBreak(s[i]) && NoBreak(s[..i])
    ensures DropBreaks(s) == s[..i] + DropBreaks(s[BreakEnd(s, i)..])
  {
    var j := BreakEnd(s, i);
    var head, mid, rest := s[..i], s[i..j], s[j..];
    assert forall k :: 0 <= k < |mid| ==> IsLineBreak(mid[k]) by {
      assert j == i + 2 ==> s[i + 1] == '\n';
    }
    assert s == head + mid + rest;
    DropBreaksSplice(head, mid, rest);
  }

  /** The pieces hold every character of s that is not a line boundary, in
      order, and nothing else. */
  lemma {:induction false} SplitLinesContent(s: string)
    ensures Concat(SplitLines(s)) == DropBreaks(s)
    decreases |s|
  {
    if s != [] {
      var i := FirstBreak(s);
      if i == |s| {
        assert NoBreak(s);
        DropBreaksNone(s);
        assert Concat([s]) == s + Concat([]);
      } else {
        var rest := s[BreakEnd(s, i)..];
        assert NoBreak(s[..i]);
        DropBreaksAt(s, i);
        SplitLinesContent(rest);
        var r := [s[..i]] + SplitLines(rest);
        assert SplitLines(s) == r;
        assert r[0] == s[..i] && r[1..] == SplitLines(rest);
      }
    }
  }

  /** When every boundary in s is "\n" and s does not end with one,
      joining its lines with "\n" gives s back. */
  lemma {:induction false} JoinSplit(s: string)
    requires forall k :: 0 <= k < |s| && IsLineBreak(s[k]) ==> s[k] == '\n'
    requires s == [] || s[|s| - 1] != '\n'
    ensures Join(SplitLines(s)) == s
    decreases |s|
  {
    if s != [] {
      var i := FirstBreak(s);
      if i == |s| {
        assert SplitLines(s) == [s];
      } else {
        var rest := s[i + 1..];
        assert forall k :: 0 <= k < |rest| ==> rest[k] == s[i + 1 + k];
        JoinSplit(rest);
        JoinSplitStep(s, i);
      }
    }
  }

  /** The step of JoinSplit: the first line, "\n", and the rest joined back. */
  lemma JoinSplitStep(s: string, i: nat)
    requires s != [] && i == FirstBreak(s) && i < |s|
    requires s[i] == '\n' && s[|s| - 1] != '\n'
    requires Join(SplitLines(s[i + 1..])) == s[i + 1..]
    ensures Join(SplitLines(s)) == s
  {
    var rest := s[i + 1..];
    SplitAtNewline(s, i);
    var lines := SplitLines(rest);
    assert lines != [];
    calc {
      Join(SplitLines(s));
      Join([s[..i]] + lines);
      { JoinConsLine(s[..i], lines); }
      s[..i] + "\n" + Join(lines);
      s[..i] + "\n" + rest;
      { SplitAround(s, i); }
      s;
    }
  }

  /** A string is what comes before position i, the character at i, and what
      comes after. */
  lemma SplitAround(s: string, i: nat)
    requires i < |s|
    ensures s == s[..i] + [s[i]] + s[i + 1..]
  {
    assert s[i..] == [s[i]] + s[i + 1..];
    assert s == s[..i] + s[i..];
  }

  lemma JoinConsLine(first: string, rest: seq<string>)
    requires rest != []
    ensures Join([first] + rest) == first + "\n" + Join(rest)
  {
    assert ([first] + rest)[0] == first && ([first] + rest)[1..] == rest;
  }

  /** At a "\n" that ends the first line, SplitLines goes on right after it. */
  lemma SplitAtNewline(s: string, i: nat)
    requires s != [] && i == FirstBreak(s) && i < |s| && s[i] == '\n'
    requires s[|s| - 1] != '\n'
    ensures s[i + 1..] != []
    ensures SplitLines(s) == [s[..i]] + SplitLines(s[i + 1..])
  {
    assert BreakEnd(s, i) == i + 1;
  }

  /** The first position at or after i that is not whitespace, or |s|. */
  function SpanStart(s: string, i: nat): (a: nat)
    requires i <= |s|
    ensures i <= a <= |s|
    ensures forall k :: i <= k < a ==> IsSpace(s[k])
    ensures a == |s| || !IsSpace(s[a])
    decreases |s| - i
  {
    if i < |s| && IsSpace(s[i]) then SpanStart(s, i + 1) else i
  }

  /** The end of s[lo..j] once its trailing whitespace is cut off. */
  function SpanEnd(s: string, lo: nat, j: nat): (b: nat)
    requires lo <= j <= |s|
    ensures lo <= b <= j
    ensures forall k :: b <= k < j ==> IsSpace(s[k])
    ensures b == lo || !IsSpace(s[b - 1])
    decreases j
  {
    if j > lo && IsSpace(s[j - 1]) then SpanEnd(s, lo, j - 1) else j
  }

  /** s is whitespace up to position a, then r, then whitespace to its end. */
  predicate Padded(s: string, a: nat, r: string) {
    a + |r| <= |s| && r == s[a..a + |r|]
    && (forall k :: 0 <= k < a ==> IsSpace(s[k]))
    && (forall k :: a + |r| <= k < |s| ==> IsSpace(s[k]))
  }

  /** `str.strip()`: s is some whitespace, then r, then some whitespace, and r
      neither starts nor ends with whitespace. */
  function Strip(s: string): (r: string)
    ensures IsStripped(r)
    ensures exists a :: Padded(s, a, r)
    ensures NoBreak(s) ==> NoBreak(r)
    ensures IsStripped(s) ==> r == s
  {
    var a := SpanStart(s, 0);
    var b := SpanEnd(s, a, |s|);
    var r := s[a..b];
    assert Padded(s, a, r);
    assert forall k :: 0 <= k < |r| ==> r[k] == s[a + k];
    assert IsStripped(s) && s != [] ==> a == 0 && b == |s|;
    r
  }

  /** Every line stripped, as the generator expression does. */
  function StripAll(lines: seq<string>): (r: seq<string>)
    ensures |r| == |lines|
    decreases |lines|
  {
    if lines == [] then [] else [Strip(lines[0])] + StripAll(lines[1..])
  }

  lemma {:induction false} StripAllAt(lines: seq<string>, i: nat)
    requires i < |lines|
    ensures StripAll(lines)[i] == Strip(lines[i])
    decreases |lines|
  {
    if i > 0 {
      StripAllAt(lines[1..], i - 1);
    }
  }

  /** `"\n".join(lines)`. */
  function Join(lines: seq<string>): string
    decreases |lines|
  {
    if lines == [] then ""
    else if |lines| == 1 then lines[0]
    else lines[0] + "\n" + Join(lines[1..])
  }

  /** Lines that are non-empty, free of boundaries and stripped: the lines
      the filter can produce. */
  predicate GoodLines(lines: seq<string>) {
    forall l :: l in lines ==> l != [] && NoBreak(l) && IsStripped(l)
  }

  /** Joining two non-empty lists puts one "\n" between their joins. */
  lemma {:induction false} JoinAppend(a: seq<string>, b: seq<string>)
    requires a != [] && b != []
    ensures Join(a + b) == Join(a) + "\n" + Join(b)
    decreases |a|
  {
    if |a| == 1 {
      assert (a + b)[0] == a[0] && (a + b)[1..] == b;
    } else {
      assert (a + b)[0] == a[0] && (a + b)[1..] == a[1..] + b;
      JoinAppend(a[1..], b);
    }
  }

  /** Two good lines side by side form one good line. */
  lemma GlueGood(x: string, y: string)
    requires x != [] && NoBreak(x) && IsStripped(x)
    requires y != [] && NoBreak(y) && IsStripped(y)
    ensures x + y != [] && NoBreak(x + y) && IsStripped(x + y)
  {
    var g := x + y;
    assert forall k :: 0 <= k < |g| ==> g[k] == (if k < |x| then x[k] else y[k - |x|]);
    assert g[0] == x[0] && g[|g| - 1] == y[|y| - 1];
  }

  /** Two joins of good lines, put side by side with nothing between them,
      are again a join of good lines: the last line of the first and the
      first line of the second become one line. */
  lemma JoinGlue(a: seq<string>, b: seq<string>) returns (c: seq<string>)
    requires GoodLines(a) && GoodLines(b)
    ensures GoodLines(c) && Join(a) + Join(b) == Join(c)
  {
    if a == [] {
      c := b;
      assert Join(a) + Join(b) == Join(b);
    } else if b == [] {
      c := a;
      assert Join(a) + Join(b) == Join(a);
    } else {
      var init, last := a[..|a| - 1], a[|a| - 1];
      var first, rest := b[0], b[1..];
      assert a == init + [last] && b == [first] + rest;
      assert last in a && first in b;
      GlueGood(last, first);
      var glued := [last + first];
      c := init + glued + rest;
      assert GoodLines(c) by {
        assert forall l :: l in init ==> l in a;
        assert forall l :: l in rest ==> l in b;
      }
      JoinParts(init, last, first, rest);
    }
  }

  /** Join with one more line at the front. */
  lemma JoinCons(first: string, rest: seq<string>)
    ensures Join([first] + rest) == first + (if rest == [] then "" else "\n" + Join(rest))
  {
    if rest == [] {
      assert [first] + rest == [first];
    } else {
      assert ([first] + rest)[0] == first && ([first] + rest)[1..] == rest;
    }
  }

  /** Join with one more line at the back. */
  lemma JoinSnoc(init: seq<string>, last: string)
    ensures Join(init + [last]) == (if init == [] then "" else Join(init) + "\n") + last
  {
    if init == [] {
      assert init + [last] == [last];
    } else {
      JoinAppend(init, [last]);
    }
  }

  lemma JoinParts(init: seq<string>, last: string, first: string, rest: seq<string>)
    ensures Join(init + [last]) + Join([first] + rest) == Join(init + [last + first] + rest)
  {
    var left := if init == [] then "" else Join(init) + "\n";
    var right := if rest == [] then "" else "\n" + Join(rest);
    JoinSnoc(init, last);
    JoinCons(first, rest);
    JoinMiddle(init, last + first, rest);
    assert (left + last) + (first + right) == left + (last + first) + right;
  }

  /** Join with one line between two lists. */
  lemma JoinMiddle(init: seq<string>, middle: string, rest: seq<string>)
    ensures Join(init + [middle] + rest) ==
              (if init == [] then "" else Join(init) + "\n") + middle + (if rest == [] then "" else "\n" + Join(rest))
  {
    var right := if rest == [] then "" else "\n" + Join(rest);
    JoinCons(middle, rest);
    if init == [] {
      assert init + [middle] + rest == [middle] + rest;
      assert "" + middle + right == middle + right;
    } else {
      assert init + [middle] + rest == init + ([middle] + rest);
      JoinAppend(init, [middle] + rest);
      assert Join(init) + "\n" + (middle + right) == Join(init) + "\n" + middle + right;
    }
  }

  /** The condition `line and len(line) > minLen`; with minLen 0 it is just
      `line`, the test main.py uses. */
  predicate KeepLine(line: string, minLen: nat) {
    |line| > 0 && |line| > minLen
  }

  /** a is b with some elements left out, the rest in their order. */
  predicate IsSubsequence<T(==)>(a: seq<T>, b: seq<T>)
    decreases |b|
  {
    a == []
    || (b != [] && ((a[0] == b[0] && IsSubsequence(a[1..], b[1..])) || IsSubsequence(a, b[1..])))
  }

  /** The lines the filter lets through, in order. */
  function KeepLines(lines: seq<string>, minLen: nat): (r: seq<string>)
    ensures forall l :: l in r ==> l in lines && KeepLine(l, minLen)
    ensures forall l :: l in lines && KeepLine(l, minLen) ==> l in r
    ensures IsSubsequence(r, lines)
    decreases |lines|
  {
    if lines == [] then []
    else
      var rest := KeepLines(lines[1..], minLen);
      if KeepLine(lines[0], minLen) then [lines[0]] + rest else rest
  }

  /** The filter keeps every copy of a line that passes its test and none of
      a line that fails it. */
  lemma {:induction false} KeepLinesCount(lines: seq<string>, minLen: nat)
    ensures forall l :: multiset(KeepLines(lines, minLen))[l] ==
              if KeepLine(l, minLen) then multiset(lines)[l] else 0
    decreases |lines|
  {
    if lines != [] {
      KeepLinesCount(lines[1..], minLen);
      assert lines == [lines[0]] + lines[1..];
      assert multiset(lines) == multiset([lines[0]]) + multiset(lines[1..]);
      var rest := KeepLines(lines[1..], minLen);
      if KeepLine(lines[0], minLen) {
        assert multiset([lines[0]] + rest) == multiset([lines[0]]) + multiset(rest);
      }
    }
  }

  /** Stripping lines that are already stripped changes none of them. */
  lemma {:induction false} StripAllStripped(lines: seq<string>)
    requires forall l :: l in lines ==> IsStripped(l)
    ensures StripAll(lines) == lines
    decreases |lines|
  {
    if lines != [] {
      assert lines[0] in lines;
      assert forall l :: l in lines[1..] ==> l in lines;
      StripAllStripped(lines[1..]);
    }
  }

  /** The stripped lines of a text, before the length test. */
  function StrippedLines(text: string): (r: seq<string>)
    ensures forall l :: l in r ==> IsStripped(l) && NoBreak(l)
  {
    var lines := SplitLines(text);
    var r := StripAll(lines);
    assert forall i :: 0 <= i < |r| ==> IsStripped(r[i]) && NoBreak(r[i]) by {
      forall i | 0 <= i < |r| ensures IsStripped(r[i]) && NoBreak(r[i]) {
        StripAllAt(lines, i);
      }
    }
    r
  }

  /** The text the filter produces from `get_text()`'s result. */
  function VisibleText(text: string, minLen: nat): string {
    Join(KeepLines(StrippedLines(text), minLen))
  }

  /** Splitting a join of non-empty lines without boundaries gives the lines
      back. */
  lemma {:induction false} SplitJoin(lines: seq<string>)
    requires forall l :: l in lines ==> l != [] && NoBreak(l)
    ensures SplitLines(Join(lines)) == lines
    decreases |lines|
  {
    if lines == [] {
    } else if |lines| == 1 {
      var l := lines[0];
      assert l in lines;
      assert FirstBreak(l) == |l|;
    } else {
      var l, tail := lines[0], lines[1..];
      assert l in lines;
      assert forall m :: m in tail ==> m in lines;
      SplitJoin(tail);
      SplitFirstLine(l, Join(tail));
      assert [l] + tail == lines;
    }
  }

  /** A line without boundaries, then "\n": SplitLines yields the line and
      goes on with what follows. */
  lemma SplitFirstLine(l: string, tail: string)
    requires NoBreak(l)
    ensures SplitLines(l + "\n" + tail) == [l] + SplitLines(tail)
  {
    var s := l + "\n" + tail;
    assert s[|l|] == '\n';
    assert forall k :: 0 <= k < |l| ==> s[k] == l[k];
    assert FirstBreak(s) == |l|;
    assert BreakEnd(s, |l|) == |l| + 1;
    assert s[..|l|] == l;
    assert s[|l| + 1..] == tail;
  }

  /** The filter keeps every line that already passes it. */
  lemma {:induction false} KeepLinesAll(lines: seq<string>, minLen: nat)
    requires forall l :: l in lines ==> KeepLine(l, minLen)
    ensures KeepLines(lines, minLen) == lines
    decreases |lines|
  {
    if lines != [] {
      KeepLinesAll(lines[1..], minLen);
    }
  }

  /** A join of non-empty lines is empty exactly when there are no lines, and
      otherwise at least as long as its first line. */
  lemma {:induction false} JoinLength(lines: seq<string>)
    requires forall l :: l in lines ==> l != []
    ensures lines == [] <==> Join(lines) == []
    ensures lines != [] ==> |Join(lines)| >= |lines[0]|
  {
    if lines != [] {
      assert lines[0] in lines;
    }
  }

  /** The lines of the filtered text are exactly the stripped input lines that
      pass the test, in order; each one is non-empty, longer than minLen, free
      of line boundaries and of leading or trailing whitespace; and none of the
      stripped lines that passes the test is missing. */
  lemma VisibleLinesWellFormed(text: string, minLen: nat)
    ensures SplitLines(VisibleText(text, minLen)) == KeepLines(StrippedLines(text), minLen)
    ensures forall l :: l in SplitLines(VisibleText(text, minLen)) ==>
              l != [] && |l| > minLen && IsStripped(l) && NoBreak(l)
    ensures forall l :: l in StrippedLines(text) && |l| > minLen ==>
              l in SplitLines(VisibleText(text, minLen))
  {
    SplitJoin(KeepLines(StrippedLines(text), minLen));
  }

  /** No line of the output is invented or moved: the output lines are a
      subsequence of the stripped input lines. */
  lemma VisibleLinesSubsequence(text: string, minLen: nat)
    ensures IsSubsequence(SplitLines(VisibleText(text, minLen)), StrippedLines(text))
  {
    SplitJoin(KeepLines(StrippedLines(text), minLen));
  }

  /** Filtering the filter's output changes nothing. */
  lemma VisibleTextIdempotent(text: string, minLen: nat)
    ensures VisibleText(VisibleText(text, minLen), minLen) == VisibleText(text, minLen)
  {
    var kept := KeepLines(StrippedLines(text), minLen);
    SplitJoin(kept);
    StripAllStripped(kept);
    assert StrippedLines(Join(kept)) == kept;
    KeepLinesAll(kept, minLen);
  }

  /** The output is empty exactly when no stripped line is longer than minLen;
      otherwise it is longer than minLen itself. */
  lemma VisibleTextLength(text: string, minLen: nat)
    ensures VisibleText(text, minLen) == [] <==>
              forall l :: l in StrippedLines(text) ==> |l| <= minLen
    ensures VisibleText(text, minLen) == [] || |VisibleText(text, minLen)| > minLen
  {
    var kept := KeepLines(StrippedLines(text), minLen);
    JoinLength(kept);
    if kept != [] {
      assert kept[0] in kept;
    }
  }

  /** Two non-empty pieces without boundaries, put side by side, are one
      line. */
  lemma GluedLine(first: string, second: string)
    requires first != [] && NoBreak(first) && second != [] && NoBreak(second)
    ensures SplitLines(first + second) == [first + second]
  {
    var glued := first + second;
    assert NoBreak(glued) by {
      assert forall k :: 0 <= k < |glued| ==> glued[k] == (if k < |first| then first[k] else second[k - |first|]);
    }
    SplitJoin([glued]);
  }

  /** A single stripped, non-empty line with no boundary is its own text. */
  lemma SingleLine(line: string, minLen: nat)
    requires line != [] && NoBreak(line) && IsStripped(line)
    ensures VisibleText(line, minLen) == if |line| > minLen then line else ""
  {
    SplitJoin([line]);
    assert StrippedLines(line) == [line];
  }
}
