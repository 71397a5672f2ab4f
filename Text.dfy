/** Python `str` operations that the bot and the trainer rely on: splitting on a
    separator, joining, `splitlines`, substring tests and ASCII lower-casing. */
module Text {

  // ---------------------------------------------------------------------------
  // Substrings and case

  predicate StartsWith(s: string, prefix: string) {
    |prefix| <= |s| && s[..|prefix|] == prefix
  }

  /** Python's `sub in s`. */
  predicate Contains(s: string, sub: string)
    decreases |s|
  {
    StartsWith(s, sub) || (s != [] && Contains(s[1..], sub))
  }

  predicate IsUpper(c: char) { 'A' <= c <= 'Z' }
  predicate IsLower(c: char) { 'a' <= c <= 'z' }
  predicate IsAsciiLetter(c: char) { IsUpper(c) || IsLower(c) }

  function LowerChar(c: char): char {
    if IsUpper(c) then (c as int + 32) as char else c
  }

  /** `s.lower()` on ASCII; every other character is left as it is. */
  function Lower(s: string): (r: string)
    ensures |r| == |s|
    ensures forall i :: 0 <= i < |s| ==> !IsUpper(r[i])
  {
    seq(|s|, i requires 0 <= i < |s| => LowerChar(s[i]))
  }

  /** Python's `s[n:]`: drops the first `n` characters, or all of them. */
  function DropPrefix(s: string, n: nat): (r: string)
    ensures |r| == if |s| <= n then 0 else |s| - n
  {
    if |s| <= n then "" else s[n..]
  }

  // ---------------------------------------------------------------------------
  // str.split(sep) and sep.join(parts)

  predicate Excludes(s: string, sep: char) {
    forall i :: 0 <= i < |s| ==> s[i] != sep
  }

  lemma AppendAssoc(a: string, b: string, c: string)
    ensures a + (b + c) == a + b + c
  {
  }

  /** Number of occurrences of `c` in `s`. */
  function Count(s: string, c: char): nat {
    if s == [] then 0 else (if s[0] == c then 1 else 0) + Count(s[1..], c)
  }

  lemma {:induction false} CountAppend(a: string, b: string, c: char)
    ensures Count(a + b, c) == Count(a, c) + Count(b, c)
    decreases |a|
  {
    if a == [] {
      assert a + b == b;
    } else {
      assert (a + b)[1..] == a[1..] + b;
      CountAppend(a[1..], b, c);
    }
  }

  lemma {:induction false} CountExcludes(s: string, c: char)
    ensures Count(s, c) == 0 <==> Excludes(s, c)
    decreases |s|
  {
    if s != [] {
      CountExcludes(s[1..], c);
      assert Excludes(s, c) <==> s[0] != c && Excludes(s[1..], c) by {
        if s[0] != c && Excludes(s[1..], c) {
          forall i | 0 <= i < |s| ensures s[i] != c {
            if i > 0 { assert s[i] == s[1..][i - 1]; }
          }
        }
      }
    }
  }

  /** Python's `s.split(sep)` for a one-character separator: the pieces between
      separators, empty ones included, so there is always at least one piece. */
  function SplitOn(s: string, sep: char): (r: seq<string>)
    ensures |r| == Count(s, sep) + 1
  {
    if s == [] then [""]
    else
      var rest := SplitOn(s[1..], sep);
      if s[0] == sep then [""] + rest
      else [[s[0]] + rest[0]] + rest[1..]
  }

  /** No piece holds the separator. */
  lemma {:induction false} SplitOnExcludes(s: string, sep: char)
    ensures forall p :: p in SplitOn(s, sep) ==> Excludes(p, sep)
    decreases |s|
  {
    if s != [] {
      SplitOnExcludes(s[1..], sep);
      var rest := SplitOn(s[1..], sep);
      assert rest[0] in rest;
      assert forall p :: p in rest[1..] ==> p in rest;
    }
  }

  /** Python's `sep.join(parts)`. */
  function JoinWith(parts: seq<string>, sep: char): string {
    if parts == [] then ""
    else if |parts| == 1 then parts[0]
    else parts[0] + [sep] + JoinWith(parts[1..], sep)
  }

  lemma {:induction false} SplitOnNoSep(p: string, sep: char)
    requires Excludes(p, sep)
    ensures SplitOn(p, sep) == [p]
    decreases |p|
  {
    if p != [] {
      SplitOnNoSep(p[1..], sep);
      assert [p[0]] + p[1..] == p;
    }
  }

  lemma {:induction false} SplitOnPiece(p: string, sep: char, rest: string)
    requires Excludes(p, sep)
    ensures SplitOn(p + [sep] + rest, sep) == [p] + SplitOn(rest, sep)
    decreases |p|
  {
    var s := p + [sep] + rest;
    if p == [] {
      assert s[1..] == rest;
    } else {
      assert s[1..] == p[1..] + [sep] + rest;
      SplitOnPiece(p[1..], sep, rest);
      assert [p[0]] + p[1..] == p;
    }
  }

  /** Splitting what was joined gives back the parts, when no part holds the
      separator. */
  lemma {:induction false} SplitOnJoinWith(parts: seq<string>, sep: char)
    requires |parts| >= 1
    requires forall p :: p in parts ==> Excludes(p, sep)
    ensures SplitOn(JoinWith(parts, sep), sep) == parts
    decreases |parts|
  {
    if |parts| == 1 {
      SplitOnNoSep(parts[0], sep);
    } else {
      assert forall p :: p in parts[1..] ==> p in parts;
      SplitOnJoinWith(parts[1..], sep);
      SplitOnPiece(parts[0], sep, JoinWith(parts[1..], sep));
      assert [parts[0]] + parts[1..] == parts;
    }
  }

  lemma JoinWithCons(c: char, p: string, tail: seq<string>, sep: char)
    ensures JoinWith([[c] + p] + tail, sep) == [c] + JoinWith([p] + tail, sep)
  {
    var a, b := [[c] + p] + tail, [p] + tail;
    assert a[1..] == tail && b[1..] == tail;
  }

  /** Joining what was split gives back the string, for every string. */
  lemma {:induction false} JoinWithSplitOn(s: string, sep: char)
    ensures JoinWith(SplitOn(s, sep), sep) == s
    decreases |s|
  {
    if s != [] {
      var rest := SplitOn(s[1..], sep);
      JoinWithSplitOn(s[1..], sep);
      if s[0] == sep {
        assert ([""] + rest)[1..] == rest;
      } else {
        JoinWithCons(s[0], rest[0], rest[1..], sep);
        assert [rest[0]] + rest[1..] == rest;
      }
      assert [s[0]] + s[1..] == s;
    }
  }

  // ---------------------------------------------------------------------------
  // Line-oriented files

  /** The characters at which Python's `str.splitlines` breaks a line. */
  predicate IsLineBreak(c: char) {
    c == '\n' || c == '\r' || c == '\U{B}' || c == '\U{C}' || c == '\U{1C}' || c == '\U{1D}'
    || c == '\U{1E}' || c == '\U{85}' || c == '\U{2028}' || c == '\U{2029}'
  }

  predicate NoLineBreak(s: string) {
    forall i :: 0 <= i < |s| ==> !IsLineBreak(s[i])
  }

  lemma NoLineBreakAppend(a: string, b: string)
    requires NoLineBreak(a) && NoLineBreak(b)
    ensures NoLineBreak(a + b)
  {
    forall i | 0 <= i < |a + b| ensures !IsLineBreak((a + b)[i]) {
      if i >= |a| { assert (a + b)[i] == b[i - |a|]; }
    }
  }

  /** True of the text of a file that every write so far ended with a newline. */
  predicate EndsLine(s: string) {
    s == [] || s[|s| - 1] == '\n'
  }

  /** Index of the first line break, or `|s|` when there is none. */
  function FirstBreak(s: string): (n: nat)
    ensures n <= |s|
    ensures forall i :: 0 <= i < n ==> !IsLineBreak(s[i])
    ensures n < |s| ==> IsLineBreak(s[n])
  {
    if s == [] || IsLineBreak(s[0]) then 0 else 1 + FirstBreak(s[1..])
  }

  /** Where the line after a break at `n` starts: "\r\n" is one break. */
  function NextLine(s: string, n: nat): (next: nat)
    requires n < |s|
    ensures n < next <= |s|
  {
    if s[n] == '\r' && n + 1 < |s| && s[n + 1] == '\n' then n + 2 else n + 1
  }

  /** Python's `s.splitlines()`: "\r\n" counts as one break, and a final break
      does not open an empty last line. */
  function SplitLines(s: string): (r: seq<string>)
    ensures forall l :: l in r ==> NoLineBreak(l)
    decreases |s|
  {
    if s == [] then []
    else
      var n := FirstBreak(s);
      if n == |s| then [s]
      else
        var rest := SplitLines(s[NextLine(s, n)..]);
        assert forall l :: l in [s[..n]] + rest ==> l == s[..n] || l in rest;
        [s[..n]] + rest
  }

  /** The text written by printing each of `lines` in turn (each followed by "\n"). */
  function Terminated(lines: seq<string>): (s: string)
    ensures EndsLine(s)
  {
    if lines == [] then ""
    else Terminated(lines[..|lines| - 1]) + lines[|lines| - 1] + "\n"
  }

  /** Writing one more line of the same list. */
  lemma TerminatedNext(head: string, lines: seq<string>, i: nat)
    requires i < |lines|
    ensures head + Terminated(lines[..i]) + lines[i] + "\n" == head + Terminated(lines[..i + 1])
  {
    assert lines[..i + 1][..i] == lines[..i];
  }

  lemma FirstBreakIs(s: string, n: nat)
    requires n < |s| && IsLineBreak(s[n])
    requires forall i :: 0 <= i < n ==> !IsLineBreak(s[i])
    ensures FirstBreak(s) == n
  {
  }

  lemma FirstBreakAppend(a: string, b: string)
    requires FirstBreak(a) < |a|
    ensures FirstBreak(a + b) == FirstBreak(a)
  {
    FirstBreakIs(a + b, FirstBreak(a));
  }

  lemma NextLineAppend(a: string, b: string, n: nat)
    requires n < |a| && EndsLine(a)
    ensures NextLine(a + b, n) == NextLine(a, n)
    ensures NextLine(a, n) < |a| ==> EndsLine(a[NextLine(a, n)..])
    ensures (a + b)[NextLine(a, n)..] == a[NextLine(a, n)..] + b
  {
  }

  /** The first line of a non-empty file that ends with a newline, with more
      appended. */
  lemma SplitLinesAppendHead(a: string, b: string)
    requires a != [] && EndsLine(a)
    ensures FirstBreak(a) < |a|
    ensures SplitLines(a + b) == [a[..FirstBreak(a)]] + SplitLines(a[NextLine(a, FirstBreak(a))..] + b)
    ensures SplitLines(a) == [a[..FirstBreak(a)]] + SplitLines(a[NextLine(a, FirstBreak(a))..])
    ensures EndsLine(a[NextLine(a, FirstBreak(a))..])
  {
    var n := FirstBreak(a);
    assert IsLineBreak(a[|a| - 1]);
    FirstBreakAppend(a, b);
    NextLineAppend(a, b, n);
    SplitLinesAt(a + b, n);
    assert (a + b)[..n] == a[..n];
    SplitLinesAt(a, n);
  }

  /** Reading back a file that ends with a newline, with more appended:
      the lines of the two parts, one after the other. */
  lemma {:induction false} SplitLinesAppend(a: string, b: string)
    requires EndsLine(a)
    ensures SplitLines(a + b) == SplitLines(a) + SplitLines(b)
    decreases |a|
  {
    if a != [] {
      SplitLinesAppendHead(a, b);
      SplitLinesAppend(a[NextLine(a, FirstBreak(a))..], b);
    } else {
      assert a + b == b;
    }
  }

  lemma SplitLinesAt(s: string, n: nat)
    requires n < |s| && FirstBreak(s) == n
    ensures SplitLines(s) == [s[..n]] + SplitLines(s[NextLine(s, n)..])
  {
  }

  lemma SplitLinesOne(l: string)
    requires NoLineBreak(l)
    ensures SplitLines(l + "\n") == [l]
  {
    var s := l + "\n";
    FirstBreakIs(s, |l|);
    assert s[..|l|] == l;
    assert s[|l| + 1..] == [];
  }

  /** Appending one line to a file that ends with a newline adds exactly that
      line to what `splitlines` returns. */
  lemma SplitLinesAppendLine(text: string, l: string)
    requires EndsLine(text) && NoLineBreak(l)
    ensures SplitLines(text + l + "\n") == SplitLines(text) + [l]
  {
    assert text + l + "\n" == text + (l + "\n");
    SplitLinesAppend(text, l + "\n");
    SplitLinesOne(l);
  }

  /** Printed lines read back as the same lines. */
  lemma {:induction false} SplitLinesTerminated(lines: seq<string>)
    requires forall l :: l in lines ==> NoLineBreak(l)
    ensures SplitLines(Terminated(lines)) == lines
    decreases |lines|
  {
    if lines != [] {
      var init, last := lines[..|lines| - 1], lines[|lines| - 1];
      assert lines == init + [last];
      assert forall l :: l in init ==> l in lines;
      assert NoLineBreak(last) by {
        assert last in lines;
      }
      SplitLinesTerminated(init);
      assert Terminated(lines) == Terminated(init) + last + "\n";
      SplitLinesAppendLine(Terminated(init), last);
    }
  }

  /** Printed lines, seen as one text: the lines joined with "\n" plus a final
      empty piece. */
  lemma {:induction false} TerminatedIsJoin(lines: seq<string>)
    ensures Terminated(lines) == JoinWith(lines + [""], '\n')
    decreases |lines|
  {
    if lines != [] {
      var init, last := lines[..|lines| - 1], lines[|lines| - 1];
      TerminatedIsJoin(init);
      JoinWithSnoc(init, last, '\n');
      assert lines + [""] == init + [last, ""];
    }
  }

  lemma {:induction false} JoinWithSnoc(init: seq<string>, last: string, sep: char)
    ensures JoinWith(init + [last, ""], sep) == JoinWith(init + [""], sep) + last + [sep]
    decreases |init|
  {
    if init == [] {
      assert [last, ""][1..] == [""];
    } else {
      var a := init + [last, ""];
      var b := init + [""];
      assert a[1..] == init[1..] + [last, ""];
      assert b[1..] == init[1..] + [""];
      JoinWithSnoc(init[1..], last, sep);
    }
  }
}
