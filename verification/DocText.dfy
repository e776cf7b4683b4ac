/**
 `prepText` of src/cmd/doc.c: clean a documentation comment in place, one buffer read and written through two moving
 indices. Characters are numbers, and the buffer ends at the first zero.
 */
module DocText {
  const NL := 10
  const STAR := 42

  /** `isspace` sees only the low byte of a character. */
  predicate IsSpace(c: int) { 9 <= c % 256 <= 13 || c % 256 == 32 }

  predicate Blank(c: int) { IsSpace(c) || c == STAR }

  // ---- What it computes ----

  function SkipBlanks(s: seq<int>): (r: seq<int>)
    ensures |r| <= |s|
  {
    if s != [] && Blank(s[0]) then SkipBlanks(s[1..]) else s
  }

  /** Within a line. */
  function CleanFrom(s: seq<int>): seq<int>
    decreases |s|, 1
  {
    if s == [] then []
    else if s[0] == NL then [NL] + CleanIndent(s[1..])
    else [s[0]] + CleanFrom(s[1..])
  }

  /** At the start of a line: drop the indent and its stars, but keep blank lines. */
  function CleanIndent(s: seq<int>): seq<int>
    decreases |s|, 2
  {
    if s == [] then []
    else if s[0] == NL then [NL] + CleanIndent(s[1..])
    else if Blank(s[0]) then CleanIndent(s[1..])
    else CleanFrom(s)
  }

  function Clean(s: seq<int>): seq<int> { CleanFrom(SkipBlanks(s)) }

  // ---- The in-place method ----

  /** The buffer while it is rewritten: `out` has been written, `s` from `cp` on is still to be read, and the write
      index is not past the read index. */
  ghost predicate Buffer(a: array<int>, s: seq<int>, cp: int, out: seq<int>)
    reads a
  {
    && |out| <= cp <= |s| < a.Length && a[|s|] == 0
    && (forall i | 0 <= i < |out| :: a[i] == out[i])
    && (forall i | cp <= i < |s| :: a[i] == s[i] && s[i] != 0)
  }

  /** What is written and what is still to come. */
  lemma {:induction false} CleanSteps(out: seq<int>, s: seq<int>, cp: nat)
    requires cp < |s|
    ensures s[cp] != NL ==> out + CleanFrom(s[cp..]) == out + [s[cp]] + CleanFrom(s[cp + 1..])
    ensures s[cp] == NL ==> out + CleanFrom(s[cp..]) == out + [NL] + CleanIndent(s[cp + 1..])
    ensures s[cp] == NL ==> out + CleanIndent(s[cp..]) == out + [NL] + CleanIndent(s[cp + 1..])
    ensures s[cp] != NL && Blank(s[cp]) ==> CleanIndent(s[cp..]) == CleanIndent(s[cp + 1..])
    ensures !Blank(s[cp]) ==> CleanIndent(s[cp..]) == CleanFrom(s[cp..])
    ensures Blank(s[cp]) ==> SkipBlanks(s[cp..]) == SkipBlanks(s[cp + 1..])
  {
    assert s[cp..][1..] == s[cp + 1..];
    assert out + ([s[cp]] + CleanFrom(s[cp + 1..])) == out + [s[cp]] + CleanFrom(s[cp + 1..]);
    assert out + ([NL] + CleanIndent(s[cp + 1..])) == out + [NL] + CleanIndent(s[cp + 1..]);
  }

  /** `prepText`. The buffer then holds the cleaned text, and nothing beyond the old terminator was touched. */
  method PrepText(a: array<int>, ghost s: seq<int>)
    requires Buffer(a, s, 0, [])
    modifies a
    ensures |Clean(s)| <= |s| < a.Length && a[|Clean(s)|] == 0
    ensures forall i | 0 <= i < |Clean(s)| :: a[i] == Clean(s)[i]
    ensures forall i | |s| < i < a.Length :: a[i] == old(a[i])
  {
    var cp := 0;
    assert s[0..] == s;
    while Blank(a[cp])
      invariant Buffer(a, s, cp, []) && SkipBlanks(s[cp..]) == SkipBlanks(s)
      decreases |s| - cp
      modifies {}
    {
      CleanSteps([], s, cp);
      cp := cp + 1;
    }
    assert SkipBlanks(s[cp..]) == s[cp..];
    ghost var out := CopyLines(a, s, cp);
  }

  /** The main loop. */
  method CopyLines(a: array<int>, ghost s: seq<int>, start: nat) returns (ghost out: seq<int>)
    requires Buffer(a, s, start, [])
    modifies a
    ensures out == CleanFrom(s[start..]) && |out| <= |s| < a.Length && a[|out|] == 0
    ensures forall i | 0 <= i < |out| :: a[i] == out[i]
    ensures forall i | |s| < i < a.Length :: a[i] == old(a[i])
  {
    var cp, dp := start, 0;
    out := [];
    ghost var goal := CleanFrom(s[start..]);
    assert out + goal == goal;
    while a[cp] != 0
      invariant Buffer(a, s, cp, out) && dp == |out| && out + CleanFrom(s[cp..]) == goal
      invariant forall i | |s| < i < a.Length :: a[i] == old(a[i])
      decreases |s| - cp
    {
      cp, dp, out := CopyOne(a, s, cp, dp, out);
    }
    assert s[cp..] == [] && out + [] == out;
    a[dp] := 0;
  }

  /** Its body: a character, or a newline with the indent that follows it. */
  method CopyOne(a: array<int>, ghost s: seq<int>, at: int, from: int, ghost written: seq<int>)
    returns (cp: int, dp: int, ghost out: seq<int>)
    requires Buffer(a, s, at, written) && from == |written| && at < |s|
    modifies a
    ensures at < cp && Buffer(a, s, cp, out) && dp == |out|
    ensures out + CleanFrom(s[cp..]) == written + CleanFrom(s[at..])
    ensures forall i | |s| < i < a.Length :: a[i] == old(a[i])
  {
    CleanSteps(written, s, at);
    var c := a[at];
    a[from] := c;
    cp, dp, out := at + 1, from + 1, written + [s[at]];
    if c == NL {
      cp, dp, out := SkipIndent(a, s, cp, dp, out);
    }
  }

  /** The inner loop, after a newline. */
  method SkipIndent(a: array<int>, ghost s: seq<int>, start: int, from: int, ghost written: seq<int>)
    returns (cp: int, dp: int, ghost out: seq<int>)
    requires Buffer(a, s, start, written) && from == |written|
    modifies a
    ensures start <= cp && Buffer(a, s, cp, out) && dp == |out|
    ensures out + CleanFrom(s[cp..]) == written + CleanIndent(s[start..])
    ensures forall i | |s| < i < a.Length :: a[i] == old(a[i])
  {
    cp, dp, out := start, from, written;
    while Blank(a[cp])
      invariant start <= cp && Buffer(a, s, cp, out) && dp == |out|
      invariant out + CleanIndent(s[cp..]) == written + CleanIndent(s[start..])
      invariant forall i | |s| < i < a.Length :: a[i] == old(a[i])
      decreases |s| - cp
    {
      CleanSteps(out, s, cp);
      if a[cp] == NL {
        a[dp] := NL;
        out := out + [NL];
        dp := dp + 1;
      }
      cp := cp + 1;
    }
    if cp < |s| {
      CleanSteps(out, s, cp);
    }
  }

  // ---- What it guarantees ----

  /** No line starts with a blank or a star, apart from the newlines of empty lines. */
  ghost predicate Tidy(s: seq<int>) {
    && (s != [] ==> !Blank(s[0]))
    && (forall i | 0 < i < |s| && s[i - 1] == NL :: s[i] == NL || !Blank(s[i]))
  }

  /** The same for text that continues after a newline. */
  ghost predicate TidyIndent(s: seq<int>) {
    && (s != [] ==> s[0] == NL || !Blank(s[0]))
    && (forall i | 0 < i < |s| && s[i - 1] == NL :: s[i] == NL || !Blank(s[i]))
  }

  lemma {:induction false} CleanFromTidy(s: seq<int>)
    ensures forall i | 0 < i < |CleanFrom(s)| && CleanFrom(s)[i - 1] == NL ::
      CleanFrom(s)[i] == NL || !Blank(CleanFrom(s)[i])
    ensures s != [] ==> CleanFrom(s) != [] && CleanFrom(s)[0] == s[0]
    decreases |s|, 0
  {
    if s != [] {
      if s[0] == NL {
        CleanIndentTidy(s[1..]);
      } else {
        CleanFromTidy(s[1..]);
      }
    }
  }

  lemma {:induction false} CleanIndentTidy(s: seq<int>)
    ensures TidyIndent(CleanIndent(s))
    decreases |s|, 1
  {
    if s != [] {
      if s[0] == NL || Blank(s[0]) {
        CleanIndentTidy(s[1..]);
      } else {
        CleanFromTidy(s);
      }
    }
  }

  lemma {:induction false} SkipBlanksStart(s: seq<int>)
    ensures SkipBlanks(s) != [] ==> !Blank(SkipBlanks(s)[0])
  {
    if s != [] && Blank(s[0]) {
      SkipBlanksStart(s[1..]);
    }
  }

  lemma {:induction false} TidyFixed(s: seq<int>)
    requires forall i | 0 < i < |s| && s[i - 1] == NL :: s[i] == NL || !Blank(s[i])
    ensures CleanFrom(s) == s
    ensures TidyIndent(s) ==> CleanIndent(s) == s
    decreases |s|
  {
    if s != [] {
      TidyFixed(s[1..]);
      assert [s[0]] + s[1..] == s;
      assert |s| > 1 && s[0] == NL ==> s[1] == NL || !Blank(s[1]);
    }
  }

  /** Cleaned text is tidy, and tidy text is exactly what cleaning leaves alone; so cleaning twice changes nothing. */
  lemma CleanExactly(s: seq<int>)
    ensures Tidy(Clean(s))
    ensures Clean(s) == s <==> Tidy(s)
    ensures Clean(Clean(s)) == Clean(s)
  {
    SkipBlanksStart(s);
    CleanFromTidy(SkipBlanks(s));
    if Tidy(s) {
      TidyFixed(s);
    }
    TidyFixed(Clean(s));
  }

  /** The same with the characters written out, for texts of single-byte characters: what cleaning leaves alone are the
      texts that do not start with a star, a space or one of the characters from tab to carriage return, and in which no
      newline is followed by any of these other than a newline. */
  lemma CleanSpelled(s: seq<int>)
    requires forall i | 0 <= i < |s| :: 0 <= s[i] < 256
    ensures Clean(s) == s <==>
            && (s != [] ==> s[0] != '*' as int && s[0] != ' ' as int && !('\t' as int <= s[0] <= '\r' as int))
            && (forall i | 0 < i < |s| && s[i - 1] == '\n' as int && s[i] != '\n' as int ::
                  s[i] != '*' as int && s[i] != ' ' as int && !('\t' as int <= s[i] <= '\r' as int))
  {
    CleanExactly(s);
  }

  /** The text proper: what is left of a text without blanks and stars. */
  function Solid(s: seq<int>): seq<int> {
    if s == [] then [] else if Blank(s[0]) then Solid(s[1..]) else [s[0]] + Solid(s[1..])
  }

  function Newlines(s: seq<int>): nat {
    if s == [] then 0 else (if s[0] == NL then 1 else 0) + Newlines(s[1..])
  }

  lemma Unfold(c: int, s: seq<int>)
    ensures Solid([c] + s) == if Blank(c) then Solid(s) else [c] + Solid(s)
    ensures Newlines([c] + s) == (if c == NL then 1 else 0) + Newlines(s)
  {
    assert ([c] + s)[1..] == s;
  }

  lemma {:induction false} CleanKeeps(s: seq<int>)
    ensures Solid(CleanFrom(s)) == Solid(s) && Newlines(CleanFrom(s)) == Newlines(s)
    ensures Solid(CleanIndent(s)) == Solid(s) && Newlines(CleanIndent(s)) == Newlines(s)
    decreases |s|
  {
    if s != [] {
      CleanKeeps(s[1..]);
      Unfold(s[0], CleanFrom(s[1..]));
      Unfold(s[0], CleanIndent(s[1..]));
    }
  }

  lemma {:induction false} SkipBlanksSolid(s: seq<int>)
    ensures Solid(SkipBlanks(s)) == Solid(s)
  {
    if s != [] && Blank(s[0]) {
      SkipBlanksSolid(s[1..]);
    }
  }

  /** Nothing but blanks and stars is lost, and after the leading run every newline is kept. */
  lemma CleanConserves(s: seq<int>)
    ensures Solid(Clean(s)) == Solid(s)
    ensures Newlines(Clean(s)) == Newlines(SkipBlanks(s))
  {
    CleanKeeps(SkipBlanks(s));
    SkipBlanksSolid(s);
  }
}
